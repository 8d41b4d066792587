/** The signed-token scheme of app/util/security.py.

    A token is the text `username|expiration|signature`, UTF-8 encoded and
    then base64url encoded, where `expiration` is the issue time plus
    ACCESS_TOKEN_EXPIRE_HOURS written as '%Y-%m-%d %H:%M:%S' and `signature`
    is the hex HMAC-SHA256 of `username|expiration` under SECRET_KEY.

    HMAC-SHA256 under the fixed SECRET_KEY is the parameter `sign`; the clock
    is the parameter `now`. */
module Security {
  import opened Wrappers
  import Utf8
  import Base64Url
  import opened Timestamps
  import opened Text

  const AccessTokenExpireHours: nat := 1
  const Separator: char := '|'

  /** `hmac.new(SECRET_KEY.encode(), payload.encode(), sha256).hexdigest()`
      as a function of the payload. */
  type Signer = string -> string

  predicate IsLowerHex(c: char)
  {
    ('0' <= c <= '9') || ('a' <= c <= 'f')
  }

  predicate IsHexDigest(d: string)
  {
    |d| == 64 && forall i :: 0 <= i < |d| ==> IsLowerHex(d[i])
  }

  /** What HMAC-SHA256 `hexdigest()` promises: 64 lower-case hex digits. */
  ghost predicate IsHmacHex(sign: Signer)
  {
    forall m :: IsHexDigest(sign(m))
  }

  function Payload(username: string, expiration: string): string
  {
    username + [Separator] + expiration
  }

  /** The expiration an issue at `now` writes into the token: one hour later,
      to the whole second. None where adding the hour overflows `datetime`. */
  function ExpirationFor(now: DateTime): (r: Option<DateTime>)
    ensures r.None? <==> AddHours(now, AccessTokenExpireHours).None?
    ensures r.Some? ==> r.value.microsecond == 0
  {
    match AddHours(now, AccessTokenExpireHours)
    case None => None
    case Some(e) => Some(Truncate(e))
  }

  /** generate_token(username) at time `now`. None stands for the
      OverflowError Python raises when now + 1 hour is past year 9999. */
  function GenerateToken(username: string, now: DateTime, sign: Signer): (r: Option<string>)
    requires now.Valid()
    ensures r.None? <==> ExpirationFor(now).None?
    ensures r.Some? ==> forall i :: 0 <= i < |r.value| ==> Base64Url.IsUrlSafeChar(r.value[i]) || r.value[i] == '='
  {
    match AddHours(now, AccessTokenExpireHours)
    case None => None
    case Some(e) =>
      AddHoursMicros(now, AccessTokenExpireHours);
      var payload := Payload(username, Format(e));
      Some(Base64Url.Encode(Utf8.Encode(payload + [Separator] + sign(payload))))
  }

  /** base64url decoding followed by UTF-8 decoding: the text inside a token,
      or None where Python raises. */
  function TokenText(token: string): (r: Option<string>)
    ensures r.Some? ==> Base64Url.Decode(token).Some? && Utf8.Encode(r.value) == Base64Url.Decode(token).value
  {
    match Base64Url.Decode(token)
    case None => None
    case Some(bytes) =>
      var text := Utf8.Decode(bytes);
      if text.Some? then Utf8.EncodeDecode(bytes); text else text
  }

  /** `s.rsplit('|', 2)` unpacked into three names: the two rightmost
      separators split the text; None where there are fewer than two, so
      that the unpacking raises ValueError. */
  function RSplit2(s: string): (r: Option<(string, string, string)>)
    ensures r.Some? ==> && s == Payload(Payload(r.value.0, r.value.1), r.value.2)
                        && Separator !in r.value.1 && Separator !in r.value.2
  {
    match LastIndexOf(s, Separator)
    case None => None
    case Some(j) =>
      match LastIndexOf(s[..j], Separator)
      case None => None
      case Some(i) =>
        assert s[..j][i + 1..] == s[i + 1..j];
        assert s == s[..i] + [Separator] + s[i + 1..j] + [Separator] + s[j + 1..];
        Some((s[..i], s[i + 1..j], s[j + 1..]))
  }

  /** verify_token(token) at time `now`. */
  function VerifyToken(token: string, now: DateTime, sign: Signer): (r: Option<string>)
    ensures r.Some? ==>
              exists expiration ::
                && TokenText(token) == Some(Payload(Payload(r.value, expiration), sign(Payload(r.value, expiration))))
                && Parse(expiration).Some? && Before(now, Parse(expiration).value)
  {
    match TokenText(token)
    case None => None
    case Some(text) =>
      match RSplit2(text)
      case None => None
      case Some((username, expiration, signature)) =>
        if signature != sign(Payload(username, expiration)) then None
        else
          match Parse(expiration)
          case None => None
          case Some(e) => if Before(now, e) then Some(username) else None
  }

  // ---- rsplit('|', 2) ----

  /** Splitting from the right recovers the parts of a joined text whose last
      two parts hold no separator, whatever the first part holds. */
  lemma {:induction false} RSplit2Join(u: string, e: string, g: string)
    requires Separator !in e && Separator !in g
    ensures RSplit2(Payload(Payload(u, e), g)) == Some((u, e, g))
  {
    var p := Payload(u, e);
    var s := Payload(p, g);
    var j := |p|;
    assert s[..j] == p && s[j + 1..] == g;
    assert LastIndexOf(s, Separator) == Some(j) by {
      forall m | j < m < |s| ensures s[m] != Separator {
        assert s[m] == g[m - j - 1];
      }
      LastIndexFound(s, Separator, j);
    }
    assert p[..|u|] == u && p[|u| + 1..] == e;
    assert LastIndexOf(p, Separator) == Some(|u|) by {
      forall m | |u| < m < |p| ensures p[m] != Separator {
        assert p[m] == e[m - |u| - 1];
      }
      LastIndexFound(p, Separator, |u|);
    }
    assert s[..|u|] == u && s[|u| + 1..j] == e;
  }

  /** Fewer than two separators: the unpacking fails. */
  lemma {:induction false} RSplit2None(s: string)
    ensures RSplit2(s).None? <==> !exists i, j :: 0 <= i < j < |s| && s[i] == Separator && s[j] == Separator
  {
    if RSplit2(s).Some? {
      var (u, e, g) := RSplit2(s).value;
      assert s[|u|] == Separator && s[|u| + 1 + |e|] == Separator;
    } else if exists i, j :: 0 <= i < j < |s| && s[i] == Separator && s[j] == Separator {
      var i, j :| 0 <= i < j < |s| && s[i] == Separator && s[j] == Separator;
      assert Separator in s[..j];
    }
  }

  // ---- what a token is and when it verifies ----

  /** An issued token decodes to exactly username, expiration and the
      signature of the two, joined by '|'. */
  lemma {:induction false} TokenShape(username: string, now: DateTime, sign: Signer)
    requires now.Valid() && AddHours(now, AccessTokenExpireHours).Some?
    ensures AddHours(now, AccessTokenExpireHours).value.Valid()
    ensures var payload := Payload(username, Format(AddHours(now, AccessTokenExpireHours).value));
            && GenerateToken(username, now, sign).Some?
            && TokenText(GenerateToken(username, now, sign).value)
               == Some(Payload(payload, sign(payload)))
  {
    var e := AddHours(now, AccessTokenExpireHours).value;
    AddHoursMicros(now, AccessTokenExpireHours);
    var payload := Payload(username, Format(e));
    var text := Payload(payload, sign(payload));
    Base64Url.DecodeEncode(Utf8.Encode(text));
    Utf8.DecodeEncode(text);
  }

  /** The expiration is the issue time plus one hour, less the fraction of a
      second that the text form drops; issuing fails only in the last hour
      `datetime` can represent. */
  lemma {:induction false} ExpirationIsOneHourLater(now: DateTime)
    requires now.Valid()
    ensures ExpirationFor(now).None? <==> (now.year == MaxYear && now.month == 12 && now.day == 31 && now.hour == 23)
    ensures ExpirationFor(now).Some? ==>
              && ExpirationFor(now).value.Valid()
              && Micros(ExpirationFor(now).value) == Micros(now) + MicrosPerHour - now.microsecond
  {
    AddHourMicros(now);
    if AddHour(now).Some? {
      var e := AddHour(now).value;
      assert AddHours(e, 0) == Some(e);
      assert AddHours(now, 1) == Some(e);
      TruncateMicros(e);
    }
  }

  /** A text of the form `username|expiration|signature`, with no separator
      in the last two fields, is judged on its signature first and its
      expiration second: a wrong signature is rejected whatever the
      expiration, and a right one is accepted exactly while `now` is strictly
      before a well-formed expiration. */
  lemma {:induction false} VerifySignedText(token: string, now: DateTime, sign: Signer,
                         username: string, expiration: string, signature: string)
    requires TokenText(token) == Some(Payload(Payload(username, expiration), signature))
    requires Separator !in expiration && Separator !in signature
    ensures signature != sign(Payload(username, expiration)) ==> VerifyToken(token, now, sign).None?
    ensures signature == sign(Payload(username, expiration)) ==>
              VerifyToken(token, now, sign)
              == if Parse(expiration).Some? && Before(now, Parse(expiration).value)
                 then Some(username) else None
  {
    RSplit2Join(username, expiration, signature);
  }

  /** Round trip: a token issued at `now` verifies at `later` exactly while
      `later` is strictly before the issue time plus one hour, to the whole
      second, and then it yields the username it was issued for, whatever
      that username contains. */
  lemma {:induction false} VerifyGeneratedToken(username: string, now: DateTime, later: DateTime, sign: Signer)
    requires now.Valid() && later.Valid() && IsHmacHex(sign)
    requires GenerateToken(username, now, sign).Some?
    ensures ExpirationFor(now).Some?
    ensures var token := GenerateToken(username, now, sign).value;
            VerifyToken(token, later, sign)
            == if Before(later, ExpirationFor(now).value) then Some(username) else None
    ensures var token := GenerateToken(username, now, sign).value;
            VerifyToken(token, later, sign).Some?
            <==> Micros(later) < Micros(now) + MicrosPerHour - now.microsecond
  {
    var e := AddHours(now, AccessTokenExpireHours).value;
    TokenShape(username, now, sign);
    var payload := Payload(username, Format(e));
    assert IsHexDigest(sign(payload));
    assert Separator !in sign(payload);
    FormatHasNoSeparator(e);
    VerifySignedText(GenerateToken(username, now, sign).value, later, sign,
                     username, Format(e), sign(payload));
    ParseFormat(e);
    ExpirationIsOneHourLater(now);
    BeforeIsEarlier(later, ExpirationFor(now).value);
  }

  lemma {:induction false} FormatHasNoSeparator(t: DateTime)
    requires t.Valid()
    ensures Separator !in Format(t)
  {
    var f := Format(t);
    forall i | 0 <= i < |f| ensures f[i] != Separator {
      assert f[i] == '-' || f[i] == ' ' || f[i] == ':' || IsAsciiDigit(f[i]);
    }
  }

  /** verify_token fails closed: text that is not base64url, bytes that are
      not UTF-8, fewer than two '|' separators, or an expiration that does not
      parse all give None. */
  lemma {:induction false} VerifyTokenFailsClosed(token: string, now: DateTime, sign: Signer)
    ensures TokenText(token).None? ==> VerifyToken(token, now, sign).None?
    ensures TokenText(token).Some? &&
            (var text := TokenText(token).value;
             !exists i, j :: 0 <= i < j < |text| && text[i] == Separator && text[j] == Separator)
            ==> VerifyToken(token, now, sign).None?
    ensures TokenText(token).Some? && RSplit2(TokenText(token).value).Some?
            && Parse(RSplit2(TokenText(token).value).value.1).None?
            ==> VerifyToken(token, now, sign).None?
  {
    if TokenText(token).Some? {
      RSplit2None(TokenText(token).value);
    }
  }
}
