/** The input validators of app/util/validators.py: password strength, e-mail
    shape and username shape, as Python's `re` module decides them. */
module Validators {
  import opened Wrappers
  import opened Text

  // ---- character classes ----

  predicate IsAsciiUpper(c: char) { 'A' <= c <= 'Z' }
  predicate IsAsciiLower(c: char) { 'a' <= c <= 'z' }
  predicate IsAsciiLetter(c: char) { IsAsciiUpper(c) || IsAsciiLower(c) }
  predicate IsAsciiDigit(c: char) { '0' <= c <= '9' }

  /** The code points of the digit zero of every run of ten characters in
      Unicode's general category Nd (decimal digits), as of Unicode 15. */
  const DecimalDigitZeros: seq<int> :=
      [0x0030, 0x0660, 0x06F0, 0x07C0, 0x0966, 0x09E6, 0x0A66, 0x0AE6, 0x0B66, 0x0BE6]
    + [0x0C66, 0x0CE6, 0x0D66, 0x0DE6, 0x0E50, 0x0ED0, 0x0F20, 0x1040, 0x1090, 0x17E0]
    + [0x1810, 0x1946, 0x19D0, 0x1A80, 0x1A90, 0x1B50, 0x1BB0, 0x1C40, 0x1C50, 0xA620]
    + [0xA8D0, 0xA900, 0xA9D0, 0xA9F0, 0xAA50, 0xABF0, 0xFF10, 0x104A0, 0x10D30, 0x11066]
    + [0x110F0, 0x11136, 0x111D0, 0x112F0, 0x11450, 0x114D0, 0x11650, 0x116C0, 0x11730, 0x118E0]
    + [0x11950, 0x11C50, 0x11D50, 0x11DA0, 0x11F50, 0x16A60, 0x16AC0, 0x16B50, 0x1D7CE, 0x1D7D8]
    + [0x1D7E2, 0x1D7EC, 0x1D7F6, 0x1E140, 0x1E2F0, 0x1E4F0, 0x1E950, 0x1FBF0]

  /** What `\d` matches in a `str` pattern: any Unicode decimal digit. */
  predicate IsDecimalDigit(c: char)
  {
    exists k :: 0 <= k < |DecimalDigitZeros| && DecimalDigitZeros[k] <= c as int < DecimalDigitZeros[k] + 10
  }

  lemma {:induction false} AsciiDigitIsDecimal(c: char)
    requires IsAsciiDigit(c)
    ensures IsDecimalDigit(c)
  {
    assert DecimalDigitZeros[0] <= c as int < DecimalDigitZeros[0] + 10;
  }

  /** `[a-zA-Z0-9._%+-]`, the local part of an e-mail address. */
  predicate IsLocalChar(c: char)
  {
    IsAsciiLetter(c) || IsAsciiDigit(c) || c in "._%+-"
  }

  /** `[a-zA-Z0-9.-]`, the domain of an e-mail address. */
  predicate IsDomainChar(c: char)
  {
    IsAsciiLetter(c) || IsAsciiDigit(c) || c == '.' || c == '-'
  }

  /** `[a-zA-Z0-9_]`, a username character. */
  predicate IsWordChar(c: char)
  {
    IsAsciiLetter(c) || IsAsciiDigit(c) || c == '_'
  }

  datatype CharClass = Upper | Lower | Digit | Local | Domain | Letter | Word

  predicate InClass(cls: CharClass, c: char)
  {
    match cls
    case Upper => IsAsciiUpper(c)
    case Lower => IsAsciiLower(c)
    case Digit => IsDecimalDigit(c)
    case Local => IsLocalChar(c)
    case Domain => IsDomainChar(c)
    case Letter => IsAsciiLetter(c)
    case Word => IsWordChar(c)
  }

  /** `re.search('[...]', s) is not None` for a one-character class. */
  function Search(s: string, cls: CharClass): (found: bool)
    ensures found <==> exists i :: 0 <= i < |s| && InClass(cls, s[i])
  {
    if s == [] then false
    else InClass(cls, s[0]) || (assert forall i :: 0 < i < |s| ==> s[i] == s[1..][i - 1]; Search(s[1..], cls))
  }

  /** Every character of `s` is in the class: the body of `[...]+` or
      `[...]{n,}`. */
  function All(s: string, cls: CharClass): (ok: bool)
    ensures ok <==> forall i :: 0 <= i < |s| ==> InClass(cls, s[i])
  {
    if s == [] then true
    else InClass(cls, s[0]) && (assert forall i :: 0 < i < |s| ==> s[i] == s[1..][i - 1]; All(s[1..], cls))
  }

  // ---- regular-expression matching with Python's `$` ----

  /** `re.match('^...$', s)` succeeds when the pattern matches the whole
      text, or the whole text but a single trailing newline: Python's `$`
      also matches just before a final '\n'. A text that does not end in a
      newline matches only as a whole. */
  predicate EndAnchored(s: string, whole: string -> bool)
    ensures EndAnchored(s, whole) && (s == [] || s[|s| - 1] != '\n') ==> whole(s)
  {
    whole(s) || (|s| > 0 && s[|s| - 1] == '\n' && whole(s[..|s| - 1]))
  }

  // ---- PasswordValidator ----

  /** validate_password_strength: at least eight characters, with an ASCII
      upper-case letter, an ASCII lower-case letter and a decimal digit. */
  function ValidatePasswordStrength(password: string): (ok: bool)
    ensures ok <==> && |password| >= 8
                    && (exists i :: 0 <= i < |password| && IsAsciiUpper(password[i]))
                    && (exists i :: 0 <= i < |password| && IsAsciiLower(password[i]))
                    && (exists i :: 0 <= i < |password| && IsDecimalDigit(password[i]))
  {
    if |password| < 8 then false
    else if !Search(password, Upper) then false
    else if !Search(password, Lower) then false
    else if !Search(password, Digit) then false
    else true
  }

  /** The language of `[a-zA-Z0-9._%+-]+@[a-zA-Z0-9.-]+\.[a-zA-Z]{2,}`: a
      non-empty local part, '@', a non-empty domain, '.', and a top-level
      label of at least two letters. Such an address has at least six
      characters, among them an '@' and a '.'. */
  predicate IsEmailShape(s: string)
    ensures IsEmailShape(s) ==> |s| >= 6 && '@' in s && '.' in s
  {
    exists at, dot | 0 <= at < dot < |s| :: EmailSplit(s, at, dot)
  }

  /** The same language decided without search: the first '@' ends the local
      part, and the last '.' after it starts the top-level label. */
  function EmailScan(s: string): (ok: bool)
    ensures ok <==> IsEmailShape(s)
  {
    match IndexOf(s, '@')
    case None => (assert !IsEmailShape(s); false)
    case Some(at) =>
      var rest := s[at + 1..];
      match LastIndexOf(rest, '.')
      case None =>
        (assert !IsEmailShape(s) by { EmailNeedsDot(s, at); }
         false)
      case Some(d) =>
        var ok := 0 < at && 0 < d && d + 3 <= |rest|
          && All(s[..at], Local) && All(rest, Domain) && All(rest[d + 1..], Letter);
        if ok then
          EmailScanSound(s, at, d);
          true
        else
          assert !IsEmailShape(s) by {
            if IsEmailShape(s) {
              var a, t :| 0 <= a < t < |s| && EmailSplit(s, a, t);
              EmailScanComplete(s, at, d, a, t);
            }
          }
          false
  }

  lemma {:induction false} EmailNeedsDot(s: string, at: nat)
    requires IndexOf(s, '@') == Some(at) && LastIndexOf(s[at + 1..], '.').None?
    ensures !IsEmailShape(s)
  {
  }

  /** The witnesses of IsEmailShape. */
  predicate EmailSplit(s: string, at: int, dot: int)
  {
    0 < at && at + 1 < dot && dot + 3 <= |s|
      && s[at] == '@' && s[dot] == '.'
      && All(s[..at], Local) && All(s[at + 1..dot], Domain) && All(s[dot + 1..], Letter)
  }

  /** The local part holds no '@', so the '@' of a split is the first one. */
  lemma {:induction false} FirstAt(s: string, a: int, at: nat)
    requires EmailSplit(s, a, 0) || exists t :: EmailSplit(s, a, t)
    requires IndexOf(s, '@') == Some(at)
    ensures a == at
  {

  }

  lemma {:induction false} EmailScanSound(s: string, at: nat, d: nat)
    requires IndexOf(s, '@') == Some(at) && LastIndexOf(s[at + 1..], '.') == Some(d)
    requires 0 < at && 0 < d && d + 3 <= |s[at + 1..]|
    requires All(s[..at], Local) && All(s[at + 1..], Domain) && All(s[at + 1..][d + 1..], Letter)
    ensures EmailSplit(s, at, at + 1 + d)
  {
    var rest := s[at + 1..];
    var dot := at + 1 + d;
    assert s[at + 1..dot] == rest[..d];
    assert s[dot + 1..] == rest[d + 1..];
    assert s[dot] == rest[d];
  }

  lemma {:induction false} EmailScanComplete(s: string, at: nat, d: nat, a: int, t: int)
    requires IndexOf(s, '@') == Some(at) && LastIndexOf(s[at + 1..], '.') == Some(d)
    requires EmailSplit(s, a, t)
    ensures 0 < at && 0 < d && d + 3 <= |s[at + 1..]|
    ensures All(s[..at], Local) && All(s[at + 1..], Domain) && All(s[at + 1..][d + 1..], Letter)
  {
    var rest := s[at + 1..];
    FirstAt(s, a, at);
    assert t - at - 1 == d;
    forall i | 0 <= i < |rest| ensures IsDomainChar(rest[i]) {
      if i < d {
        assert rest[i] == s[a + 1..t][i];
      } else if i > d {
        assert rest[i] == s[t + 1..][i - d - 1];
      }
    }
    assert rest[d + 1..] == s[t + 1..];
  }

  /** validate_email. */
  function ValidateEmail(email: string): (ok: bool)
    ensures ok <==> EndAnchored(email, IsEmailShape)
  {
    EmailScan(email) || (|email| > 0 && email[|email| - 1] == '\n' && EmailScan(email[..|email| - 1]))
  }

  /** An address of the accepted shape has exactly one '@', and its last '.'
      is followed by at least two letters and nothing else. */
  lemma {:induction false} EmailShapeFacts(s: string)
    requires IsEmailShape(s)
    ensures multiset(s)['@'] == 1
    ensures LastIndexOf(s, '.').Some?
    ensures var d := LastIndexOf(s, '.').value; d + 3 <= |s| && All(s[d + 1..], Letter)
  {
    var at, dot :| 0 <= at < dot < |s| && EmailSplit(s, at, dot);
    EmailSplitFacts(s, at, dot);
  }

  lemma {:induction false} EmailSplitFacts(s: string, at: int, dot: int)
    requires EmailSplit(s, at, dot)
    ensures multiset(s)['@'] == 1
    ensures LastIndexOf(s, '.') == Some(dot)
  {
    var local, domain, tld := s[..at], s[at + 1..dot], s[dot + 1..];
    assert '@' !in local;
    assert '@' !in domain;
    assert '@' !in tld && '.' !in tld;
    assert s[at + 1..] == domain + [s[dot]] + tld;
    OccursOnce(s, '@', at);
    LastIndexFound(s, '.', dot);
  }

  lemma {:induction false} OccursOnce(s: string, c: char, k: nat)
    requires k < |s| && s[k] == c && c !in s[..k] && c !in s[k + 1..]
    ensures multiset(s)[c] == 1
  {
    assert s == s[..k] + [c] + s[k + 1..];
    assert multiset(s) == multiset(s[..k]) + multiset{c} + multiset(s[k + 1..]);
  }

  // ---- UserDataValidator ----

  const UsernameTooShort := "Username must be at least 3 characters long"
  const UsernameBadChars := "Username can only contain letters, numbers, and underscores"
  const EmailInvalid := "Invalid email format"
  const PasswordWeak := "Password must be at least 8 characters with uppercase, lowercase, and number"

  /** The language of `[a-zA-Z0-9_]+`. */
  predicate IsUsernameShape(s: string)
  {
    |s| > 0 && All(s, Word)
  }

  /** validate_username: the value back, or the ValueError's message. The
      length test counts a trailing newline that the pattern then lets
      through. */
  function ValidateUsername(v: string): (r: Result<string, string>)
    ensures r.Ok? <==> |v| >= 3 && EndAnchored(v, IsUsernameShape)
    ensures r.Ok? ==> r.value == v
    ensures r.Err? ==> r.error == (if |v| < 3 then UsernameTooShort else UsernameBadChars)
  {
    if |v| < 3 then Err(UsernameTooShort)
    else if !(IsUsernameShape(v) || (v[|v| - 1] == '\n' && IsUsernameShape(v[..|v| - 1]))) then Err(UsernameBadChars)
    else Ok(v)
  }

  /** The e-mail field validator: the value back exactly when validate_email
      accepts it. */
  function ValidateEmailField(v: string): (r: Result<string, string>)
    ensures r.Ok? <==> ValidateEmail(v)
    ensures r.Ok? ==> r.value == v
    ensures r.Err? ==> r.error == EmailInvalid
  {
    if !ValidateEmail(v) then Err(EmailInvalid) else Ok(v)
  }

  /** The password field validator: the value back exactly when
      validate_password_strength accepts it. */
  function ValidatePasswordField(v: string): (r: Result<string, string>)
    ensures r.Ok? <==> ValidatePasswordStrength(v)
    ensures r.Ok? ==> r.value == v
    ensures r.Err? ==> r.error == PasswordWeak
  {
    if !ValidatePasswordStrength(v) then Err(PasswordWeak) else Ok(v)
  }

  /** A password with all three kinds of character and eleven long passes. */
  lemma {:induction false} StrongPasswordExample()
    ensures ValidatePasswordStrength("Str0ngPass1")
  {
    var p := "Str0ngPass1";
    assert IsAsciiUpper(p[0]) && IsAsciiLower(p[1]);
    AsciiDigitIsDecimal(p[3]);
  }

  /** A password without an upper-case letter fails. */
  lemma {:induction false} WeakPasswordExample()
    ensures !ValidatePasswordStrength("weakpass1")
  {
    var p := "weakpass1";
    assert forall i :: 0 <= i < |p| ==> !IsAsciiUpper(p[i]);
  }

  /** `\d` reaches beyond ASCII: an Arabic-Indic three is a digit. */
  lemma {:induction false} UnicodeDigitPasswordExample()
    ensures ValidatePasswordStrength("Passw\U{0663}rdX")
  {
    var q := "Passw\U{0663}rdX";
    assert IsAsciiUpper(q[0]) && IsAsciiLower(q[1]);
    assert DecimalDigitZeros[1] <= q[5] as int < DecimalDigitZeros[1] + 10;
  }

  /** An address with and without the newline that `$` lets through. */
  lemma {:induction false} EmailExamples()
    ensures ValidateEmail("alice@x.com")
    ensures ValidateEmail("alice@x.com\n")
  {
    assert EmailSplit("alice@x.com", 5, 7);
    var t := "alice@x.com\n";
    assert t[..|t| - 1] == "alice@x.com";
  }

  /** A three-character username whose third character is a newline passes. */
  lemma {:induction false} UsernameExamples()
    ensures ValidateUsername("ab\n") == Ok("ab\n")
    ensures ValidateUsername("ab") == Err(UsernameTooShort)
    ensures ValidateUsername("a-b") == Err(UsernameBadChars)
  {
    var t := "ab\n";
    assert t[..2] == "ab";
    assert !IsWordChar("a-b"[1]);
  }
}
