/** The in-memory tables of app/routers/portfolio.py and
    app/routers/metrics.py share one shape: a list of records with an
    integer `id`, looked up by a linear scan (`next(... enumerate ...)`),
    appended to, replaced in place and popped. `key` reads a record's id. */
module Tables {
  import opened Wrappers

  /** The index `next((i for i, r in enumerate(s) if r["id"] == id), None)`
      yields: the first record with that id. */
  function FirstIndex<T>(s: seq<T>, key: T -> int, id: int): (r: Option<nat>)
    ensures r.Some? ==> && r.value < |s| && key(s[r.value]) == id
                        && forall k :: 0 <= k < r.value ==> key(s[k]) != id
    ensures r.None? ==> forall k :: 0 <= k < |s| ==> key(s[k]) != id
  {
    if s == [] then None
    else if key(s[0]) == id then Some(0)
    else
      match FirstIndex(s[1..], key, id)
      case None => None
      case Some(k) => Some(k + 1)
  }

  /** The linear scan itself. */
  method Scan<T>(s: seq<T>, key: T -> int, id: int) returns (r: Option<nat>)
    ensures r == FirstIndex(s, key, id)
  {
    var i := 0;
    while i < |s|
      invariant 0 <= i <= |s|
      invariant forall k :: 0 <= k < i ==> key(s[k]) != id
    {
      if key(s[i]) == id {
        return Some(i);
      }
      i := i + 1;
    }
    return None;
  }

  /** Ids strictly increase from each record to the next. */
  predicate Increasing<T>(s: seq<T>, key: T -> int)
  {
    forall i :: 0 <= i < |s| - 1 ==> key(s[i]) < key(s[i + 1])
  }

  /** Increasing from neighbour to neighbour means increasing throughout,
      so no id occurs twice. */
  lemma {:induction false} IncreasingSorted<T>(s: seq<T>, key: T -> int, i: nat, j: nat)
    requires Increasing(s, key) && i < j < |s|
    ensures key(s[i]) < key(s[j])
    decreases j - i
  {
    if i + 1 < j {
      IncreasingSorted(s, key, i + 1, j);
    }
  }

  /** `s.pop(k)`: the list without its k-th record, the others in order. */
  function RemoveAt<T>(s: seq<T>, k: nat): (r: seq<T>)
    requires k < |s|
    ensures |r| == |s| - 1
    ensures forall i :: 0 <= i < k ==> r[i] == s[i]
    ensures forall i :: k <= i < |r| ==> r[i] == s[i + 1]
  {
    s[..k] + s[k + 1..]
  }

  /** In an increasing table the scan for a record's id finds that record. */
  lemma {:induction false} FindMember<T>(s: seq<T>, key: T -> int, k: nat)
    requires Increasing(s, key) && k < |s|
    ensures FirstIndex(s, key, key(s[k])) == Some(k)
  {
    var r := FirstIndex(s, key, key(s[k]));
    if r.value < k {
      IncreasingSorted(s, key, r.value, k);
    }
  }

  /** Appending a record whose id exceeds every id present keeps the table
      increasing, makes the new record findable by its id, and leaves every
      other lookup as it was. */
  lemma {:induction false} Append<T>(s: seq<T>, key: T -> int, x: T)
    requires Increasing(s, key)
    requires forall i :: 0 <= i < |s| ==> key(s[i]) < key(x)
    ensures Increasing(s + [x], key)
    ensures FirstIndex(s + [x], key, key(x)) == Some(|s|)
    ensures forall id :: id != key(x) ==> FirstIndex(s + [x], key, id) == FirstIndex(s, key, id)
  {
    var t := s + [x];
    assert forall i :: 0 <= i < |s| ==> t[i] == s[i];
    assert t[|s|] == x;
    forall id | id != key(x)
      ensures FirstIndex(t, key, id) == FirstIndex(s, key, id)
    {
      var r := FirstIndex(t, key, id);
      if r.Some? {
        assert r.value < |s|;
      }
    }
  }

  /** Replacing a record by one with the same id keeps the table increasing;
      the id now finds the new record and every other lookup is unchanged. */
  lemma {:induction false} Replace<T>(s: seq<T>, key: T -> int, k: nat, x: T)
    requires Increasing(s, key) && k < |s| && key(x) == key(s[k])
    ensures Increasing(s[k := x], key)
    ensures FirstIndex(s[k := x], key, key(x)) == Some(k)
    ensures forall id :: FirstIndex(s[k := x], key, id).Some? == FirstIndex(s, key, id).Some?
    ensures forall id :: id != key(x) ==> FirstIndex(s[k := x], key, id) == FirstIndex(s, key, id)
  {
    var t := s[k := x];
    assert forall i :: 0 <= i < |t| ==> key(t[i]) == key(s[i]);
    FindMember(t, key, k);
  }

  /** Popping a record keeps the table increasing. */
  lemma {:induction false} RemoveIncreasing<T>(s: seq<T>, key: T -> int, k: nat)
    requires Increasing(s, key) && k < |s|
    ensures Increasing(RemoveAt(s, k), key)
  {
    var t := RemoveAt(s, k);
    forall i | 0 <= i < |t| - 1
      ensures key(t[i]) < key(t[i + 1])
    {
      if i + 1 == k {
        IncreasingSorted(s, key, i, i + 2);
      }
    }
  }

  /** After popping a record of an increasing table its id is found no
      more. */
  lemma {:induction false} RemoveNotFound<T>(s: seq<T>, key: T -> int, k: nat)
    requires Increasing(s, key) && k < |s|
    ensures FirstIndex(RemoveAt(s, k), key, key(s[k])).None?
  {
    var t := RemoveAt(s, k);
    forall i | 0 <= i < |t|
      ensures key(t[i]) != key(s[k])
    {
      if i < k {
        IncreasingSorted(s, key, i, k);
      } else {
        IncreasingSorted(s, key, k, i + 1);
      }
    }
  }

  /** Popping a record leaves every other id present exactly when it was. */
  lemma {:induction false} RemoveKeepsOthers<T>(s: seq<T>, key: T -> int, k: nat, id: int)
    requires k < |s| && id != key(s[k])
    ensures FirstIndex(RemoveAt(s, k), key, id).Some? == FirstIndex(s, key, id).Some?
  {
    var t := RemoveAt(s, k);
    forall i | 0 <= i < |t| && key(t[i]) == id
      ensures FirstIndex(s, key, id).Some?
    {
      var j := if i < k then i else i + 1;
      assert key(s[j]) == id;
    }
    forall i | 0 <= i < |s| && key(s[i]) == id
      ensures FirstIndex(t, key, id).Some?
    {
      var j := if i < k then i else i - 1;
      assert key(t[j]) == id;
    }
  }
}
