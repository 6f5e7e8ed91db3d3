/** Ordinal string order and the sort that `OrderBy(n => n)` applies to a set
    of namespace names (assumed ordinal: compare character codes, a proper
    prefix sorts first). */
module Ordinal {

  predicate Less(a: string, b: string)
  {
    if |a| == 0 then |b| > 0
    else if |b| == 0 then false
    else if a[0] == b[0] then Less(a[1..], b[1..])
    else a[0] < b[0]
  }

  lemma {:induction false} LessIrreflexive(a: string)
    ensures !Less(a, a)
  {
    if |a| > 0 {
      LessIrreflexive(a[1..]);
    }
  }

  lemma {:induction false} LessTransitive(a: string, b: string, c: string)
    requires Less(a, b) && Less(b, c)
    ensures Less(a, c)
  {
    if |a| > 0 && |b| > 0 && |c| > 0 && a[0] == b[0] && b[0] == c[0] {
      LessTransitive(a[1..], b[1..], c[1..]);
    }
  }

  lemma {:induction false} LessTotal(a: string, b: string)
    ensures Less(a, b) || a == b || Less(b, a)
  {
    if |a| > 0 && |b| > 0 && a[0] == b[0] {
      LessTotal(a[1..], b[1..]);
      if a[1..] == b[1..] {
        assert a == [a[0]] + a[1..] && b == [b[0]] + b[1..];
      }
    }
  }

  lemma LessAsymmetric(a: string, b: string)
    requires Less(a, b)
    ensures !Less(b, a)
  {
    if Less(b, a) {
      LessTransitive(a, b, a);
      LessIrreflexive(a);
    }
  }

  /** Sorted in ordinal order with no element repeated. */
  predicate StrictlySorted(s: seq<string>)
  {
    forall i, j :: 0 <= i < j < |s| ==> Less(s[i], s[j])
  }

  function Elems(s: seq<string>): set<string>
  {
    set x | x in s
  }

  lemma ElemsEmpty(s: seq<string>)
    ensures Elems(s) == {} <==> s == []
  {
    if s != [] {
      assert s[0] in Elems(s);
    }
  }

  /** A strictly sorted sequence repeats nothing. */
  lemma SortedNoRepeat(s: seq<string>, i: int, j: int)
    requires StrictlySorted(s) && 0 <= i < j < |s|
    ensures s[i] != s[j]
  {
    LessIrreflexive(s[i]);
  }

  lemma ElemsCons(h: string, t: seq<string>)
    ensures Elems([h] + t) == {h} + Elems(t)
  {
    assert forall k :: 0 <= k < |t| ==> ([h] + t)[k + 1] == t[k];
  }

  /** Putting an element below all others in front keeps a sequence strictly sorted. */
  lemma SortedCons(h: string, t: seq<string>)
    requires StrictlySorted(t)
    requires forall y :: y in Elems(t) ==> Less(h, y)
    ensures StrictlySorted([h] + t)
  {
    assert forall j :: 0 <= j < |t| ==> t[j] in Elems(t);
  }

  /** Inserts `x` at its place in a strictly sorted sequence (no-op if present). */
  function Insert(s: seq<string>, x: string): (r: seq<string>)
    requires StrictlySorted(s)
    ensures StrictlySorted(r)
    ensures Elems(r) == Elems(s) + {x}
  {
    if s == [] then [x]
    else if s[0] == x then s
    else
      assert s == [s[0]] + s[1..];
      ElemsCons(s[0], s[1..]);
      if Less(x, s[0]) then
        InsertFrontSorted(s, x);
        ElemsCons(x, s);
        [x] + s
      else
        var t := Insert(s[1..], x);
        InsertLaterSorted(s, x, t);
        ElemsCons(s[0], t);
        [s[0]] + t
  }

  lemma InsertFrontSorted(s: seq<string>, x: string)
    requires StrictlySorted(s) && s != [] && Less(x, s[0])
    ensures StrictlySorted([x] + s)
  {
    forall y | y in Elems(s) ensures Less(x, y) {
      var k :| 0 <= k < |s| && s[k] == y;
      if k > 0 {
        LessTransitive(x, s[0], s[k]);
      }
    }
    SortedCons(x, s);
  }

  lemma InsertLaterSorted(s: seq<string>, x: string, t: seq<string>)
    requires StrictlySorted(s) && s != [] && s[0] != x && !Less(x, s[0])
    requires StrictlySorted(t) && Elems(t) == Elems(s[1..]) + {x}
    ensures StrictlySorted([s[0]] + t)
  {
    LessTotal(x, s[0]);
    forall y | y in Elems(t) ensures Less(s[0], y) {
      if y != x {
        var k :| 0 <= k < |s[1..]| && s[1..][k] == y;
        assert s[k + 1] == y;
      }
    }
    SortedCons(s[0], t);
  }

  /** Two strictly sorted sequences with the same elements are equal: the
      sorted order of a set is unique, so the output is reproducible. */
  lemma {:induction false} SortedUnique(a: seq<string>, b: seq<string>)
    requires StrictlySorted(a) && StrictlySorted(b)
    requires Elems(a) == Elems(b)
    ensures a == b
  {
    ElemsEmpty(a);
    ElemsEmpty(b);
    if a != [] && b != [] {
      assert a[0] in Elems(b) && b[0] in Elems(a);
      if a[0] != b[0] {
        var i :| 0 <= i < |b| && b[i] == a[0];
        var j :| 0 <= j < |a| && a[j] == b[0];
        assert Less(b[0], a[0]) && Less(a[0], b[0]);
        LessAsymmetric(a[0], b[0]);
      }
      forall y ensures y in Elems(a[1..]) <==> y in Elems(b[1..]) {
        if y in Elems(a[1..]) {
          var i :| 0 <= i < |a[1..]| && a[1..][i] == y;
          SortedNoRepeat(a, 0, i + 1);
          assert y in Elems(b);
          var j :| 0 <= j < |b| && b[j] == y;
          assert j != 0;
          assert b[1..][j - 1] == y;
        }
        if y in Elems(b[1..]) {
          var j :| 0 <= j < |b[1..]| && b[1..][j] == y;
          SortedNoRepeat(b, 0, j + 1);
          assert y in Elems(a);
          var i :| 0 <= i < |a| && a[i] == y;
          assert i != 0;
          assert a[1..][i - 1] == y;
        }
      }
      SortedUnique(a[1..], b[1..]);
      assert a == [a[0]] + a[1..] && b == [b[0]] + b[1..];
    }
  }

  /** `items.OrderBy(n => n)`: the elements of a set in ordinal order. */
  method SortOrdinal(items: set<string>) returns (r: seq<string>)
    ensures StrictlySorted(r)
    ensures Elems(r) == items
  {
    r := [];
    var rest := items;
    while rest != {}
      invariant StrictlySorted(r)
      invariant Elems(r) + rest == items
      invariant Elems(r) !! rest
      decreases |rest|
    {
      var x :| x in rest;
      r := Insert(r, x);
      rest := rest - {x};
    }
  }
}
