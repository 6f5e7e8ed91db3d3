/** String helpers the generators rely on: `string.Join`, splitting it back,
    `TrimStart(c)`, ASCII `ToLowerInvariant`, decimal rendering of an `int`,
    LINQ `Distinct`, and `AppendLine` with a "\n" line end. */
module Text {

  /** `string.Join(sep, xs)`. */
  function Join(sep: string, xs: seq<string>): string
  {
    if |xs| == 0 then ""
    else if |xs| == 1 then xs[0]
    else xs[0] + sep + Join(sep, xs[1..])
  }

  /** Index of the first `c` in `s`, or `|s|` when there is none. */
  function IndexOf(s: string, c: char): (i: nat)
    ensures i <= |s|
    ensures i < |s| ==> s[i] == c
    ensures forall j :: 0 <= j < i ==> s[j] != c
  {
    if |s| == 0 then 0
    else if s[0] == c then 0
    else 1 + IndexOf(s[1..], c)
  }

  /** Splits `s` at every occurrence of `sep` (recognised by its first character):
      the inverse of `Join(sep, _)` on pieces that do not contain that character. */
  function Split(s: string, sep: string): (parts: seq<string>)
    requires |sep| > 0
    ensures |parts| >= 1
    decreases |s|
  {
    var i := IndexOf(s, sep[0]);
    if i == |s| then [s]
    else if i + |sep| <= |s| then [s[..i]] + Split(s[i + |sep|..], sep)
    else [s[..i]]
  }

  /** Joining and splitting again gives back the pieces. */
  lemma {:induction false} SplitJoin(xs: seq<string>, sep: string)
    requires |sep| > 0 && |xs| >= 1
    requires forall k :: 0 <= k < |xs| ==> sep[0] !in xs[k]
    ensures Split(Join(sep, xs), sep) == xs
  {
    var x := xs[0];
    if |xs| == 1 {
      assert IndexOf(x, sep[0]) == |x|;
    } else {
      var rest := Join(sep, xs[1..]);
      var s := Join(sep, xs);
      assert s == x + sep + rest;
      assert s[|x|] == sep[0];
      var i := IndexOf(s, sep[0]);
      assert i == |x| by {
        assert forall j :: 0 <= j < |x| ==> s[j] == x[j];
      }
      assert s[..i] == x;
      assert s[i + |sep|..] == rest;
      SplitJoin(xs[1..], sep);
    }
  }

  /** `s.TrimStart(c)`: drops every leading `c`. */
  function TrimLeading(s: string, c: char): (r: string)
    ensures |r| <= |s| && r == s[|s| - |r|..]
    ensures r == [] || r[0] != c
    ensures forall k :: 0 <= k < |s| - |r| ==> s[k] == c
  {
    if |s| > 0 && s[0] == c then TrimLeading(s[1..], c) else s
  }

  /** Trimming is idempotent. */
  lemma TrimLeadingIdempotent(s: string, c: char)
    ensures TrimLeading(TrimLeading(s, c), c) == TrimLeading(s, c)
  {
  }

  predicate IsAsciiUpper(c: char)
  {
    'A' <= c <= 'Z'
  }

  /** `char.ToLowerInvariant` restricted to ASCII. */
  function LowerChar(c: char): (d: char)
    ensures !IsAsciiUpper(d)
    ensures !IsAsciiUpper(c) ==> d == c
    ensures IsAsciiUpper(c) ==> d as int - c as int == 32
  {
    if IsAsciiUpper(c) then (c as int + 32) as char else c
  }

  /** `string.ToLowerInvariant` restricted to ASCII. */
  function ToLowerAscii(s: string): (r: string)
    ensures |r| == |s|
    ensures forall k :: 0 <= k < |s| ==> r[k] == LowerChar(s[k])
  {
    if |s| == 0 then "" else [LowerChar(s[0])] + ToLowerAscii(s[1..])
  }

  /** Lower-casing twice is lower-casing once. */
  lemma ToLowerAsciiIdempotent(s: string)
    ensures ToLowerAscii(ToLowerAscii(s)) == ToLowerAscii(s)
  {
  }

  function DigitChar(d: nat): (c: char)
    requires d < 10
    ensures '0' <= c <= '9'
  {
    ('0' as int + d) as char
  }

  predicate IsDigits(s: string)
  {
    forall k :: 0 <= k < |s| ==> '0' <= s[k] <= '9'
  }

  /** Decimal rendering of a natural number, as `$"{i}"` does. */
  function NatToString(n: nat): (s: string)
    ensures |s| >= 1 && IsDigits(s)
  {
    if n < 10 then [DigitChar(n)] else NatToString(n / 10) + [DigitChar(n % 10)]
  }

  /** Reads a decimal numeral back. */
  function ParseNat(s: string): nat
    requires IsDigits(s)
  {
    if |s| == 0 then 0 else ParseNat(s[..|s| - 1]) * 10 + (s[|s| - 1] as int - '0' as int)
  }

  /** Rendering a number and reading it back gives the number. */
  lemma {:induction false} ParseNatToString(n: nat)
    ensures ParseNat(NatToString(n)) == n
  {
    var s := NatToString(n);
    if n >= 10 {
      ParseNatToString(n / 10);
      assert s[..|s| - 1] == NatToString(n / 10);
    }
  }

  /** Rendering is injective: distinct numbers give distinct numerals. */
  lemma NatToStringInjective(m: nat, n: nat)
    requires m != n
    ensures NatToString(m) != NatToString(n)
  {
    ParseNatToString(m);
    ParseNatToString(n);
  }

  predicate NoDup<T(==)>(xs: seq<T>)
  {
    forall i, j :: 0 <= i < j < |xs| ==> xs[i] != xs[j]
  }

  /** LINQ `Distinct`: keeps the first occurrence of every element, in order. */
  function Distinct<T(==,!new)>(xs: seq<T>): (r: seq<T>)
    ensures NoDup(r)
    ensures forall x :: x in r <==> x in xs
    ensures |r| <= |xs|
  {
    if xs == [] then []
    else
      var d := Distinct(xs[..|xs| - 1]);
      var x := xs[|xs| - 1];
      if x in d then d else d + [x]
  }

  /** A sequence without duplicates is left as it is. */
  lemma {:induction false} DistinctOfNoDup<T(!new)>(xs: seq<T>)
    requires NoDup(xs)
    ensures Distinct(xs) == xs
  {
    if xs != [] {
      var init := xs[..|xs| - 1];
      DistinctOfNoDup(init);
      assert xs[|xs| - 1] !in init;
      assert init + [xs[|xs| - 1]] == xs;
    }
  }

  /** First occurrences win: the distinct elements of a prefix come first, in
      the same order, in the distinct elements of the whole. */
  lemma {:induction false} DistinctPrefix<T(!new)>(xs: seq<T>, ys: seq<T>)
    ensures |Distinct(xs)| <= |Distinct(xs + ys)|
    ensures Distinct(xs + ys)[..|Distinct(xs)|] == Distinct(xs)
  {
    if ys != [] {
      var init := ys[..|ys| - 1];
      DistinctPrefix(xs, init);
      assert (xs + ys)[..|xs + ys| - 1] == xs + init;
    } else {
      assert xs + ys == xs;
    }
  }

  /** `xs` without any occurrence of `x`, order kept. */
  function Remove<T(==,!new)>(xs: seq<T>, x: T): (r: seq<T>)
    ensures forall z :: z in r <==> z in xs && z != x
  {
    if xs == [] then []
    else if xs[|xs| - 1] == x then Remove(xs[..|xs| - 1], x)
    else Remove(xs[..|xs| - 1], x) + [xs[|xs| - 1]]
  }

  /** `Distinct` of a duplicate-free list behind a new head `x`: `x` stays in
      front and its later occurrence, if any, is dropped. */
  lemma {:induction false} DistinctFront<T(!new)>(x: T, ys: seq<T>)
    requires NoDup(ys)
    ensures Distinct([x] + ys) == [x] + Remove(ys, x)
  {
    if ys == [] {
      assert Distinct([x]) == Distinct([x][..0]) + [x];
    } else {
      var n := |ys| - 1;
      var y := ys[n];
      var init := ys[..n];
      assert NoDup(init);
      DistinctFront(x, init);
      assert ([x] + ys)[..|[x] + ys| - 1] == [x] + init;
      assert y !in init;
    }
  }

  /** The pieces, one after the other. */
  function Concat(xs: seq<string>): string
  {
    if xs == [] then "" else xs[0] + Concat(xs[1..])
  }

  lemma {:induction false} ConcatAppend(xs: seq<string>, ys: seq<string>)
    ensures Concat(xs + ys) == Concat(xs) + Concat(ys)
  {
    if xs == [] {
      assert xs + ys == ys;
    } else {
      assert (xs + ys)[1..] == xs[1..] + ys;
      ConcatAppend(xs[1..], ys);
    }
  }

  /** A sequence is its prefix followed by the rest. */
  lemma SplitAt<T>(s: seq<T>, n: nat)
    requires n <= |s|
    ensures s[..n] + s[n..] == s
  {
  }

  lemma AppendAssoc<T>(a: seq<T>, b: seq<T>, c: seq<T>)
    ensures a + (b + c) == (a + b) + c
  {
  }

  lemma EmptyAppend<T>(a: seq<T>)
    ensures [] + a == a
  {
  }

  lemma ConcatSingle(x: string)
    ensures Concat([x]) == x
  {
    assert Concat([x]) == x + Concat([]);
  }

  /** `xs.Select(f)`. */
  function MapSeq<A, B>(f: A -> B, xs: seq<A>): (r: seq<B>)
    ensures |r| == |xs|
    ensures forall k :: 0 <= k < |xs| ==> r[k] == f(xs[k])
  {
    if xs == [] then [] else [f(xs[0])] + MapSeq(f, xs[1..])
  }

  lemma MapSeqAppend<A, B>(f: A -> B, xs: seq<A>, ys: seq<A>)
    ensures MapSeq(f, xs + ys) == MapSeq(f, xs) + MapSeq(f, ys)
  {
  }

  /** `AppendLine` with a "\n" line end. */
  function Line(s: string): string
  {
    s + "\n"
  }

  /** One `AppendLine` per element. */
  function Lines(xs: seq<string>): string
  {
    if xs == [] then "" else Lines(xs[..|xs| - 1]) + Line(xs[|xs| - 1])
  }

  lemma LinesStep(xs: seq<string>, i: nat)
    requires i < |xs|
    ensures Lines(xs[..i + 1]) == Lines(xs[..i]) + Line(xs[i])
  {
    assert xs[..i + 1][..i] == xs[..i];
  }

  /** Every element of `xs` prefixed by `prefix` and followed by `suffix`. */
  function Wrap(prefix: string, xs: seq<string>, suffix: string): (r: seq<string>)
    ensures |r| == |xs|
    ensures forall k :: 0 <= k < |xs| ==> r[k] == prefix + xs[k] + suffix
  {
    if xs == [] then [] else [prefix + xs[0] + suffix] + Wrap(prefix, xs[1..], suffix)
  }
}
