/** Order-preserving filtering and searching over sequences. */
module Sequences {

  /** The elements of `s` that `keep` accepts, in their original order. */
  function Filter<T>(s: seq<T>, keep: T -> bool): (r: seq<T>)
    ensures |r| <= |s|
    ensures forall x | x in r :: x in s && keep(x)
  {
    if |s| == 0 then []
    else
      var init := s[..|s| - 1];
      assert s == init + [s[|s| - 1]];
      Filter(init, keep) + (if keep(s[|s| - 1]) then [s[|s| - 1]] else [])
  }

  /** Filtering a non-empty sequence filters all but its last element, then that one. */
  lemma FilterLast<T>(s: seq<T>, keep: T -> bool)
    requires |s| > 0
    ensures Filter(s, keep) == Filter(s[..|s| - 1], keep) + (if keep(s[|s| - 1]) then [s[|s| - 1]] else [])
  {
  }

  /** Filtering distributes over concatenation, which is what keeps the order. */
  lemma {:induction false} FilterAppend<T>(a: seq<T>, b: seq<T>, keep: T -> bool)
    ensures Filter(a + b, keep) == Filter(a, keep) + Filter(b, keep)
    decreases |b|
  {
    hide Filter;
    if |b| == 0 {
      assert a + b == a;
      assert Filter(b, keep) == [];
    } else {
      var init := b[..|b| - 1];
      var x := b[|b| - 1];
      FilterAppend(a, init, keep);
      var ab := a + b;
      assert ab[..|ab| - 1] == a + init;
      assert ab[|ab| - 1] == x;
      var tail := if keep(x) then [x] else [];
      FilterLast(ab, keep);
      FilterLast(b, keep);
      assert Filter(a, keep) + Filter(init, keep) + tail == Filter(a, keep) + (Filter(init, keep) + tail);
    }
  }

  /** A predicate that accepts everything keeps the sequence as it is. */
  lemma {:induction false} FilterKeepsAll<T>(s: seq<T>, keep: T -> bool)
    requires forall x | x in s :: keep(x)
    ensures Filter(s, keep) == s
  {
    if |s| > 0 {
      FilterKeepsAll(s[..|s| - 1], keep);
      assert s == s[..|s| - 1] + [s[|s| - 1]];
    }
  }

  /** Every accepted element of `s` survives the filter. */
  lemma {:induction false} FilterKeepsAccepted<T>(s: seq<T>, keep: T -> bool)
    ensures forall x | x in s && keep(x) :: x in Filter(s, keep)
  {
    if |s| > 0 {
      var init := s[..|s| - 1];
      FilterKeepsAccepted(init, keep);
      assert s == init + [s[|s| - 1]];
      forall x | x in s && keep(x) ensures x in Filter(s, keep) {
        if x != s[|s| - 1] {
          assert x in init;
        }
      }
    }
  }

  /** A predicate that accepts nothing empties the sequence. */
  lemma {:induction false} FilterDropsAll<T>(s: seq<T>, keep: T -> bool)
    requires forall x | x in s :: !keep(x)
    ensures Filter(s, keep) == []
  {
    if |s| > 0 {
      var init := s[..|s| - 1];
      assert forall x | x in init :: x in s;
      FilterDropsAll(init, keep);
    }
  }

  /** Filtering twice with the same predicate changes nothing more. */
  lemma FilterIdempotent<T>(s: seq<T>, keep: T -> bool)
    ensures Filter(Filter(s, keep), keep) == Filter(s, keep)
  {
    FilterKeepsAll(Filter(s, keep), keep);
  }

  /** The loop behind the source's filters: append each accepted element. */
  method KeepMatching<T>(s: seq<T>, keep: T -> bool) returns (kept: seq<T>)
    ensures kept == Filter(s, keep)
  {
    kept := [];
    for i := 0 to |s|
      invariant kept == Filter(s[..i], keep)
    {
      assert s[..i + 1][..i] == s[..i];
      if keep(s[i]) {
        kept := kept + [s[i]];
      }
    }
    assert s[..|s|] == s;
  }

  /** The index of the first `x` in `xs`, or -1 when there is none. */
  function FirstIndex<T(==)>(xs: seq<T>, x: T): (place: int)
    ensures -1 <= place < |xs|
    ensures place == -1 <==> x !in xs
    ensures 0 <= place ==> xs[place] == x && x !in xs[..place]
  {
    if |xs| == 0 then -1
    else if xs[0] == x then 0
    else
      var rest := FirstIndex(xs[1..], x);
      assert xs == [xs[0]] + xs[1..];
      if rest == -1 then -1
      else
        assert xs[..rest + 1] == [xs[0]] + xs[1..][..rest];
        rest + 1
  }

  /** An occurrence with none before it is the first one. */
  lemma FirstIndexAt<T>(xs: seq<T>, x: T, i: int)
    requires 0 <= i < |xs| && xs[i] == x && x !in xs[..i]
    ensures FirstIndex(xs, x) == i
  {
    var place := FirstIndex(xs, x);
    forall j | 0 <= j < i ensures xs[j] != x {
      assert xs[..i][j] == xs[j];
    }
    forall j | 0 <= j < place ensures xs[j] != x {
      assert xs[..place][j] == xs[j];
    }
  }

  /** A loop that stops at the first `x`. */
  method IndexOf<T(==)>(xs: seq<T>, x: T) returns (place: int)
    ensures place == FirstIndex(xs, x)
  {
    place := -1;
    for p := 0 to |xs|
      invariant x !in xs[..p]
    {
      if xs[p] == x {
        place := p;
        return;
      }
      assert xs[..p + 1] == xs[..p] + [xs[p]];
    }
    assert xs[..|xs|] == xs;
  }

  /** A loop that stops as soon as it meets `x`. */
  method Occurs<T(==)>(xs: seq<T>, x: T) returns (found: bool)
    ensures found <==> x in xs
  {
    found := false;
    for i := 0 to |xs|
      invariant x !in xs[..i]
    {
      if xs[i] == x {
        found := true;
        return;
      }
      assert xs[..i + 1] == xs[..i] + [xs[i]];
    }
    assert xs[..|xs|] == xs;
  }
}
