/**
 * The operations of Go's `strings` and `fmt` packages that the bindings use,
 * over `string` read as a sequence of bytes.
 */
module Text {

  /** `p` occurs in `s` starting at index `i`. */
  predicate OccursAt(s: string, p: string, i: int)
  {
    0 <= i && i + |p| <= |s| && s[i..i + |p|] == p
  }

  /** strings.Contains: the empty pattern is in every text, a longer one in none. */
  predicate Contains(s: string, p: string)
    ensures |p| == 0 ==> Contains(s, p)
    ensures |p| > |s| ==> !Contains(s, p)
  {
    assert |p| == 0 ==> OccursAt(s, p, 0);
    exists i | 0 <= i <= |s| - |p| :: OccursAt(s, p, i)
  }

  /** An occurrence in the tail of a text is an occurrence in the text, one place later. */
  lemma ContainsTail(s: string, p: string)
    requires |s| > 0 && Contains(s[1..], p)
    ensures Contains(s, p)
  {
    var i :| 0 <= i <= |s| - 1 - |p| && OccursAt(s[1..], p, i);
    assert s[1..][i..i + |p|] == s[i + 1..i + 1 + |p|];
    assert OccursAt(s, p, i + 1);
  }

  /** Dropping the first character keeps every occurrence that does not start there. */
  lemma ContainsDropFirst(s: string, p: string)
    ensures Contains(s, p) && !OccursAt(s, p, 0) ==> |s| > 0 && Contains(s[1..], p)
  {
    if Contains(s, p) && !OccursAt(s, p, 0) {
      var i :| 0 <= i <= |s| - |p| && OccursAt(s, p, i);
      OccursInWindow(s, 1, s[1..], p, i - 1);
    }
  }

  /** An occurrence, character by character. */
  lemma OccursPointwise(s: string, m: string, i: int)
    requires 0 <= i && i + |m| <= |s|
    ensures OccursAt(s, m, i) <==> forall j | 0 <= j < |m| :: s[i + j] == m[j]
  {
    if forall j | 0 <= j < |m| :: s[i + j] == m[j] {
      assert forall j | 0 <= j < |m| :: s[i..i + |m|][j] == m[j];
    }
  }

  /** Occurrences inside a window `t == s[d..d + |t|]` are occurrences in `s`, shifted by `d`. */
  lemma OccursInWindow(s: string, d: int, t: string, m: string, i: int)
    requires 0 <= d && d + |t| <= |s| && t == s[d..d + |t|]
    requires 0 <= i && i + |m| <= |t|
    ensures OccursAt(s, m, d + i) <==> OccursAt(t, m, i)
  {
    OccursPointwise(s, m, d + i);
    OccursPointwise(t, m, i);
    assert forall k | 0 <= k < |t| :: t[k] == s[d + k];
  }

  /** Every character of an occurrence is a character of the pattern. */
  lemma OccurrenceChars(s: string, m: string, i: int)
    requires OccursAt(s, m, i)
    ensures forall j | i <= j < i + |m| :: s[j] in m
  {
    OccursPointwise(s, m, i);
    forall j | i <= j < i + |m| ensures s[j] in m {
      assert s[i + (j - i)] == m[j - i];
    }
  }

  lemma ContainsSingle(s: string, c: char)
    ensures Contains(s, [c]) <==> c in s
  {
    if c in s {
      var i :| 0 <= i < |s| && s[i] == c;
      OccursPointwise(s, [c], i);
    }
    if Contains(s, [c]) {
      var i :| 0 <= i <= |s| - 1 && OccursAt(s, [c], i);
      OccursPointwise(s, [c], i);
      assert s[i] == c;
    }
  }

  /** No character of `sep` is a character of `m`. */
  predicate Apart(sep: string, m: string)
  {
    forall j | 0 <= j < |sep| :: sep[j] !in m
  }

  /** A text contains whatever a window of it contains. */
  lemma ContainsInWindow(s: string, d: int, t: string, m: string)
    requires 0 <= d && d + |t| <= |s| && t == s[d..d + |t|]
    ensures Contains(t, m) ==> Contains(s, m)
  {
    if Contains(t, m) {
      var i :| 0 <= i <= |t| - |m| && OccursAt(t, m, i);
      OccursInWindow(s, d, t, m, i);
      assert OccursAt(s, m, d + i);
    }
  }

  /** Position `i` of `a + sep + b` starts no `m` when neither side holds one. */
  lemma MissesAround(a: string, sep: string, b: string, m: string, i: int)
    requires |m| > 0 && |sep| > 0 && Apart(sep, m)
    requires 0 <= i <= |a + sep + b| - |m|
    ensures !Contains(a, m) && !Contains(b, m) ==> !OccursAt(a + sep + b, m, i)
  {
    var s := a + sep + b;
    if i + |m| <= |a| {
      assert a == s[0..|a|];
      OccursInWindow(s, 0, a, m, i);
    } else if i >= |a| + |sep| {
      assert b == s[|a| + |sep|..|a| + |sep| + |b|];
      OccursInWindow(s, |a| + |sep|, b, m, i - |a| - |sep|);
    } else {
      // The occurrence would cover a character of the separator.
      var q := if i < |a| then |a| else i;
      OccursPointwise(s, m, i);
      assert s[i + (q - i)] == sep[q - |a|] && m[q - i] in m;
    }
  }

  /** An occurrence of `m` cannot run across a separator none of whose characters `m` has. */
  lemma ContainsAround(a: string, sep: string, b: string, m: string)
    requires |m| > 0 && |sep| > 0 && Apart(sep, m)
    ensures Contains(a + sep + b, m) <==> Contains(a, m) || Contains(b, m)
  {
    var s := a + sep + b;
    assert a == s[0..|a|];
    assert b == s[|a| + |sep|..|a| + |sep| + |b|];
    ContainsInWindow(s, 0, a, m);
    ContainsInWindow(s, |a| + |sep|, b, m);
    if !Contains(a, m) && !Contains(b, m) {
      forall i | 0 <= i <= |s| - |m| ensures !OccursAt(s, m, i) {
        MissesAround(a, sep, b, m, i);
      }
    }
  }

  /**
   * An occurrence of `m` cannot reach into a margin made only of a character
   * `m` does not have: `s` contains `m` iff the window `s[lo..hi]` does.
   */
  lemma ContainsWindow(s: string, lo: int, hi: int, c: char, m: string)
    requires 0 <= lo <= hi <= |s|
    requires |m| > 0 && c !in m
    requires forall k | 0 <= k < lo :: s[k] == c
    requires forall k | hi <= k < |s| :: s[k] == c
    ensures Contains(s, m) <==> Contains(s[lo..hi], m)
  {
    var t := s[lo..hi];
    if Contains(s, m) {
      var i :| 0 <= i <= |s| - |m| && OccursAt(s, m, i);
      OccurrenceChars(s, m, i);
      assert s[i] in m && s[i + |m| - 1] in m;
      assert lo <= i && i + |m| <= hi;
      OccursInWindow(s, lo, t, m, i - lo);
      assert OccursAt(t, m, i - lo);
    }
    if Contains(t, m) {
      var i :| 0 <= i <= |t| - |m| && OccursAt(t, m, i);
      OccursInWindow(s, lo, t, m, i);
      assert OccursAt(s, m, lo + i);
    }
  }

  /** Pieces free of a one-character separator are free of that character. */
  lemma PartsWithoutChar(parts: seq<string>, c: char)
    requires forall k | 0 <= k < |parts| :: !Contains(parts[k], [c])
    ensures forall k | 0 <= k < |parts| :: c !in parts[k]
  {
    forall k | 0 <= k < |parts| ensures c !in parts[k] {
      ContainsSingle(parts[k], c);
    }
  }

  /** strings.Join: the first part opens the result. */
  function Join(parts: seq<string>, sep: string): (r: string)
    ensures |parts| >= 1 ==> |r| >= |parts[0]| && r[..|parts[0]|] == parts[0]
  {
    if |parts| == 0 then ""
    else if |parts| == 1 then parts[0]
    else parts[0] + sep + Join(parts[1..], sep)
  }

  /** A single part joins to itself. */
  lemma JoinOne(part: string, sep: string)
    ensures Join([part], sep) == part
  {
  }

  /** Two or more parts join as the first, the separator, and the join of the rest. */
  lemma JoinCons(parts: seq<string>, sep: string)
    requires |parts| >= 2
    ensures Join(parts, sep) == parts[0] + sep + Join(parts[1..], sep)
  {
  }

  /** A marker with no character of the separator is in the joined text iff it is in some part. */
  lemma {:induction false} ContainsJoin(parts: seq<string>, sep: string, m: string)
    requires |m| > 0 && |sep| > 0 && Apart(sep, m)
    ensures Contains(Join(parts, sep), m) <==> exists k | 0 <= k < |parts| :: Contains(parts[k], m)
  {
    if |parts| >= 2 {
      ContainsJoin(parts[1..], sep, m);
      ContainsAround(parts[0], sep, Join(parts[1..], sep), m);
      if exists k | 0 <= k < |parts| :: Contains(parts[k], m) {
        var k :| 0 <= k < |parts| && Contains(parts[k], m);
        if k > 0 {
          assert parts[1..][k - 1] == parts[k];
        }
      }
      if exists k | 0 <= k < |parts| - 1 :: Contains(parts[1..][k], m) {
        var k :| 0 <= k < |parts| - 1 && Contains(parts[1..][k], m);
        assert Contains(parts[k + 1], m);
      }
    }
  }

  /**
   * strings.Split for a non-empty separator: the pieces of `s` around each
   * non-overlapping occurrence of `sep`, found from left to right.
   */
  function Split(s: string, sep: string): (parts: seq<string>)
    requires |sep| > 0
    ensures |parts| >= 1
    ensures |parts[0]| <= |s| && parts[0] == s[..|parts[0]|]
    decreases |s|
  {
    if |s| < |sep| then [s]
    else if s[..|sep|] == sep then [""] + Split(s[|sep|..], sep)
    else
      var rest := Split(s[1..], sep);
      [[s[0]] + rest[0]] + rest[1..]
  }

  /** A text shorter than the separator is one piece. */
  lemma SplitShort(s: string, sep: string)
    requires |s| < |sep|
    ensures Split(s, sep) == [s]
  {
  }

  /** One step of splitting: a leading separator closes an empty piece. */
  lemma SplitStepAt(s: string, sep: string)
    requires |sep| > 0 && |s| >= |sep| && s[..|sep|] == sep
    ensures Split(s, sep) == [""] + Split(s[|sep|..], sep)
  {
  }

  /** One step of splitting: any other leading character joins the first piece. */
  lemma SplitStepOther(s: string, sep: string)
    requires |sep| > 0 && |s| >= |sep| && s[..|sep|] != sep
    ensures var rest := Split(s[1..], sep);
            Split(s, sep) == [[s[0]] + rest[0]] + rest[1..]
  {
  }

  /** Splitting at a one-character separator cuts a text at each occurrence of it. */
  lemma {:induction false} SplitAtChar(x: string, c: char, y: string)
    ensures Split(x + [c] + y, [c]) == Split(x, [c]) + Split(y, [c])
    decreases |x|
  {
    hide Split;
    var s := x + [c] + y;
    var sy := Split(y, [c]);
    if |x| == 0 {
      assert s[..1] == [c] && s[1..] == y;
      SplitStepAt(s, [c]);
      SplitShort("", [c]);
    } else {
      assert s[0] == x[0] && s[1..] == x[1..] + [c] + y;
      SplitAtChar(x[1..], c, y);
      var r := Split(x[1..], [c]);
      if x[0] == c {
        assert s[..1] == [c] && x[..1] == [c];
        SplitStepAt(s, [c]);
        SplitStepAt(x, [c]);
        assert [""] + (r + sy) == ([""] + r) + sy;
      } else {
        assert s[..1] != [c] && x[..1] != [c];
        SplitStepOther(s, [c]);
        SplitStepOther(x, [c]);
        assert (r + sy)[0] == r[0] && (r + sy)[1..] == r[1..] + sy;
      }
    }
  }

  /** A text without the separator character is one piece. */
  lemma {:induction false} SplitWithoutChar(x: string, c: char)
    requires c !in x
    ensures Split(x, [c]) == [x]
    decreases |x|
  {
    if |x| > 0 {
      assert x[0] in x;
      assert x[..1][0] == x[0];
      assert x[..1] != [c];
      assert c !in x[1..];
      SplitWithoutChar(x[1..], c);
      assert [x[0]] + x[1..] == x;
    }
  }

  /** Joining pieces free of a one-character separator and splitting again gives the pieces back. */
  lemma {:induction false} SplitJoin(parts: seq<string>, c: char)
    requires |parts| >= 1
    requires forall k | 0 <= k < |parts| :: c !in parts[k]
    ensures Split(Join(parts, [c]), [c]) == parts
    decreases |parts|
  {
    SplitWithoutChar(parts[0], c);
    if |parts| >= 2 {
      SplitJoin(parts[1..], c);
      SplitAtChar(parts[0], c, Join(parts[1..], [c]));
      assert Join(parts, [c]) == parts[0] + [c] + Join(parts[1..], [c]);
      assert [parts[0]] + parts[1..] == parts;
    }
  }

  /** A character is in the joined text iff it is in a piece, or two pieces met at a separator holding it. */
  lemma {:induction false} CharInJoin(parts: seq<string>, sep: string, c: char)
    ensures c in Join(parts, sep) <==> (|parts| >= 2 && c in sep) || exists k | 0 <= k < |parts| :: c in parts[k]
    decreases |parts|
  {
    if |parts| >= 2 {
      CharInJoin(parts[1..], sep, c);
      var rest := Join(parts[1..], sep);
      assert Join(parts, sep) == parts[0] + sep + rest;
      assert c in parts[0] + sep + rest <==> c in parts[0] || c in sep || c in rest;
      if exists k | 0 <= k < |parts| - 1 :: c in parts[1..][k] {
        var k :| 0 <= k < |parts| - 1 && c in parts[1..][k];
        assert parts[1..][k] == parts[k + 1];
      }
      if exists k | 1 <= k < |parts| :: c in parts[k] {
        var k :| 1 <= k < |parts| && c in parts[k];
        assert parts[1..][k - 1] == parts[k];
      }
    }
  }

  /** Splitting loses nothing: joining the pieces back gives the text. */
  lemma {:induction false} JoinSplit(s: string, sep: string)
    requires |sep| > 0
    ensures Join(Split(s, sep), sep) == s
    decreases |s|
  {
    hide Split, Join;
    if |s| < |sep| {
      SplitShort(s, sep);
      JoinOne(s, sep);
    } else if s[..|sep|] == sep {
      JoinSplit(s[|sep|..], sep);
      var rest := Split(s[|sep|..], sep);
      SplitStepAt(s, sep);
      JoinCons([""] + rest, sep);
      assert ([""] + rest)[1..] == rest;
      assert s == sep + s[|sep|..];
    } else {
      JoinSplit(s[1..], sep);
      var rest := Split(s[1..], sep);
      SplitStepOther(s, sep);
      var parts := [[s[0]] + rest[0]] + rest[1..];
      if |rest| == 1 {
        assert parts == [[s[0]] + rest[0]] && rest == [rest[0]];
        JoinOne(rest[0], sep);
        JoinOne([s[0]] + rest[0], sep);
        assert Join(parts, sep) == [s[0]] + s[1..];
      } else {
        JoinCons(rest, sep);
        JoinCons(parts, sep);
        assert parts[1..] == rest[1..];
        assert Join(parts, sep) == [s[0]] + (rest[0] + sep + Join(rest[1..], sep));
      }
      assert s == [s[0]] + s[1..];
    }
  }

  /** No piece of a split contains the separator. */
  lemma {:induction false} SplitPartsFree(s: string, sep: string)
    requires |sep| > 0
    ensures forall k | 0 <= k < |Split(s, sep)| :: !Contains(Split(s, sep)[k], sep)
    decreases |s|
  {
    var parts := Split(s, sep);
    if |s| < |sep| {
      assert !Contains(s, sep);
    } else if s[..|sep|] == sep {
      SplitPartsFree(s[|sep|..], sep);
      assert !Contains("", sep);
      forall k | 0 <= k < |parts| ensures !Contains(parts[k], sep) {
        if k > 0 {
          assert parts[k] == Split(s[|sep|..], sep)[k - 1];
        }
      }
    } else {
      SplitPartsFree(s[1..], sep);
      var rest := Split(s[1..], sep);
      var first := [s[0]] + rest[0];
      forall i | 0 <= i <= |first| - |sep| ensures !OccursAt(first, sep, i) {
        if i == 0 {
          assert first[..|sep|] == s[..|sep|];
        } else {
          assert first[i..i + |sep|] == rest[0][i - 1..i - 1 + |sep|];
          assert !OccursAt(rest[0], sep, i - 1);
        }
      }
      forall k | 0 <= k < |parts| ensures !Contains(parts[k], sep) {
        if k > 0 {
          assert parts[k] == rest[k];
        }
      }
    }
  }

  /** strings.TrimLeft with a one-character cutset. */
  function TrimLeft(s: string, c: char): (r: string)
    ensures |r| <= |s| && r == s[|s| - |r|..]
    ensures forall k | 0 <= k < |s| - |r| :: s[k] == c
    ensures |r| > 0 ==> r[0] != c
  {
    if |s| > 0 && s[0] == c then TrimLeft(s[1..], c) else s
  }

  /** strings.TrimRight with a one-character cutset. */
  function TrimRight(s: string, c: char): (r: string)
    ensures |r| <= |s| && r == s[..|r|]
    ensures forall k | |r| <= k < |s| :: s[k] == c
    ensures |r| > 0 ==> r[|r| - 1] != c
  {
    if |s| > 0 && s[|s| - 1] == c then TrimRight(s[..|s| - 1], c) else s
  }

  /**
   * strings.Trim with a one-character cutset: every leading and trailing `c`
   * removed, so the result is empty exactly when `s` is made only of `c`.
   */
  function Trim(s: string, c: char): (r: string)
    ensures |r| <= |s|
    ensures |r| > 0 ==> r[0] != c && r[|r| - 1] != c
    ensures |r| == 0 <==> forall k | 0 <= k < |s| :: s[k] == c
  {
    TrimRight(TrimLeft(s, c), c)
  }

  /** Trimming removes only the cut character, so a marker without it is found the same. */
  lemma ContainsTrim(s: string, c: char, m: string)
    requires |m| > 0 && c !in m
    ensures Contains(Trim(s, c), m) <==> Contains(s, m)
  {
    var l := TrimLeft(s, c);
    var t := TrimRight(l, c);
    var lo := |s| - |l|;
    var hi := lo + |t|;
    forall k | hi <= k < |s| ensures s[k] == c {
      assert s[k] == l[k - lo];
    }
    assert t == s[lo..hi];
    ContainsWindow(s, lo, hi, c, m);
  }

  /**
   * strings.ReplaceAll for a non-empty pattern: non-overlapping occurrences,
   * left to right. A text without the pattern comes back unchanged.
   */
  function ReplaceAll(s: string, p: string, r: string): (t: string)
    requires |p| > 0
    ensures !Contains(s, p) ==> t == s
    decreases |s|
  {
    if |s| < |p| then s
    else if s[..|p|] == p then
      assert OccursAt(s, p, 0);
      r + ReplaceAll(s[|p|..], p, r)
    else
      assert Contains(s[1..], p) ==> Contains(s, p) by {
        if Contains(s[1..], p) { ContainsTail(s, p); }
      }
      [s[0]] + ReplaceAll(s[1..], p, r)
  }

  /** One step of replacing: a leading occurrence is replaced and skipped. */
  lemma ReplaceAllStepAt(s: string, p: string, r: string)
    requires |p| > 0 && |s| >= |p| && s[..|p|] == p
    ensures ReplaceAll(s, p, r) == r + ReplaceAll(s[|p|..], p, r)
  {
  }

  /** One step of replacing: any other leading character is kept. */
  lemma ReplaceAllStepOther(s: string, p: string, r: string)
    requires |p| > 0 && |s| >= |p| && s[..|p|] != p
    ensures ReplaceAll(s, p, r) == [s[0]] + ReplaceAll(s[1..], p, r)
  {
  }

  /**
   * The first occurrence is replaced and the scan resumes after it: when
   * `a` followed by all but the last character of `p` holds no occurrence,
   * the first occurrence in `a + p + b` is the `p` after `a`.
   */
  lemma {:induction false} ReplaceAllAtFirst(a: string, p: string, r: string, b: string)
    requires |p| > 0 && !Contains(a + p[..|p| - 1], p)
    ensures ReplaceAll(a + (p + b), p, r) == a + (r + ReplaceAll(b, p, r))
    decreases |a|
  {
    hide ReplaceAll;
    var s := a + (p + b);
    var a' := a + p[..|p| - 1];
    if |a| == 0 {
      assert s == p + b;
      assert s[..|p|] == p && s[|p|..] == b;
      ReplaceAllStepAt(s, p, r);
      assert a + (r + ReplaceAll(b, p, r)) == r + ReplaceAll(b, p, r);
    } else {
      assert s[..|p|] == a'[..|p|];
      assert !OccursAt(a', p, 0);
      assert a' == [a[0]] + (a[1..] + p[..|p| - 1]);
      if Contains(a[1..] + p[..|p| - 1], p) {
        ContainsTail(a', p);
      }
      assert s[1..] == a[1..] + (p + b);
      ReplaceAllStepOther(s, p, r);
      ReplaceAllAtFirst(a[1..], p, r, b);
      assert [a[0]] + (a[1..] + (r + ReplaceAll(b, p, r))) == a + (r + ReplaceAll(b, p, r));
    }
  }

  /**
   * Four occurrences of a pattern whose first character does not come back
   * later in it, in a text that otherwise holds none, are exactly what
   * ReplaceAll replaces.
   */
  lemma ReplaceAllSlots(f0: string, f1: string, f2: string, f3: string, f4: string, p: string, r: string)
    requires |p| > 0 && p[0] !in p[1..]
    requires !Contains(f0, p) && !Contains(f1, p) && !Contains(f2, p) && !Contains(f3, p) && !Contains(f4, p)
    ensures ReplaceAll(f0 + (p + (f1 + (p + (f2 + (p + (f3 + (p + f4))))))), p, r)
            == f0 + (r + (f1 + (r + (f2 + (r + (f3 + (r + f4)))))))
  {
    NoStraddle(f0, p);
    NoStraddle(f1, p);
    NoStraddle(f2, p);
    NoStraddle(f3, p);
    hide ReplaceAll;
    ReplaceAllAtFirst(f3, p, r, f4);
    ReplaceAllAtFirst(f2, p, r, f3 + (p + f4));
    ReplaceAllAtFirst(f1, p, r, f2 + (p + (f3 + (p + f4))));
    ReplaceAllAtFirst(f0, p, r, f1 + (p + (f2 + (p + (f3 + (p + f4))))));
  }

  /**
   * For a pattern whose first character does not come back later in it, an
   * occurrence cannot start in `a` and run past its end into `p`.
   */
  lemma NoStraddle(a: string, p: string)
    requires |p| > 0 && p[0] !in p[1..] && !Contains(a, p)
    ensures !Contains(a + p[..|p| - 1], p)
  {
    var a' := a + p[..|p| - 1];
    forall i | 0 <= i <= |a'| - |p| ensures !OccursAt(a', p, i) {
      if i + |p| <= |a| {
        assert a == a'[0..|a|];
        OccursInWindow(a', 0, a, p, i);
      } else {
        OccursPointwise(a', p, i);
        var j := |a| - i;
        assert 0 < j < |p|;
        assert a'[i + j] == p[0];
        assert p[j] == p[1..][j - 1];
      }
    }
  }

  /** A prefix of the replaced text is a prefix of the original unless a replacement started in it. */
  lemma {:induction false} ReplaceAllPrefix(t: string, p: string, r: string, k: nat)
    requires |p| > 0 && |r| > 0
    requires k <= |ReplaceAll(t, p, r)|
    ensures (k <= |t| && ReplaceAll(t, p, r)[..k] == t[..k]) || r[0] in ReplaceAll(t, p, r)[..k]
    decreases |t|
  {
    var x := ReplaceAll(t, p, r);
    if |t| < |p| || k == 0 {
    } else if t[..|p|] == p {
      assert x[..k][0] == r[0];
    } else {
      var y := ReplaceAll(t[1..], p, r);
      ReplaceAllPrefix(t[1..], p, r, k - 1);
      assert x[..k] == [t[0]] + y[..k - 1];
      if k - 1 <= |t[1..]| && y[..k - 1] == t[1..][..k - 1] {
        assert t[..k] == [t[0]] + t[1..][..k - 1];
      } else {
        assert r[0] in y[..k - 1];
      }
    }
  }

  /** The conditions under which a replacement text cannot take part in an occurrence of `p`. */
  predicate Inert(p: string, r: string)
  {
    |p| > 0 && |r| > 0 && p[0] !in r && forall i | 1 <= i < |p| :: p[i] != r[0]
  }

  /** An occurrence right after a replacement would have to start inside it. */
  lemma ClearsAfterReplacement(y: string, p: string, r: string)
    requires Inert(p, r) && !Contains(y, p)
    ensures !Contains(r + y, p)
  {
    var x := r + y;
    assert y == x[|r|..|r| + |y|];
    forall i | 0 <= i <= |x| - |p| ensures !OccursAt(x, p, i) {
      if i < |r| {
        assert x[i] == r[i] && r[i] in r;
        OccursPointwise(x, p, i);
        assert x[i + 0] != p[0];
      } else {
        OccursInWindow(x, |r|, y, p, i - |r|);
        assert !OccursAt(y, p, i - |r|);
      }
    }
  }

  /** An occurrence at the head of a kept character would have been replaced instead. */
  lemma ClearsAfterKept(s: string, p: string, r: string)
    requires Inert(p, r) && |s| >= |p| && s[..|p|] != p
    requires !Contains(ReplaceAll(s[1..], p, r), p)
    ensures !Contains([s[0]] + ReplaceAll(s[1..], p, r), p)
  {
    hide ReplaceAll;
    var y := ReplaceAll(s[1..], p, r);
    var x := [s[0]] + y;
    var k := |p| - 1;
    assert y == x[1..1 + |y|];
    forall i | 0 <= i <= |x| - |p| ensures !OccursAt(x, p, i) {
      if i == 0 {
        ReplaceAllPrefix(s[1..], p, r, k);
        OccursPointwise(x, p, 0);
        OccursPointwise(s, p, 0);
        assert s[0..|p|] == s[..|p|];
        if k <= |s[1..]| && y[..k] == s[1..][..k] {
          var j :| 0 <= j < |p| && s[j] != p[j];
          if j == 0 {
            assert x[0 + j] == s[j];
          } else {
            assert y[..k][j - 1] == s[1..][..k][j - 1];
            assert x[0 + j] == s[j];
          }
        } else {
          var j :| 0 <= j < k && y[..k][j] == r[0];
          assert x[0 + (j + 1)] == r[0];
          assert p[j + 1] != r[0];
        }
      } else {
        OccursInWindow(x, 1, y, p, i - 1);
        assert !OccursAt(y, p, i - 1);
      }
    }
  }

  /**
   * When the replacement cannot begin or continue an occurrence of the pattern,
   * no occurrence survives a ReplaceAll.
   */
  lemma {:induction false} ReplaceAllClears(s: string, p: string, r: string)
    requires Inert(p, r)
    ensures !Contains(ReplaceAll(s, p, r), p)
    decreases |s|
  {
    if |s| < |p| {
    } else if s[..|p|] == p {
      ReplaceAllClears(s[|p|..], p, r);
      ClearsAfterReplacement(ReplaceAll(s[|p|..], p, r), p, r);
    } else {
      ReplaceAllClears(s[1..], p, r);
      ClearsAfterKept(s, p, r);
    }
  }

  /** If the pattern occurs, its replacement appears in the result. */
  lemma {:induction false} ReplaceAllInserts(s: string, p: string, r: string)
    requires |p| > 0 && Contains(s, p)
    ensures Contains(ReplaceAll(s, p, r), r)
    decreases |s|
  {
    hide ReplaceAll;
    var x := ReplaceAll(s, p, r);
    var i :| 0 <= i <= |s| - |p| && OccursAt(s, p, i);
    if s[..|p|] == p {
      ReplaceAllStepAt(s, p, r);
      assert x[..|r|] == r;
      assert OccursAt(x, r, 0);
    } else {
      assert i > 0;
      assert s[1..][i - 1..i - 1 + |p|] == s[i..i + |p|];
      assert OccursAt(s[1..], p, i - 1);
      ReplaceAllStepOther(s, p, r);
      ReplaceAllInserts(s[1..], p, r);
      var y := ReplaceAll(s[1..], p, r);
      var j :| 0 <= j <= |y| - |r| && OccursAt(y, r, j);
      assert x[j + 1..j + 1 + |r|] == y[j..j + |r|];
      assert OccursAt(x, r, j + 1);
    }
  }

  /** The decimal digits of a natural number, most significant first. */
  function Digits(n: nat): (s: string)
    ensures |s| > 0
    ensures forall k | 0 <= k < |s| :: '0' <= s[k] <= '9'
  {
    if n < 10 then [('0' as int + n) as char]
    else Digits(n / 10) + [('0' as int + n % 10) as char]
  }

  /** fmt.Sprint of an int: a minus sign exactly for a negative number, then decimal digits. */
  function Decimal(n: int): (r: string)
    ensures |r| > 0
    ensures r[0] == '-' <==> n < 0
    ensures forall k | 0 < k < |r| :: '0' <= r[k] <= '9'
  {
    if n < 0 then "-" + Digits(-n) else Digits(n)
  }

  /** The value of a string of decimal digits. */
  function DigitsValue(s: string): nat
    requires forall k | 0 <= k < |s| :: '0' <= s[k] <= '9'
  {
    if |s| == 0 then 0
    else DigitsValue(s[..|s| - 1]) * 10 + (s[|s| - 1] as int - '0' as int)
  }

  /** Reads back what Decimal writes. */
  function ParseDecimal(s: string): int
    requires |s| > 0
    requires forall k | 0 < k < |s| :: '0' <= s[k] <= '9'
    requires s[0] == '-' || '0' <= s[0] <= '9'
  {
    if s[0] == '-' then -(DigitsValue(s[1..]) as int) else DigitsValue(s)
  }

  lemma {:induction false} DigitsRoundTrip(n: nat)
    ensures DigitsValue(Digits(n)) == n
  {
    if n >= 10 {
      DigitsRoundTrip(n / 10);
      var d := Digits(n);
      assert d[..|d| - 1] == Digits(n / 10);
    }
  }

  /** The text fmt.Sprint gives an int reads back as that int. */
  lemma DecimalRoundTrip(n: int)
    ensures |Decimal(n)| > 0
    ensures forall k | 0 < k < |Decimal(n)| :: '0' <= Decimal(n)[k] <= '9'
    ensures Decimal(n)[0] == '-' <==> n < 0
    ensures ParseDecimal(Decimal(n)) == n
  {
    var d := Decimal(n);
    if n < 0 {
      var g := Digits(-n);
      DigitsRoundTrip(-n);
      assert d == "-" + g;
      assert d[1..] == g;
      assert forall k | 0 < k < |d| :: d[k] == g[k - 1];
    } else {
      assert d == Digits(n);
      DigitsRoundTrip(n);
    }
  }
}
