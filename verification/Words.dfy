/** Words over characters: leftmost search, and the replacement of every leftmost,
    non-overlapping occurrence of one word by another.  This is the specification that the
    buffer-level code of `CStrings` is proved against, and the place where the laws of
    replacement (length, exact inverse, freedom from the replaced word) are proved. */
module Words {

  /** The word `p` stands in `s` at position `i`. */
  predicate MatchAt(s: string, p: string, i: nat) {
    i + |p| <= |s| && s[i..i + |p|] == p
  }

  ghost predicate Occurs(s: string, p: string) {
    exists i: nat :: MatchAt(s, p, i)
  }

  /** The position of the first occurrence of `p` in `s` at or after `from`; -1 if there is none. */
  function FindFrom(s: string, p: string, from: nat): (r: int)
    ensures r == -1 || (from <= r && r + |p| <= |s| && s[r..r + |p|] == p)
    decreases |s| - from
  {
    if from + |p| > |s| then -1
    else if MatchAt(s, p, from) then from
    else FindFrom(s, p, from + 1)
  }

  /** The leftmost occurrence of `p` in `s`, or -1. */
  function FirstMatch(s: string, p: string): (r: int)
    ensures r == -1 || (0 <= r && r + |p| <= |s| && s[r..r + |p|] == p)
  {
    FindFrom(s, p, 0)
  }

  lemma {:induction false} FindFromIsLeast(s: string, p: string, from: nat)
    ensures var r := FindFrom(s, p, from);
            forall i: nat :: from <= i && (r < 0 || i < r) ==> !MatchAt(s, p, i)
    decreases |s| - from
  {
    if from + |p| <= |s| && !MatchAt(s, p, from) {
      FindFromIsLeast(s, p, from + 1);
    }
  }

  /** `FirstMatch` finds an occurrence whenever there is one, and the leftmost. */
  lemma {:induction false} FirstMatchIsLeast(s: string, p: string)
    ensures FirstMatch(s, p) == -1 <==> !Occurs(s, p)
    ensures forall i: nat :: MatchAt(s, p, i) ==> 0 <= FirstMatch(s, p) <= i
  {
    FindFromIsLeast(s, p, 0);
    if FirstMatch(s, p) >= 0 {
      assert MatchAt(s, p, FirstMatch(s, p));
    }
  }

  lemma {:induction false} FirstMatchIs(s: string, p: string, k: nat)
    requires MatchAt(s, p, k)
    requires forall i: nat :: i < k ==> !MatchAt(s, p, i)
    ensures FirstMatch(s, p) == k
  {
    FirstMatchIsLeast(s, p);
    assert MatchAt(s, p, FirstMatch(s, p));
  }

  /** How often `a` is found in `s` when the search resumes behind each match. */
  function Count(s: string, a: string): nat
    requires a != []
    decreases |s|
  {
    var k := FirstMatch(s, a);
    if k < 0 then 0 else 1 + Count(s[k + |a|..], a)
  }

  /** `s` with each of those matches of `a` replaced by `b`. */
  function Replace(s: string, a: string, b: string): string
    requires a != []
    decreases |s|
  {
    var k := FirstMatch(s, a);
    if k < 0 then s else s[..k] + b + Replace(s[k + |a|..], a, b)
  }

  /** Without a match nothing is replaced. */
  lemma {:induction false} ReplaceNothing(s: string, a: string, b: string)
    requires a != [] && FirstMatch(s, a) < 0
    ensures Replace(s, a, b) == s
  {
  }

  /** No proper nonempty suffix of `b` is also a prefix of `b`. */
  ghost predicate Unbordered(b: string) {
    b != [] && forall i :: 0 < i < |b| ==> b[i..] != b[..|b| - i]
  }

  /** How many `b`s stand in the pieces of `s` that are left between the matches of `a`. */
  function StrayCount(s: string, a: string, b: string): nat
    requires a != [] && b != []
    decreases |s|
  {
    var k := FirstMatch(s, a);
    if k < 0 then Count(s, b)
    else Count(s[..k], b) + StrayCount(s[k + |a|..], a, b)
  }

  // ---------------------------------------------------------------- length

  lemma {:induction false} ReplaceLength(s: string, a: string, b: string)
    requires a != []
    ensures |Replace(s, a, b)| == |s| + Count(s, a) * (|b| - |a|)
    decreases |s|
  {
    var k := FirstMatch(s, a);
    if k >= 0 {
      var u, tail := s[..k], s[k + |a|..];
      ReplaceLength(tail, a, b);
      assert s == u + a + tail;
      LengthAtMatch(u, a, tail, b, Count(tail, a), Count(s, a));
    }
  }

  lemma {:induction false} LengthAtMatch(u: string, a: string, tail: string, b: string, n: int, m: int)
    requires a != [] && FirstMatch(u + a + tail, a) == |u|
    requires |Replace(tail, a, b)| == |tail| + n * (|b| - |a|) && m == 1 + n
    ensures |Replace(u + a + tail, a, b)| == |u + a + tail| + m * (|b| - |a|)
  {
    ReplaceAtMatch(u, a, tail, b);
    SizesAtMatch(|u|, |a|, |b|, |tail|, n, |Replace(tail, a, b)|);
  }

  lemma {:induction false} SizesAtMatch(u: int, a: int, b: int, tail: int, n: int, r: int)
    requires r == tail + n * (b - a)
    ensures u + b + r == u + a + tail + (1 + n) * (b - a)
  {
    Distribute(1, n, b - a);
  }

  lemma {:induction false} Distribute(m: int, n: int, d: int)
    ensures (m + n) * d == m * d + n * d
  {
  }

  // ------------------------------------------- cutting a text at one block

  /** Two overlapping matches: one word contains the other, or an end of the first
      is a beginning of the second. */
  lemma {:induction false} Overlap(s: string, a: string, i: nat, b: string, j: nat)
    requires MatchAt(s, a, i) && MatchAt(s, b, j)
    requires i <= j < i + |a|
    ensures if j + |b| <= i + |a| then MatchAt(a, b, j - i) else a[j - i..] == b[..i + |a| - j]
  {
    assert forall x :: 0 <= x < |a| ==> a[x] == s[i..i + |a|][x] == s[i + x];
    assert forall x :: 0 <= x < |b| ==> b[x] == s[j..j + |b|][x] == s[j + x];
  }

  /** An occurrence of an unbordered word cannot begin before a block of that word and reach into it. */
  lemma {:induction false} NoOverlap(u: string, b: string, v: string, i: nat)
    requires Unbordered(b)
    requires i < |u| < i + |b|
    ensures !MatchAt(u + b + v, b, i)
  {
    assert MatchAt(u + b + v, b, |u|);
    if MatchAt(u + b + v, b, i) {
      Overlap(u + b + v, b, i, b, |u|);
    }
  }

  /** A match inside the front part of a concatenation is a match of the front part. */
  lemma {:induction false} MatchInFront(u: string, w: string, p: string, i: nat)
    requires i + |p| <= |u|
    ensures MatchAt(u + w, p, i) <==> MatchAt(u, p, i)
  {
    assert (u + w)[i..i + |p|] == u[i..i + |p|];
  }

  lemma {:induction false} MatchInBack(u: string, w: string, p: string, i: nat)
    ensures MatchAt(u + w, p, |u| + i) <==> MatchAt(w, p, i)
  {
    if i + |p| <= |w| {
      assert (u + w)[|u| + i..|u| + i + |p|] == w[i..i + |p|];
    }
  }

  /** With an unbordered pattern, search and replacement treat a block of the pattern
      as a cut: what stands before and behind it is handled on its own. */
  lemma {:induction false} SplitAtBlock(u: string, a: string, v: string, b: string)
    requires Unbordered(a)
    ensures Replace(u + a + v, a, b) == Replace(u, a, b) + b + Replace(v, a, b)
    ensures Count(u + a + v, a) == Count(u, a) + 1 + Count(v, a)
    decreases |u|
  {
    var k := FirstMatch(u, a);
    if k < 0 {
      FirstMatchAtBlock(u, a, v);
      ReplaceAtMatch(u, a, v, b);
    } else {
      var u0, u1 := u[..k], u[k + |a|..];
      assert u == u0 + a + u1;
      assert u + a + v == u + (a + v) == u0 + a + (u1 + a + v);
      FirstMatchInFront(u, a, a + v);
      ReplaceAtMatch(u0, a, u1 + a + v, b);
      ReplaceAtMatch(u0, a, u1, b);
      SplitAtBlock(u1, a, v, b);
      Regroup(u0, b, Replace(u1, a, b), b, Replace(v, a, b));
    }
  }

  lemma {:induction false} Associate(p: string, q: string, r: string, t: string)
    ensures (p + q) + r + t == p + (q + r + t)
    ensures p + q + (r + t) == (p + q + r) + t
  {
  }

  lemma {:induction false} Regroup(p: string, q: string, r: string, t: string, w: string)
    ensures p + q + (r + t + w) == (p + q + r) + t + w
  {
  }

  /** One unfolding of `Replace` and `Count`, at a text given in three parts. */
  lemma {:induction false} ReplaceAtMatch(u: string, a: string, v: string, b: string)
    requires a != []
    requires FirstMatch(u + a + v, a) == |u|
    ensures Replace(u + a + v, a, b) == u + b + Replace(v, a, b)
    ensures Count(u + a + v, a) == 1 + Count(v, a)
  {
    var s := u + a + v;
    assert s[..|u|] == u && s[|u| + |a|..] == v;
  }

  lemma {:induction false} FirstMatchAtBlock(u: string, a: string, v: string)
    requires Unbordered(a)
    requires FirstMatch(u, a) < 0
    ensures FirstMatch(u + a + v, a) == |u|
  {
    FirstMatchIsLeast(u, a);
    var s := u + a + v;
    assert s == u + (a + v);
    MatchInBack(u, a + v, a, 0);
    forall i: nat | i < |u| ensures !MatchAt(s, a, i) {
      if i + |a| <= |u| {
        MatchInFront(u, a + v, a, i);
      } else {
        NoOverlap(u, a, v, i);
      }
    }
    FirstMatchIs(s, a, |u|);
  }

  lemma {:induction false} FirstMatchInFront(u: string, a: string, w: string)
    requires FirstMatch(u, a) >= 0
    ensures FirstMatch(u + w, a) == FirstMatch(u, a)
  {
    FirstMatchIsLeast(u, a);
    var k := FirstMatch(u, a);
    forall i: nat | i <= k ensures MatchAt(u + w, a, i) <==> MatchAt(u, a, i) {
      MatchInFront(u, w, a, i);
    }
    FirstMatchIs(u + w, a, k);
  }

  // ------------------------------------------------------------ inversion

  /** Replacing `a` by `b` and then `b` by `a`. */
  function ThereAndBack(s: string, a: string, b: string): string
    requires a != [] && b != []
  {
    Replace(Replace(s, a, b), b, a)
  }

  /** One unfolding of `ThereAndBack`, at a text given in three parts. */
  lemma {:induction false} ThereAndBackStep(u: string, a: string, v: string, b: string)
    requires a != [] && Unbordered(b)
    requires FirstMatch(u + a + v, a) == |u|
    ensures ThereAndBack(u + a + v, a, b) == Replace(u, b, a) + a + ThereAndBack(v, a, b)
  {
    ReplaceAtMatch(u, a, v, b);
    SplitAtBlock(u, b, Replace(v, a, b), a);
  }

  /** The matches of `b` in the rewritten text: the inserted ones and the stray ones. */
  lemma {:induction false} CountAfterReplace(s: string, a: string, b: string)
    requires a != [] && Unbordered(b)
    ensures Count(Replace(s, a, b), b) == Count(s, a) + StrayCount(s, a, b)
    decreases |s|
  {
    var k := FirstMatch(s, a);
    if k >= 0 {
      var tail := s[k + |a|..];
      assert s == s[..k] + a + tail;
      ReplaceAtMatch(s[..k], a, tail, b);
      SplitAtBlock(s[..k], b, Replace(tail, a, b), a);
      CountAfterReplace(tail, a, b);
    }
  }

  lemma {:induction false} NoStrayInverse(s: string, a: string, b: string)
    requires a != [] && Unbordered(b)
    requires StrayCount(s, a, b) == 0
    ensures ThereAndBack(s, a, b) == s
    decreases |s|
  {
    var k := FirstMatch(s, a);
    if k >= 0 {
      assert s == s[..k] + a + s[k + |a|..];
      ThereAndBackStep(s[..k], a, s[k + |a|..], b);
      NoStrayInverse(s[k + |a|..], a, b);
    }
  }

  /** A replacement that finds its pattern changes the text. */
  lemma {:induction false} ReplaceChanges(s: string, a: string, b: string)
    requires a != [] && a != b && |a| == |b|
    requires Count(s, a) > 0
    ensures Replace(s, a, b) != s
  {
    var k := FirstMatch(s, a);
    assert Replace(s, a, b)[k..k + |b|] == b;
  }

  lemma {:induction false} StrayBreaksEqualLength(s: string, a: string, b: string)
    requires a != [] && Unbordered(b) && a != b && |a| == |b|
    requires StrayCount(s, a, b) > 0
    ensures ThereAndBack(s, a, b) != s
    decreases |s|
  {
    hide FirstMatch, Replace;
    var k := FirstMatch(s, a);
    if k < 0 {
      ReplaceNothing(s, a, b);
      ReplaceChanges(s, b, a);
    } else {
      hide ThereAndBack, Count;
      var u, tail := s[..k], s[k + |a|..];
      assert s == u + a + tail;
      ThereAndBackStep(u, a, tail, b);
      ReplaceLength(u, b, a);
      EqualParts(Replace(u, b, a), ThereAndBack(tail, a, b), u, tail, a);
      if Count(u, b) > 0 {
        ReplaceChanges(u, b, a);
      } else {
        StrayBreaksEqualLength(tail, a, b);
      }
    }
  }

  lemma {:induction false} EqualParts(p: string, q: string, u: string, v: string, a: string)
    requires |p| == |u|
    ensures p + a + q == u + a + v <==> p == u && q == v
  {
    assert (p + a + q)[..|u|] == p && (p + a + q)[|u| + |a|..] == q;
    assert (u + a + v)[..|u|] == u && (u + a + v)[|u| + |a|..] == v;
  }

  lemma {:induction false} ThereAndBackLength(s: string, a: string, b: string)
    requires a != [] && Unbordered(b)
    ensures |ThereAndBack(s, a, b)| == |s| + StrayCount(s, a, b) * (|a| - |b|)
  {
    assert b != [];
    var r, n, m := Replace(s, a, b), Count(s, a), StrayCount(s, a, b);
    assert ThereAndBack(s, a, b) == Replace(r, b, a);
    hide *;
    assert Count(r, b) == n + m by { CountAfterReplace(s, a, b); }
    assert |r| == |s| + n * (|b| - |a|) by { ReplaceLength(s, a, b); }
    assert |ThereAndBack(s, a, b)| == |r| + (n + m) * (|a| - |b|) by { ReplaceLength(r, b, a); }
    AddSizes(|s|, |r|, |ThereAndBack(s, a, b)|, n, m, |a|, |b|);
  }

  lemma {:induction false} AddSizes(s: int, r: int, t: int, n: int, m: int, a: int, b: int)
    requires r == s + n * (b - a) && t == r + (n + m) * (a - b)
    ensures t == s + m * (a - b)
  {
    ThereAndBackSizes(n, m, a, b);
  }

  lemma {:induction false} ThereAndBackSizes(n: int, m: int, x: int, y: int)
    ensures n * (y - x) + (n + m) * (x - y) == m * (x - y)
  {
    Distribute(n, m, x - y);
  }

  /** The exact condition under which replacement is undone by the opposite replacement. */
  lemma {:induction false} InverseIff(s: string, a: string, b: string)
    requires a != [] && Unbordered(b)
    ensures ThereAndBack(s, a, b) == s <==> a == b || StrayCount(s, a, b) == 0
  {
    if StrayCount(s, a, b) == 0 {
      NoStrayInverse(s, a, b);
    } else if a == b {
      ReplaceByItself(s, a);
    } else if |a| == |b| {
      StrayBreaksEqualLength(s, a, b);
    } else {
      ThereAndBackLength(s, a, b);
      NonzeroProduct(StrayCount(s, a, b), |a| - |b|);
    }
  }

  lemma {:induction false} NonzeroProduct(m: int, d: int)
    requires m != 0 && d != 0
    ensures m * d != 0
  {
  }

  lemma {:induction false} ReplaceByItself(s: string, a: string)
    requires a != []
    ensures Replace(s, a, a) == s
    decreases |s|
  {
    var k := FirstMatch(s, a);
    if k >= 0 {
      assert s == s[..k] + a + s[k + |a|..];
      ReplaceAtMatch(s[..k], a, s[k + |a|..], a);
      ReplaceByItself(s[k + |a|..], a);
    }
  }

  /** A text free of `b` has no stray `b`. */
  lemma {:induction false} AbsentNotStray(s: string, a: string, b: string)
    requires a != [] && b != []
    requires !Occurs(s, b)
    ensures StrayCount(s, a, b) == 0
    decreases |s|
  {
    var k := FirstMatch(s, a);
    if k >= 0 {
      var u, tail := s[..k], s[k + |a|..];
      assert s == u + s[k..] && s == s[..k + |a|] + tail;
      forall i: nat ensures !MatchAt(u, b, i) && !MatchAt(tail, b, i) {
        if i + |b| <= |u| { MatchInFront(u, s[k..], b, i); }
        MatchInBack(s[..k + |a|], tail, b, i);
      }
      FirstMatchIsLeast(u, b);
      AbsentNotStray(tail, a, b);
    } else {
      FirstMatchIsLeast(s, b);
    }
  }

  lemma {:induction false} BeforeFirstMatch(s: string, a: string)
    requires a != [] && FirstMatch(s, a) >= 0
    ensures !Occurs(s[..FirstMatch(s, a)], a)
  {
    FirstMatchIsLeast(s, a);
    var k := FirstMatch(s, a);
    var u := s[..k];
    assert s == u + s[k..];
    forall i: nat ensures !MatchAt(u, a, i) {
      if i + |a| <= |u| { MatchInFront(u, s[k..], a, i); }
    }
  }

  /** If `b` contains `a`, no text has a stray `b`. */
  lemma {:induction false} ContainedNotStray(s: string, a: string, b: string)
    requires a != [] && b != []
    requires Occurs(b, a)
    ensures StrayCount(s, a, b) == 0
    decreases |s|
  {
    var k := FirstMatch(s, a);
    if k < 0 {
      FirstMatchIsLeast(s, a);
      FirstMatchIsLeast(s, b);
      ContainsTransitively(s, b, a);
    } else {
      BeforeFirstMatch(s, a);
      ContainsTransitively(s[..k], b, a);
      FirstMatchIsLeast(s[..k], b);
      ContainedNotStray(s[k + |a|..], a, b);
    }
  }

  lemma {:induction false} ContainsTransitively(s: string, b: string, a: string)
    requires Occurs(b, a)
    ensures Occurs(s, b) ==> Occurs(s, a)
  {
    if Occurs(s, b) {
      var i: nat :| MatchAt(s, b, i);
      var j: nat :| MatchAt(b, a, j);
      assert forall x :: 0 <= x < |b| ==> b[x] == s[i..i + |b|][x] == s[i + x];
      assert forall x :: 0 <= x < |a| ==> a[x] == b[j..j + |a|][x] == b[j + x];
      assert MatchAt(s, a, i + j);
    }
  }

  /** The word `b` itself, if it lacks `a`, is turned into `a`. */
  lemma {:induction false} LostWord(a: string, b: string)
    requires a != [] && Unbordered(b) && !Occurs(b, a)
    ensures ThereAndBack(b, a, b) == a && a != b
  {
    assert b != [] && MatchAt(b, b, 0);
    assert ThereAndBack(b, a, b) == Replace(Replace(b, a, b), b, a);
    assert b == "" + b + "";
    FirstMatchIs("" + b + "", b, 0);
    hide *;
    FirstMatchIsLeast(b, a);
    ReplaceNothing(b, a, b);
    ReplaceAtMatch("", b, "", a);
    NothingInNothing(b, a);
  }

  lemma {:induction false} NothingInNothing(b: string, a: string)
    requires b != []
    ensures Replace("", b, a) == ""
  {
  }

  /** Exactly the unbordered words that contain `a` make a code for `a` that is lossless on every text. */
  lemma {:induction false} LosslessIff(a: string, b: string)
    requires a != [] && Unbordered(b)
    ensures (forall s :: ThereAndBack(s, a, b) == s) <==> Occurs(b, a)
  {
    assert b != [];
    hide *;
    if Occurs(b, a) {
      forall s ensures ThereAndBack(s, a, b) == s {
        ContainedNotStray(s, a, b);
        InverseIff(s, a, b);
      }
    } else {
      LostWord(a, b);
    }
  }

  // --------------------------------------- the replaced word is gone

  /** `a` and `b` cannot overlap one another, and neither contains the other. */
  ghost predicate Apart(a: string, b: string) {
    && !Occurs(a, b) && !Occurs(b, a)
    && (forall i :: 0 < i < |a| < i + |b| ==> a[i..] != b[..|a| - i])
    && (forall i :: 0 < i < |b| < i + |a| ==> b[i..] != a[..|b| - i])
  }

  /** A word apart from `b` has no occurrence that reaches into a block of `b`. */
  lemma {:induction false} ApartFromBlock(u: string, b: string, v: string, a: string, i: nat)
    requires Apart(a, b)
    requires |u| < i + |a| && i < |u| + |b|
    ensures !MatchAt(u + b + v, a, i)
  {
    var s := u + b + v;
    assert MatchAt(s, b, |u|);
    if MatchAt(s, a, i) {
      if i < |u| || (i == |u| && |b| < |a|) {
        Overlap(s, a, i, b, |u|);
      } else {
        Overlap(s, b, |u|, a, i);
      }
    }
  }

  lemma {:induction false} GoneAroundBlock(u: string, b: string, v: string, a: string)
    requires Apart(a, b) && !Occurs(u, a) && !Occurs(v, a)
    ensures !Occurs(u + b + v, a)
  {
    assert u + b + v == u + (b + v);
    forall i: nat ensures !MatchAt(u + b + v, a, i) {
      if i + |a| <= |u| {
        MatchInFront(u, b + v, a, i);
      } else if |u| + |b| <= i {
        MatchInBack(u + b, v, a, i - |u + b|);
      } else {
        ApartFromBlock(u, b, v, a, i);
      }
    }
  }

  /** After the replacement of `a` by a word apart from it, no `a` is left. */
  lemma {:induction false} ReplacedIsGone(s: string, a: string, b: string)
    requires a != [] && Apart(a, b)
    ensures !Occurs(Replace(s, a, b), a)
    decreases |s|
  {
    var k := FirstMatch(s, a);
    if k >= 0 {
      BeforeFirstMatch(s, a);
      ReplacedIsGone(s[k + |a|..], a, b);
      GoneAroundBlock(s[..k], b, Replace(s[k + |a|..], a, b), a);
    } else {
      FirstMatchIsLeast(s, a);
    }
  }

  // ------------------------------- text the pattern cannot reach into

  /** Text in front that lacks the first character of the pattern is passed over. */
  lemma {:induction false} FirstMatchBehind(w: string, v: string, a: string)
    requires a != [] && a[0] !in w
    ensures FirstMatch(w + v, a) == if FirstMatch(v, a) < 0 then -1 else |w| + FirstMatch(v, a)
  {
    forall i: nat ensures MatchAt(w + v, a, i) <==> i >= |w| && MatchAt(v, a, i - |w|) {
      if i >= |w| {
        MatchInBack(w, v, a, i - |w|);
      } else if i + |a| <= |w| + |v| {
        assert (w + v)[i..i + |a|][0] == w[i];
      }
    }
    FirstMatchIsLeast(v, a);
    if FirstMatch(v, a) >= 0 {
      MatchInBack(w, v, a, FirstMatch(v, a));
      FirstMatchIs(w + v, a, |w| + FirstMatch(v, a));
    } else {
      FirstMatchIsLeast(w + v, a);
    }
  }

  lemma {:induction false} ReplacePrefix(w: string, v: string, a: string, b: string)
    requires a != [] && a[0] !in w
    ensures Replace(w + v, a, b) == w + Replace(v, a, b)
  {
    FirstMatchBehind(w, v, a);
    var k := FirstMatch(v, a);
    if k >= 0 {
      var v0, v1 := v[..k], v[k + |a|..];
      assert v == v0 + a + v1;
      ReplaceAtMatchBehind(w, v0, a, v1, b);
    }
  }

  lemma {:induction false} ReplaceAtMatchBehind(w: string, u: string, a: string, v: string, b: string)
    requires a != [] && FirstMatch(u + a + v, a) == |u|
    requires FirstMatch(w + (u + a + v), a) == |w + u|
    ensures Replace(w + (u + a + v), a, b) == w + Replace(u + a + v, a, b)
  {
    hide *;
    assert w + (u + a + v) == (w + u) + a + v;
    ReplaceAtMatch(u, a, v, b);
    ReplaceAtMatch(w + u, a, v, b);
    Associate(w, u, b, Replace(v, a, b));
  }

  /** Text behind that lacks the last character of the pattern adds no match. */
  lemma {:induction false} FirstMatchAhead(u: string, w: string, a: string)
    requires a != [] && a[|a| - 1] !in w
    ensures FirstMatch(u + w, a) == FirstMatch(u, a)
  {
    forall i: nat ensures MatchAt(u + w, a, i) <==> MatchAt(u, a, i) {
      if i + |a| <= |u| {
        MatchInFront(u, w, a, i);
      } else if i + |a| <= |u| + |w| {
        assert (u + w)[i..i + |a|][|a| - 1] == w[i + |a| - 1 - |u|];
      }
    }
    FirstMatchIsLeast(u, a);
    if FirstMatch(u, a) >= 0 {
      FirstMatchIs(u + w, a, FirstMatch(u, a));
    } else {
      FirstMatchIsLeast(u + w, a);
    }
  }

  lemma {:induction false} ReplaceSuffix(u: string, w: string, a: string, b: string)
    requires a != [] && a[|a| - 1] !in w
    ensures Replace(u + w, a, b) == Replace(u, a, b) + w
    decreases |u|
  {
    hide FirstMatch, Replace;
    FirstMatchAhead(u, w, a);
    var k := FirstMatch(u, a);
    if k < 0 {
      ReplaceNothing(u, a, b);
      ReplaceNothing(u + w, a, b);
    } else {
      var u0, u1 := u[..k], u[k + |a|..];
      CutAtMatch(u, a, k, w);
      ReplaceSuffix(u1, w, a, b);
      ReplaceSuffixStep(u0, a, u1, w, b);
    }
  }

  /** A text, and a longer one, in the three parts that a match cuts it into. */
  lemma {:induction false} CutAtMatch(u: string, a: string, k: nat, w: string)
    requires MatchAt(u, a, k)
    ensures u == u[..k] + a + u[k + |a|..]
    ensures u + w == u[..k] + a + (u[k + |a|..] + w)
  {
    assert u == u[..k] + u[k..k + |a|] + u[k + |a|..];
    Extend(u[..k], a, u[k + |a|..], w);
  }

  lemma {:induction false} Extend(u: string, a: string, v: string, w: string)
    ensures (u + a + v) + w == u + a + (v + w)
  {
  }

  lemma {:induction false} ReplaceSuffixStep(u: string, a: string, v: string, w: string, b: string)
    requires a != [] && FirstMatch(u + a + v, a) == |u| == FirstMatch(u + a + (v + w), a)
    requires Replace(v + w, a, b) == Replace(v, a, b) + w
    ensures Replace(u + a + (v + w), a, b) == Replace(u + a + v, a, b) + w
  {
    hide *;
    ReplaceAtMatch(u, a, v, b);
    ReplaceAtMatch(u, a, v + w, b);
    Extend(u, b, Replace(v, a, b), w);
  }

  /** A block of an unbordered pattern between texts it cannot reach into. */
  lemma {:induction false} ReplaceMarked(u: string, front: string, a: string, back: string, v: string, b: string)
    requires Unbordered(a) && a[|a| - 1] !in front && a[0] !in back
    ensures Replace(u + (front + a + back) + v, a, b) == Replace(u, a, b) + (front + b + back) + Replace(v, a, b)
  {
    assert a != [];
    hide *;
    MarkedParts(u, front, a, back, v);
    SplitAtBlock(u + front, a, back + v, b);
    ReplaceSuffix(u, front, a, b);
    ReplacePrefix(back, v, a, b);
    MarkedParts(Replace(u, a, b), front, b, back, Replace(v, a, b));
  }

  lemma {:induction false} MarkedParts(u: string, front: string, a: string, back: string, v: string)
    ensures u + (front + a + back) + v == (u + front) + a + (back + v)
  {
  }
}
