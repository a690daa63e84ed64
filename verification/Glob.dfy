/**
 The CLI's glob matcher (`GlobMatch`, src/Cli.cpp): `?` matches any one byte, `*` any run.
 The loop backtracks to the last star only.
 */
module Glob {
  import opened Machine
  import RegisterName

  const STAR: byte := 0x2A
  const ANY: byte := 0x3F

  /** The declarative relation. */
  predicate Matches(pat: Bytes, str: Bytes)
    decreases |pat| + |str|
  {
    if pat == [] then str == []
    else if pat[0] == STAR then
      Matches(pat[1..], str) || (str != [] && Matches(pat, str[1..]))
    else
      str != [] && (pat[0] == ANY || pat[0] == str[0]) && Matches(pat[1..], str[1..])
  }

  /** A star matches some run. */
  lemma {:induction false} StarMatches(pat: Bytes, str: Bytes)
    ensures Matches([STAR] + pat, str) <==> exists k: nat :: k <= |str| && Matches(pat, str[k..])
  {
    var p := [STAR] + pat;
    assert p[1..] == pat;
    if Matches(pat, str) {
      assert str[0..] == str;
    }
    if str != [] {
      StarMatches(pat, str[1..]);
      if Matches(p, str[1..]) {
        var k: nat :| k <= |str[1..]| && Matches(pat, str[1..][k..]);
        assert str[1..][k..] == str[k + 1..];
      }
      if exists k: nat :: k <= |str| && Matches(pat, str[k..]) {
        var k: nat :| k <= |str| && Matches(pat, str[k..]);
        if k == 0 {
          assert str[0..] == str;
        } else {
          assert str[1..][k - 1..] == str[k..];
        }
      }
    } else {
      assert forall k: nat | k <= |str| :: str[k..] == [];
    }
  }

  /** A star-free segment matches byte for byte. */
  predicate SegmentMatches(seg: Bytes, str: Bytes)
    requires |seg| == |str|
  {
    forall i | 0 <= i < |seg| :: seg[i] != STAR && (seg[i] == ANY || seg[i] == str[i])
  }

  ghost predicate StarFree(seg: Bytes) {
    STAR !in seg
  }

  lemma {:induction false} SegmentThenRest(seg: Bytes, rest: Bytes, str: Bytes)
    requires StarFree(seg)
    ensures Matches(seg + rest, str)
       <==> |seg| <= |str| && SegmentMatches(seg, str[..|seg|]) && Matches(rest, str[|seg|..])
  {
    if seg == [] {
      assert seg + rest == rest && str[0..] == str;
    } else {
      assert seg[0] != STAR;
      assert (seg + rest)[1..] == seg[1..] + rest;
      assert forall x | x in seg[1..] :: x in seg;
      if str != [] {
        SegmentThenRest(seg[1..], rest, str[1..]);
        if |seg| <= |str| {
          assert str[1..][..|seg| - 1] == str[..|seg|][1..];
          assert str[1..][|seg| - 1..] == str[|seg|..];
          SegmentCons(seg, str[..|seg|]);
        }
      }
    }
  }

  lemma SegmentCons(seg: Bytes, str: Bytes)
    requires |seg| == |str| > 0
    ensures SegmentMatches(seg, str)
       <==> seg[0] != STAR && (seg[0] == ANY || seg[0] == str[0]) && SegmentMatches(seg[1..], str[1..])
  {}

  /** What the loop knows at pattern position p and string position s with the last star at `star`. */
  ghost predicate Attempt(pat: Bytes, str: Bytes, p: nat, s: nat, star: nat, ss: nat)
  {
    && star < p <= |pat| && ss <= s <= |str| && pat[star] == STAR
    && s - ss == p - (star + 1)
    && StarFree(pat[star + 1..p])
    && SegmentMatches(pat[star + 1..p], str[ss..s])
    && (Matches(pat, str) <==> exists k: nat :: ss <= k <= |str| && Matches(pat[star + 1..], str[k..]))
  }

  /** The run after the last star may be taken to start where the current attempt does. */
  lemma AttemptTail(pat: Bytes, str: Bytes, p: nat, s: nat, star: nat, ss: nat)
    requires Attempt(pat, str, p, s, star, ss)
    ensures Matches(pat[star + 1..], str[ss..]) <==> Matches(pat[p..], str[s..])
  {
    var seg := pat[star + 1..p];
    assert pat[star + 1..] == seg + pat[p..];
    SegmentThenRest(seg, pat[p..], str[ss..]);
    assert str[ss..][..|seg|] == str[ss..s];
    assert str[ss..][|seg|..] == str[s..];
  }

  /** Meeting a new star discards the old one safely: any later placement works from here too. */
  lemma NewStar(pat: Bytes, str: Bytes, p: nat, s: nat, star: nat, ss: nat)
    requires Attempt(pat, str, p, s, star, ss)
    requires p < |pat| && pat[p] == STAR
    ensures Attempt(pat, str, p + 1, s, p, s)
  {
    var seg := pat[star + 1..p];
    assert pat[p..] == [STAR] + pat[p + 1..];
    assert pat[star + 1..] == seg + pat[p..];
    AttemptTail(pat, str, p, s, star, ss);
    StarMatches(pat[p + 1..], str[s..]);
    if exists k: nat :: ss <= k <= |str| && Matches(pat[star + 1..], str[k..]) {
      var k: nat :| ss <= k <= |str| && Matches(pat[star + 1..], str[k..]);
      SegmentThenRest(seg, pat[p..], str[k..]);
      var j := k + |seg|;
      assert str[k..][|seg|..] == str[j..];
      StarMatches(pat[p + 1..], str[j..]);
      var i: nat :| i <= |str[j..]| && Matches(pat[p + 1..], str[j..][i..]);
      assert str[j..][i..] == str[j + i..];
      assert s <= j + i <= |str|;
    }
    if exists k: nat :: s <= k <= |str| && Matches(pat[p + 1..], str[k..]) {
      var k: nat :| s <= k <= |str| && Matches(pat[p + 1..], str[k..]);
      assert str[s..][k - s..] == str[k..];
      assert Matches(pat[star + 1..], str[ss..]);
    }
    assert pat[p + 1..p + 1] == [];
  }

  /** The first star: everything before it matched one for one. */
  lemma FirstStar(pat: Bytes, str: Bytes, p: nat, s: nat)
    requires p < |pat| && s <= |str| && pat[p] == STAR
    requires Matches(pat, str) == Matches(pat[p..], str[s..])
    ensures Attempt(pat, str, p + 1, s, p, s)
  {
    assert pat[p..] == [STAR] + pat[p + 1..];
    StarMatches(pat[p + 1..], str[s..]);
    forall k: nat | s <= k <= |str| ensures str[s..][k - s..] == str[k..] {}
    forall k: nat | k <= |str[s..]| ensures str[s..][k..] == str[s + k..] {}
    assert pat[p + 1..p + 1] == [];
    if Matches(pat[p..], str[s..]) {
      var k: nat :| k <= |str[s..]| && Matches(pat[p + 1..], str[s..][k..]);
      assert s <= s + k <= |str| && Matches(pat[p + 1..], str[s + k..]);
    }
    if exists k: nat :: s <= k <= |str| && Matches(pat[p + 1..], str[k..]) {
      var k: nat :| s <= k <= |str| && Matches(pat[p + 1..], str[k..]);
      assert Matches(pat[p + 1..], str[s..][k - s..]);
    }
  }

  /** A mismatch rules out the current start, so the star takes one more byte. */
  lemma Backtrack(pat: Bytes, str: Bytes, p: nat, s: nat, star: nat, ss: nat)
    requires Attempt(pat, str, p, s, star, ss)
    requires s < |str| && !Matches(pat[p..], str[s..])
    ensures Attempt(pat, str, star + 1, ss + 1, star, ss + 1)
  {
    AttemptTail(pat, str, p, s, star, ss);
    assert pat[star + 1..star + 1] == [];
    assert forall k: nat | ss <= k <= |str| && Matches(pat[star + 1..], str[k..]) :: k != ss;
  }

  lemma MatchesStep(pat: Bytes, str: Bytes, p: nat, s: nat)
    requires p <= |pat| && s < |str|
    requires p == |pat| || pat[p] != STAR
    ensures Matches(pat[p..], str[s..])
       <==> p < |pat| && (pat[p] == ANY || pat[p] == str[s]) && Matches(pat[p + 1..], str[s + 1..])
  {}

  lemma AdvanceAttempt(pat: Bytes, str: Bytes, p: nat, s: nat, star: nat, ss: nat)
    requires Attempt(pat, str, p, s, star, ss)
    requires p < |pat| && s < |str| && pat[p] != STAR && (pat[p] == ANY || pat[p] == str[s])
    ensures Attempt(pat, str, p + 1, s + 1, star, ss)
  {
    assert pat[star + 1..p + 1] == pat[star + 1..p] + [pat[p]];
    assert str[ss..s + 1] == str[ss..s] + [str[s]];
  }

  /** Trailing stars match the empty rest. */
  lemma {:induction false} MatchesEmpty(pat: Bytes)
    ensures Matches(pat, []) <==> forall i | 0 <= i < |pat| :: pat[i] == STAR
  {
    if pat != [] {
      MatchesEmpty(pat[1..]);
      if forall i | 0 <= i < |pat[1..]| :: pat[1..][i] == STAR {
        assert forall i | 1 <= i < |pat| :: pat[i] == pat[1..][i - 1];
      }
    }
  }

  /** The loop of the program; `star` is -1 where the program has `npos`. */
  method GlobMatch(pat: Bytes, str: Bytes) returns (matched: bool)
    ensures matched == Run(pat, str, 0, 0, -1, 0)
    ensures STAR !in str ==> matched == Matches(pat, str)
  {
    var p, s, star, ss := 0, 0, -1, 0;
    if STAR !in str {
      ExactlyStarFreeStrings(str);
    }
    while s < |str|
      invariant p <= |pat| && s <= |str| && -1 <= star < p && 0 <= ss <= s
      invariant star >= 0 ==> pat[star] == STAR
      invariant Run(pat, str, p, s, star, ss) == Run(pat, str, 0, 0, -1, 0)
      decreases |pat| - star, |str| - ss, |str| - s
    {
      if p < |pat| && (pat[p] == ANY || pat[p] == str[s]) {
        p, s := p + 1, s + 1;
      } else if p < |pat| && pat[p] == STAR {
        star, p, ss := p, p + 1, s;
      } else if star != -1 {
        p, ss := star + 1, ss + 1;
        s := ss;
      } else {
        return false;
      }
    }
    ghost var p0 := p;
    while p < |pat| && pat[p] == STAR
      invariant p0 <= p <= |pat|
      invariant forall i | p0 <= i < p :: pat[i] == STAR
    {
      p := p + 1;
    }
    matched := p == |pat|;
  }

  /** At the end of the string the attempt in hand is the only one left with enough string. */
  lemma NoLaterStart(pat: Bytes, str: Bytes, p: nat, s: nat, star: nat, ss: nat)
    requires Attempt(pat, str, p, s, star, ss) && s == |str|
    ensures Matches(pat, str) <==> Matches(pat[p..], [])
  {
    AttemptTail(pat, str, p, s, star, ss);
    assert str[s..] == [];
    var seg := pat[star + 1..p];
    assert pat[star + 1..] == seg + pat[p..];
    forall k: nat | ss < k <= |str| ensures !Matches(pat[star + 1..], str[k..]) {
      SegmentThenRest(seg, pat[p..], str[k..]);
    }
  }

  /** The loop as a function of its variables. */
  predicate Run(pat: Bytes, str: Bytes, p: nat, s: nat, star: int, ss: nat)
    requires p <= |pat| && s <= |str| && -1 <= star < p && ss <= s
    requires star >= 0 ==> pat[star] == STAR
    decreases |pat| - star, |str| - ss, |str| - s
  {
    if s == |str| then forall i | p <= i < |pat| :: pat[i] == STAR
    else if p < |pat| && (pat[p] == ANY || pat[p] == str[s]) then Run(pat, str, p + 1, s + 1, star, ss)
    else if p < |pat| && pat[p] == STAR then Run(pat, str, p + 1, s, p, s)
    else if star != -1 then Run(pat, str, star + 1, ss + 1, star, ss + 1)
    else false
  }

  // ---- Exactly which strings are matched correctly ----

  ghost function Repeat(b: byte, n: nat): Bytes {
    seq(n, _ => b)
  }

  /** A string holding a `*` defeats the matcher: some pattern the relation accepts is refused. */
  lemma StarInStringFails(str: Bytes, i: nat) returns (pat: Bytes)
    requires i < |str| && str[i] == STAR && STAR !in str[..i]
    ensures Matches(pat, str) && !Run(pat, str, 0, 0, -1, 0)
  {
    var n := |str|;
    pat := Repeat(ANY, i) + [STAR] + Repeat(ANY, n - i);
    var seg := Repeat(ANY, i);
    var tail := Repeat(ANY, n - i);
    assert pat == seg + ([STAR] + tail);
    SegmentThenRest(seg, [STAR] + tail, str);
    assert SegmentMatches(seg, str[..i]);
    assert tail == tail + [];
    SegmentThenRest(tail, [], str[i..]);
    assert SegmentMatches(tail, str[i..][..n - i]);
    assert Matches(tail, str[i..]);
    assert str[i..][0..] == str[i..];
    StarMatches(tail, str[i..]);
    WalksThrough(pat, str, i, 0);
  }

  /** On that pattern the star is consumed as a literal, so no backtracking point is ever set. */
  lemma {:induction false} WalksThrough(pat: Bytes, str: Bytes, i: nat, s: nat)
    requires i < |str| && str[i] == STAR && s <= |str|
    requires pat == Repeat(ANY, i) + [STAR] + Repeat(ANY, |str| - i)
    ensures !Run(pat, str, s, s, -1, 0)
    decreases |str| - s
  {
    if s == |str| {
      assert pat[s] == ANY;
    } else {
      assert pat[s] == if s == i then STAR else ANY;
      WalksThrough(pat, str, i, s + 1);
    }
  }

  /** The matcher agrees with the relation on every pattern exactly for the strings without a `*`. */
  lemma ExactlyStarFreeStrings(str: Bytes)
    ensures (forall pat :: Run(pat, str, 0, 0, -1, 0) == Matches(pat, str)) <==> STAR !in str
  {
    if STAR in str {
      var i := FirstStarIn(str);
      var pat := StarInStringFails(str, i);
    } else {
      forall pat ensures Run(pat, str, 0, 0, -1, 0) == Matches(pat, str) {
        RunCorrect(pat, str, 0, 0, -1, 0);
        assert pat[0..] == pat && str[0..] == str;
      }
    }
  }

  lemma FirstStarIn(str: Bytes) returns (i: nat)
    requires STAR in str
    ensures i < |str| && str[i] == STAR && STAR !in str[..i]
  {
    i := 0;
    while str[i] != STAR
      invariant i < |str| && STAR !in str[..i] && STAR in str[i..]
      decreases |str| - i
    {
      assert str[i..] == [str[i]] + str[i + 1..];
      assert str[..i + 1] == str[..i] + [str[i]];
      i := i + 1;
    }
  }

  lemma {:induction false} RunCorrect(pat: Bytes, str: Bytes, p: nat, s: nat, star: int, ss: nat)
    requires STAR !in str
    requires p <= |pat| && s <= |str| && -1 <= star < p && ss <= s
    requires star >= 0 ==> Attempt(pat, str, p, s, star, ss)
    requires star == -1 ==> Matches(pat, str) == Matches(pat[p..], str[s..])
    ensures Run(pat, str, p, s, star, ss) == Matches(pat, str)
    decreases |pat| - star, |str| - ss, |str| - s
  {
    if s == |str| {
      assert str[s..] == [];
      MatchesEmpty(pat[p..]);
      assert forall i | p <= i < |pat| :: pat[i] == pat[p..][i - p];
      assert forall i | 0 <= i < |pat[p..]| :: pat[p..][i] == pat[p + i];
      if star >= 0 {
        NoLaterStart(pat, str, p, s, star, ss);
      }
    } else if p < |pat| && pat[p] == STAR {
      assert str[s] in str;
      if star >= 0 {
        NewStar(pat, str, p, s, star, ss);
      } else {
        FirstStar(pat, str, p, s);
      }
      RunCorrect(pat, str, p + 1, s, p, s);
    } else {
      MatchesStep(pat, str, p, s);
      if p < |pat| && (pat[p] == ANY || pat[p] == str[s]) {
        if star >= 0 {
          AdvanceAttempt(pat, str, p, s, star, ss);
        }
        RunCorrect(pat, str, p + 1, s + 1, star, ss);
      } else if star != -1 {
        Backtrack(pat, str, p, s, star, ss);
        RunCorrect(pat, str, star + 1, ss + 1, star, ss + 1);
      }
    }
  }

  /** Register names hold no `*`, so `clipp ls <glob>` selects exactly the matching ones. */
  lemma RegisterNamesMatchExactly(pat: Bytes, name: Bytes)
    requires RegisterName.IsValid(name)
    ensures Run(pat, name, 0, 0, -1, 0) == Matches(pat, name)
  {
    RegisterName.ValidHasNoStar(name);
    ExactlyStarFreeStrings(name);
  }
}
