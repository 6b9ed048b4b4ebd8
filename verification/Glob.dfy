// The URL filter's pattern matcher (block.c): a greedy matcher that never backtracks over an
// earlier star, proved to decide the declarative meaning of '*' and '?'.

module Glob {

  /** What a pattern means: '*' stands for any run of characters, '?' for any one character. */
  predicate Matches(s: string, p: string)
    decreases |p|, |s|
  {
    if p == [] then s == []
    else if p[0] == '*' then Matches(s, p[1..]) || (s != [] && Matches(s[1..], p))
    else s != [] && CharFits(s[0], p[0]) && Matches(s[1..], p[1..])
  }

  predicate CharFits(c: char, q: char) {
    q == '?' || q == c
  }

  /** The length of the star-free segment at the front of a pattern. */
  function SegmentLength(p: string): (n: nat)
    ensures n <= |p|
    ensures forall k :: 0 <= k < n ==> p[k] != '*'
    ensures n < |p| ==> p[n] == '*'
  {
    if p == [] || p[0] == '*' then 0 else 1 + SegmentLength(p[1..])
  }

  /** The first n characters of the pattern fit the first n characters of the string. */
  ghost predicate Fits(s: string, p: string, n: nat)
    requires n <= |p|
  {
    n <= |s| && forall k :: 0 <= k < n ==> CharFits(s[k], p[k])
  }

  lemma {:induction false} MatchesSegment(s: string, p: string, n: nat)
    requires n <= SegmentLength(p)
    ensures Matches(s, p) <==> Fits(s, p, n) && Matches(s[n..], p[n..])
  {
    if n == 0 {
      assert s[0..] == s && p[0..] == p;
    } else if s != [] {
      MatchesSegment(s[1..], p[1..], n - 1);
      if Fits(s, p, n) {
        assert forall k :: 0 <= k < n - 1 ==> s[1..][k] == s[k + 1] && p[1..][k] == p[k + 1];
        assert s[1..][n - 1..] == s[n..] && p[1..][n - 1..] == p[n..];
        assert Fits(s[1..], p[1..], n - 1);
      }
      if CharFits(s[0], p[0]) && Fits(s[1..], p[1..], n - 1) {
        forall k | 0 <= k < n
          ensures CharFits(s[k], p[k])
        {
          if k > 0 {
            assert CharFits(s[1..][k - 1], p[1..][k - 1]);
          }
        }
        assert s[1..][n - 1..] == s[n..] && p[1..][n - 1..] == p[n..];
      }
    }
  }

  /** A leading star may skip any prefix of the string. */
  lemma {:induction false} StarSkips(s: string, p: string, k: nat)
    requires p != [] && p[0] == '*'
    requires k <= |s| && Matches(s[k..], p[1..])
    ensures Matches(s, p)
  {
    if k == 0 {
      assert s[0..] == s;
    } else {
      assert s[1..][k - 1..] == s[k..];
      StarSkips(s[1..], p, k - 1);
    }
  }

  /** And conversely the rest of the pattern matches after some skipped prefix. */
  lemma {:induction false} StarChoice(s: string, p: string) returns (k: nat)
    requires p != [] && p[0] == '*' && Matches(s, p)
    ensures k <= |s| && Matches(s[k..], p[1..])
  {
    if Matches(s, p[1..]) {
      k := 0;
      assert s[0..] == s;
    } else {
      var k' := StarChoice(s[1..], p);
      k := k' + 1;
      assert s[1..][k'..] == s[k..];
    }
  }

  /** Starting earlier never hurts a pattern that begins with a star. */
  lemma {:induction false} StarAbsorbs(s: string, p: string, a: nat, b: nat)
    requires p != [] && p[0] == '*'
    requires a <= b <= |s| && Matches(s[b..], p)
    ensures Matches(s[a..], p)
  {
    var k := StarChoice(s[b..], p);
    assert s[b..][k..] == s[a..][b - a + k..];
    StarSkips(s[a..], p, b - a + k);
  }

  /** The segment at the front of p fits s at position at. */
  ghost predicate FitsAt(s: string, at: nat, p: string)
    requires at <= |s|
  {
    Fits(s[at..], p, SegmentLength(p))
  }

  /** A match of the whole pattern places the segment somewhere, not before the leftmost place. */
  lemma {:induction false} LeftmostFirst(s: string, p: string, at: nat, n: nat)
    requires p != [] && p[0] == '*' && n == SegmentLength(p[1..]) < |p[1..]|
    requires at + n <= |s| && forall k :: 0 <= k < at ==> !FitsAt(s, k, p[1..])
    requires Matches(s, p)
    ensures Matches(s[at + n..], p[1..][n..])
  {
    var rest := p[1..];
    var k := StarChoice(s, p);
    MatchesSegment(s[k..], rest, n);
    assert FitsAt(s, k, rest);
    assert s[k..][n..] == s[k + n..];
    StarAbsorbs(s, rest[n..], at + n, k + n);
  }

  /** Why greed is safe: the leftmost place where an inner segment fits is as good as any. */
  lemma {:induction false} LeftmostSuffices(s: string, p: string, at: nat)
    requires p != [] && p[0] == '*'
    requires SegmentLength(p[1..]) < |p[1..]|
    requires at <= |s| && FitsAt(s, at, p[1..])
    requires forall k :: 0 <= k < at ==> !FitsAt(s, k, p[1..])
    ensures at + SegmentLength(p[1..]) <= |s|
    ensures Matches(s, p) <==> Matches(s[at + SegmentLength(p[1..])..], p[1..][SegmentLength(p[1..])..])
  {
    var rest := p[1..];
    var n := SegmentLength(rest);
    assert s[at..][n..] == s[at + n..];
    MatchesSegment(s[at..], rest, n);
    if Matches(s, p) {
      LeftmostFirst(s, p, at, n);
    } else if Matches(s[at + n..], rest[n..]) {
      StarSkips(s, p, at);
    }
  }

  /** The last segment has to fit the very end of the string. */
  lemma {:induction false} LastSegment(s: string, p: string)
    requires p != [] && p[0] == '*'
    requires SegmentLength(p[1..]) == |p[1..]|
    ensures Matches(s, p) <==> |p[1..]| <= |s| && FitsAt(s, |s| - |p[1..]|, p[1..])
  {
    var rest := p[1..];
    var n := |rest|;
    if Matches(s, p) {
      var k := StarChoice(s, p);
      MatchesSegment(s[k..], rest, n);
      assert k == |s| - n;
    }
    if n <= |s| && FitsAt(s, |s| - n, rest) {
      MatchesSegment(s[|s| - n..], rest, n);
      assert s[|s| - n..][n..] == [] && rest[n..] == [];
      StarSkips(s, p, |s| - n);
    }
  }

  lemma {:induction false} NoSegmentFits(s: string, p: string)
    requires p != [] && p[0] == '*'
    requires forall k :: 0 <= k <= |s| ==> !FitsAt(s, k, p[1..])
    ensures !Matches(s, p)
  {
    if Matches(s, p) {
      var k := StarChoice(s, p);
      MatchesSegment(s[k..], p[1..], SegmentLength(p[1..]));
      assert FitsAt(s, k, p[1..]);
    }
  }

  // ----- What the recursive meaning amounts to -----

  /**
   * The pattern's characters divide the string: character i of the pattern stands for the piece of the
   * string from cut[i] to cut[i + 1], which may be any for '*', is one character for '?', and the
   * character itself for all others.
   */
  ghost predicate Divides(s: string, p: string, cut: seq<nat>) {
    && |cut| == |p| + 1 && cut[0] == 0 && cut[|p|] == |s|
    && forall i :: 0 <= i < |p| ==> Stands(s, p[i], cut[i], cut[i + 1])
  }

  predicate Stands(s: string, q: char, from: nat, to: nat) {
    from <= to <= |s| && (q == '*' || (to == from + 1 && (q == '?' || s[from] == q)))
  }

  /** A string matches exactly if the pattern divides it somehow. */
  lemma {:induction false} MatchesDivided(s: string, p: string)
    ensures Matches(s, p) <==> exists cut :: Divides(s, p, cut)
  {
    if Matches(s, p) {
      var cut := DivideMatch(s, p);
    }
    forall cut | Divides(s, p, cut)
      ensures Matches(s, p)
    {
      DividedMatches(s, p, cut, 0);
      assert s[0..] == s && p[0..] == p;
    }
  }

  lemma {:induction false} DivideMatch(s: string, p: string) returns (cut: seq<nat>)
    requires Matches(s, p)
    ensures Divides(s, p, cut)
    decreases |p|
  {
    if p == [] {
      cut := [0];
    } else {
      var k := 1;
      if p[0] == '*' {
        k := StarChoice(s, p);
      }
      var rest := DivideMatch(s[k..], p[1..]);
      cut := [0] + seq(|rest|, i requires 0 <= i < |rest| => rest[i] + k);
      forall i | 0 <= i < |p|
        ensures Stands(s, p[i], cut[i], cut[i + 1])
      {
        if i > 0 {
          assert Stands(s[k..], p[1..][i - 1], rest[i - 1], rest[i]);
        }
      }
    }
  }

  lemma {:induction false} DividedMatches(s: string, p: string, cut: seq<nat>, i: nat)
    requires Divides(s, p, cut) && i <= |p|
    ensures cut[i] <= |s| && Matches(s[cut[i]..], p[i..])
    decreases |p| - i
  {
    if i < |p| {
      DividedMatches(s, p, cut, i + 1);
      assert Stands(s, p[i], cut[i], cut[i + 1]);
      assert p[i..][1..] == p[i + 1..] && s[cut[i]..][cut[i + 1] - cut[i]..] == s[cut[i + 1]..];
      if p[i] == '*' {
        StarSkips(s[cut[i]..], p[i..], cut[i + 1] - cut[i]);
      }
    }
  }

  // ----- The matcher -----

  /** Searches s for the leftmost place where the segment at the front of p fits. */
  method FindFirstMatch(s: string, p: string) returns (found: bool, at: nat, i: nat)
    ensures found ==> i == SegmentLength(p) && at <= |s| && FitsAt(s, at, p)
    ensures found ==> forall k :: 0 <= k < at ==> !FitsAt(s, k, p)
    ensures !found ==> forall k :: 0 <= k <= |s| ==> !FitsAt(s, k, p)
  {
    at, i := 0, 0;
    while at + i < |s| && i < |p| && p[i] != '*'
      invariant at + i <= |s| && i <= SegmentLength(p)
      invariant forall k :: 0 <= k < i ==> CharFits(s[at + k], p[k])
      invariant forall k :: 0 <= k < at ==> !FitsAt(s, k, p)
      decreases |s| - at, |p| - i
    {
      if s[at + i] != p[i] && p[i] != '?' {
        assert !FitsAt(s, at, p) by {
          assert s[at..][i] == s[at + i];
        }
        at, i := at + 1, 0;
      } else {
        i := i + 1;
      }
    }
    found := i == |p| || p[i] == '*';
    if found {
      assert forall k :: 0 <= k < i ==> s[at..][k] == s[at + k];
    }
  }

  /** The filter's verdict is exactly the meaning of the pattern. */
  method SimpleGlobMatch(s: string, p: string) returns (r: bool)
    ensures r == Matches(s, p)
  {
    var found: bool, at: nat, i: nat := FindFirstMatch(s, p);
    assert s[0..] == s;
    assert FitsAt(s, 0, p) == Fits(s, p, SegmentLength(p));
    MatchesSegment(s, p, SegmentLength(p));
    if !found || at != 0 {
      return false;
    }
    if i == |p| {
      return i == |s|;
    }
    var rest, pat := s, p;
    while true
      invariant i < |pat| && i <= |rest| && pat[i] == '*'
      invariant Matches(s, p) == Matches(rest[i..], pat[i..])
      decreases |pat|
    {
      rest, pat := rest[i..], pat[i..];
      ghost var star := pat;
      pat := pat[1..];
      found, at, i := FindFirstMatch(rest, pat);
      if !found {
        NoSegmentFits(rest, star);
        return false;
      }
      if i == |pat| {
        LastSegment(rest, star);
        var tail := rest[|rest| - i..];
        assert |tail| == i;
        found, at, i := FindFirstMatch(tail, pat);
        assert tail[0..] == tail;
        assert FitsAt(tail, 0, pat) == FitsAt(rest, |rest| - |pat|, pat);
        return found;
      }
      LeftmostSuffices(rest, star, at);
      ghost var whole := rest;
      rest := rest[at..];
      assert rest[i..] == whole[at + i..];
    }
  }

  /** A URL is blocked when some pattern of the block list matches it. */
  method IsUrlBlocked(url: string, blocks: seq<string>) returns (r: bool)
    ensures r <==> exists b :: b in blocks && Matches(url, b)
  {
    for n := 0 to |blocks|
      invariant forall k :: 0 <= k < n ==> !Matches(url, blocks[k])
    {
      var hit := SimpleGlobMatch(url, blocks[n]);
      if hit {
        assert blocks[n] in blocks;
        return true;
      }
    }
    return false;
  }
}
