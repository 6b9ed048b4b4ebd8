// What a cached document holds (cache.c): a list of byte fragments, each with spare capacity, read
// as a partial map from offset to byte.

module Fragments {
  import opened Basics
  /** One fragment: `data` are its live bytes, `capacity` the bytes its buffer has room for. */
  datatype Fragment = Fragment(offset: int, data: seq<Byte>, capacity: nat) {
    function End(): int {
      offset + |data|
    }

    function At(k: int): Option<Byte> {
      if offset <= k < End() then Some(data[k - offset]) else None
    }

    predicate Sound() {
      0 <= offset && |data| <= capacity
    }
  }

  /** Sorted, pairwise disjoint, each inside its buffer. */
  ghost predicate WellFormed(fs: seq<Fragment>) {
    && (forall i :: 0 <= i < |fs| ==> fs[i].Sound())
    && (forall i, j :: 0 <= i < j < |fs| ==> fs[i].End() <= fs[j].offset)
  }

  /** Every fragment ends by b. */
  ghost predicate EndsBy(fs: seq<Fragment>, b: int) {
    forall i :: 0 <= i < |fs| ==> fs[i].End() <= b
  }

  /** The byte stored at offset k; where fragments overlap the earlier one wins. */
  function At(fs: seq<Fragment>, k: int): Option<Byte> {
    if fs == [] then None
    else if fs[0].At(k).Some? then fs[0].At(k)
    else At(fs[1..], k)
  }

  function SumLengths(fs: seq<Fragment>): nat {
    if fs == [] then 0 else |fs[0].data| + SumLengths(fs[1..])
  }

  lemma {:induction false} AtConcat(a: seq<Fragment>, b: seq<Fragment>, k: int)
    ensures At(a + b, k) == if At(a, k).Some? then At(a, k) else At(b, k)
  {
    if a == [] {
      assert a + b == b;
    } else {
      AtConcat(a[1..], b, k);
      assert (a + b)[1..] == a[1..] + b;
    }
  }

  lemma {:induction false} LengthsConcat(a: seq<Fragment>, b: seq<Fragment>)
    ensures SumLengths(a + b) == SumLengths(a) + SumLengths(b)
  {
    if a == [] {
      assert a + b == b;
    } else {
      LengthsConcat(a[1..], b);
      assert (a + b)[1..] == a[1..] + b;
    }
  }

  /** Nothing is stored below the first fragment or past the last one's end. */
  lemma {:induction false} AtOutside(fs: seq<Fragment>, k: int)
    requires forall i :: 0 <= i < |fs| ==> k < fs[i].offset || fs[i].End() <= k
    ensures At(fs, k) == None
  {
    if fs != [] {
      AtOutside(fs[1..], k);
    }
  }

  lemma {:induction false} LengthsMiddle(pre: seq<Fragment>, f: Fragment, post: seq<Fragment>)
    ensures SumLengths(pre + [f] + post) == SumLengths(pre) + |f.data| + SumLengths(post)
  {
    LengthsConcat(pre + [f], post);
    LengthsConcat(pre, [f]);
    assert [f][1..] == [];
  }

  function Insert(fs: seq<Fragment>, i: nat, f: Fragment): (gs: seq<Fragment>)
    requires i <= |fs|
    ensures |gs| == |fs| + 1
    ensures forall k :: 0 <= k < |gs| ==> gs[k] == if k < i then fs[k] else if k == i then f else fs[k - 1]
  {
    fs[..i] + [f] + fs[i..]
  }

  function Remove(fs: seq<Fragment>, i: nat): (gs: seq<Fragment>)
    requires i < |fs|
    ensures |gs| == |fs| - 1
    ensures forall k :: 0 <= k < |gs| ==> gs[k] == if k < i then fs[k] else fs[k + 1]
  {
    fs[..i] + fs[i + 1..]
  }

  lemma {:induction false} LengthsUpdate(fs: seq<Fragment>, i: nat, g: Fragment)
    requires i < |fs|
    ensures SumLengths(fs[i := g]) == SumLengths(fs) - |fs[i].data| + |g.data|
  {
    assert fs == fs[..i] + [fs[i]] + fs[i + 1..];
    assert fs[i := g] == fs[..i] + [g] + fs[i + 1..];
    LengthsMiddle(fs[..i], fs[i], fs[i + 1..]);
    LengthsMiddle(fs[..i], g, fs[i + 1..]);
  }

  lemma {:induction false} LengthsInsert(fs: seq<Fragment>, i: nat, f: Fragment)
    requires i <= |fs|
    ensures SumLengths(Insert(fs, i, f)) == SumLengths(fs) + |f.data|
  {
    assert fs == fs[..i] + fs[i..];
    LengthsMiddle(fs[..i], f, fs[i..]);
    LengthsConcat(fs[..i], fs[i..]);
  }

  lemma {:induction false} LengthsRemove(fs: seq<Fragment>, i: nat)
    requires i < |fs|
    ensures SumLengths(Remove(fs, i)) == SumLengths(fs) - |fs[i].data|
  {
    assert fs == fs[..i] + [fs[i]] + fs[i + 1..];
    LengthsMiddle(fs[..i], fs[i], fs[i + 1..]);
    LengthsConcat(fs[..i], fs[i + 1..]);
  }

  lemma WellFormedAppend(a: seq<Fragment>, f: Fragment)
    ensures WellFormed(a + [f]) <==> WellFormed(a) && f.Sound() && forall i :: 0 <= i < |a| ==> a[i].End() <= f.offset
  {
    var s := a + [f];
    assert s[|a|] == f;
    assert forall i :: 0 <= i < |a| ==> s[i] == a[i];
    if WellFormed(a) && f.Sound() && forall i :: 0 <= i < |a| ==> a[i].End() <= f.offset {
      assert forall i :: 0 <= i < |s| ==> s[i] == if i < |a| then a[i] else f;
    }
  }

  lemma {:induction false} AtThree(pre: seq<Fragment>, f: Fragment, post: seq<Fragment>, k: int)
    ensures At(pre + [f] + post, k) ==
            if At(pre, k).Some? then At(pre, k) else if f.At(k).Some? then f.At(k) else At(post, k)
  {
    AtConcat(pre + [f], post, k);
    AtConcat(pre, [f], k);
    assert At([f], k) == f.At(k);
  }

  lemma SliceOfSlice<T>(s: seq<T>, a: nat, b: nat, c: nat, d: nat)
    requires a <= b <= |s| && c <= d <= b - a
    ensures s[a..b][c..d] == s[a + c..a + d]
  {
    var x, y := s[a..b][c..d], s[a + c..a + d];
    assert forall i :: 0 <= i < d - c ==> x[i] == y[i];
  }

  // ----- What storing a block of bytes means -----

  /** The byte `was` overridden by `data` placed at `offset`. */
  function Over(was: Option<Byte>, offset: int, data: seq<Byte>, k: int): Option<Byte> {
    if offset <= k < offset + |data| then Some(data[k - offset]) else was
  }

  /** Some byte already stored in the range of the new data differs from it. */
  ghost predicate Conflict(fs: seq<Fragment>, offset: int, data: seq<Byte>) {
    exists k :: ConflictAt(fs, offset, data, k)
  }

  ghost predicate ConflictAt(fs: seq<Fragment>, offset: int, data: seq<Byte>, k: int) {
    offset <= k < offset + |data| && At(fs, k).Some? && At(fs, k).value != data[k - offset]
  }

  lemma ConflictConcat(a: seq<Fragment>, b: seq<Fragment>, offset: int, data: seq<Byte>)
    requires WellFormed(a + b)
    ensures Conflict(a + b, offset, data) <==> Conflict(a, offset, data) || Conflict(b, offset, data)
  {
    if Conflict(a + b, offset, data) {
      var k :| ConflictAt(a + b, offset, data, k);
      AtConcat(a, b, k);
      assert ConflictAt(a, offset, data, k) || ConflictAt(b, offset, data, k);
    }
    if Conflict(a, offset, data) {
      var k :| ConflictAt(a, offset, data, k);
      AtConcat(a, b, k);
      assert ConflictAt(a + b, offset, data, k);
    }
    if Conflict(b, offset, data) {
      var k :| ConflictAt(b, offset, data, k);
      NotBoth(a, b, k);
      AtConcat(a, b, k);
      assert ConflictAt(a + b, offset, data, k);
    }
  }

  lemma {:induction false} AtSome(fs: seq<Fragment>, k: int) returns (i: nat)
    requires At(fs, k).Some?
    ensures i < |fs| && fs[i].offset <= k < fs[i].End()
  {
    if fs[0].At(k).Some? {
      i := 0;
    } else {
      i := AtSome(fs[1..], k);
      i := i + 1;
    }
  }

  lemma {:induction false} NotBoth(a: seq<Fragment>, b: seq<Fragment>, k: int)
    requires WellFormed(a + b) && At(b, k).Some?
    ensures At(a, k) == None
  {
    var j := AtSome(b, k);
    assert (a + b)[|a| + j] == b[j];
    forall i | 0 <= i < |a|
      ensures a[i].End() <= k
    {
      assert (a + b)[i] == a[i];
    }
    AtOutside(a, k);
  }

  lemma ConflictNone(fs: seq<Fragment>, offset: int, data: seq<Byte>)
    requires forall i :: 0 <= i < |fs| ==> fs[i].End() <= offset || offset + |data| <= fs[i].offset
    ensures !Conflict(fs, offset, data)
  {
    if Conflict(fs, offset, data) {
      var k :| ConflictAt(fs, offset, data, k);
      AtOutside(fs, k);
    }
  }

  /** Comparing the overlap of one fragment, its bytes a..b, with the new data is what memcmp decides. */
  lemma ConflictOne(f: Fragment, offset: int, data: seq<Byte>, a: nat, b: nat, c: nat, d: nat)
    requires a <= b <= |f.data| && c <= d <= |data| && b - a == d - c
    requires f.offset + a == offset + c && (a == 0 || c == 0) && (b == |f.data| || d == |data|)
    ensures Conflict([f], offset, data) <==> f.data[a..b] != data[c..d]
  {
    var x, y := f.data[a..b], data[c..d];
    assert forall k :: At([f], k) == f.At(k);
    if Conflict([f], offset, data) {
      var k :| ConflictAt([f], offset, data, k);
      var i := k - f.offset - a;
      assert x[i] == f.data[a + i] && y[i] == data[c + i];
    }
    if x != y {
      var i :| 0 <= i < b - a && x[i] != y[i];
      assert ConflictAt([f], offset, data, offset + c + i);
    }
  }

  lemma WellFormedParts(a: seq<Fragment>, b: seq<Fragment>)
    requires WellFormed(a + b)
    ensures WellFormed(a) && WellFormed(b)
    ensures forall i, j :: 0 <= i < |a| && 0 <= j < |b| ==> a[i].End() <= b[j].offset
  {
    var s := a + b;
    assert forall i :: 0 <= i < |a| ==> s[i] == a[i];
    assert forall j :: 0 <= j < |b| ==> s[|a| + j] == b[j];
  }

  lemma WellFormedJoin(a: seq<Fragment>, b: seq<Fragment>)
    requires WellFormed(a) && WellFormed(b)
    requires forall i, j :: 0 <= i < |a| && 0 <= j < |b| ==> a[i].End() <= b[j].offset
    ensures WellFormed(a + b)
  {
    var s := a + b;
    assert forall i :: 0 <= i < |s| ==> s[i] == if i < |a| then a[i] else b[i - |a|];
  }

  // ----- The list while a block is being stored -----

  /**
   * Fragment i of fs holds the whole block; what follows it, a tail of the old list, may still
   * overlap it; `trunc` says whether the part of the old list already passed disagrees with it.
   */
  ghost predicate Placed(fs: seq<Fragment>, i: nat, trunc: bool, was: seq<Fragment>, offset: int, data: seq<Byte>) {
    && i < |fs| && |fs| - i - 1 <= |was|
    && var f := fs[i]; var post := fs[i + 1..]; var seen := was[..|was| - |post|];
       && was == seen + post
       && WellFormed(fs[..i + 1])
       && (post != [] ==> offset <= post[0].offset && f.offset <= post[0].offset)
       && Holds(f, offset, data)
       && (f.End() > offset + |data| && post != [] ==> f.End() <= post[0].offset)
       && ReadsAs(fs, was, offset, data)
       && (trunc <==> Conflict(seen, offset, data))
  }

  ghost predicate Holds(f: Fragment, offset: int, data: seq<Byte>) {
    && f.offset <= offset && offset + |data| <= f.End()
    && f.data[offset - f.offset..offset - f.offset + |data|] == data
  }

  ghost predicate ReadsAs(fs: seq<Fragment>, was: seq<Fragment>, offset: int, data: seq<Byte>) {
    forall k :: At(fs, k) == Over(At(was, k), offset, data, k)
  }

  /** The new fragment goes between fragments that end before it and fragments that start after it. */
  lemma PlacedNew(pre: seq<Fragment>, nf: Fragment, post: seq<Fragment>, offset: int, data: seq<Byte>)
    requires WellFormed(pre + post) && nf.Sound() && nf.offset == offset && nf.data == data
    requires forall i :: 0 <= i < |pre| ==> pre[i].End() <= offset
    requires post != [] ==> offset <= post[0].offset
    ensures Placed(pre + [nf] + post, |pre|, false, pre + post, offset, data)
  {
    var fs := pre + [nf] + post;
    WellFormedParts(pre, post);
    WellFormedAppend(pre, nf);
    assert fs[..|pre| + 1] == pre + [nf] && fs[|pre| + 1..] == post;
    assert (pre + post)[..|pre|] == pre;
    ConflictNone(pre, offset, data);
    forall k
      ensures At(fs, k) == Over(At(pre + post, k), offset, data, k)
    {
      AtConcat(pre, post, k);
      AtThree(pre, nf, post, k);
      if offset <= k {
        AtOutside(pre, k);
      }
    }
  }

  /** Of the fragments up to one that touches the block's start, only that one can disagree with it. */
  lemma TouchConflict(pre: seq<Fragment>, f: Fragment, offset: int, data: seq<Byte>)
    requires WellFormed(pre + [f]) && f.offset <= offset
    ensures WellFormed(pre) && EndsBy(pre, f.offset) && f.Sound()
    ensures Conflict(pre + [f], offset, data) <==> Conflict([f], offset, data)
  {
    WellFormedAppend(pre, f);
    ConflictConcat(pre, [f], offset, data);
    ConflictNone(pre, offset, data);
  }

  lemma SplitAround(pre: seq<Fragment>, f: Fragment, post: seq<Fragment>)
    requires WellFormed(pre + [f] + post)
    ensures WellFormed(pre + [f]) && WellFormed(post)
    ensures post != [] ==> f.End() <= post[0].offset
    ensures forall j :: 0 <= j < |post| ==> f.End() <= post[j].offset
    ensures (pre + [f] + post)[..|pre| + 1] == pre + [f]
  {
    WellFormedParts(pre + [f], post);
    assert (pre + [f])[|pre|] == f;
  }

  lemma {:induction false} InsideReads(pre: seq<Fragment>, f: Fragment, g: Fragment, post: seq<Fragment>, offset: int, data: seq<Byte>, k: int)
    requires EndsBy(pre, f.offset) && f.offset <= offset <= f.End() && g.offset == f.offset
    requires var at := offset - f.offset;
             g.data == f.data[..at] + data + if at + |data| < |f.data| then f.data[at + |data|..] else []
    ensures At(pre + [g] + post, k) == Over(At(pre + [f] + post, k), offset, data, k)
  {
    AtThree(pre, f, post, k);
    AtThree(pre, g, post, k);
    if f.offset <= k {
      AtOutside(pre, k);
    }
  }

  /** A fragment that touches the block is grown or overwritten in place (lines 148-165). */
  lemma PlacedInside(pre: seq<Fragment>, f: Fragment, g: Fragment, post: seq<Fragment>, offset: int, data: seq<Byte>)
    requires WellFormed(pre + [f] + post) && f.offset <= offset <= f.End()
    requires g.Sound() && g.offset == f.offset
    requires var at := offset - f.offset;
             g.data == f.data[..at] + data + if at + |data| < |f.data| then f.data[at + |data|..] else []
    ensures var at := offset - f.offset; var n := if at + |data| < |f.data| then |data| else |f.data| - at;
            Placed(pre + [g] + post, |pre|, f.data[at..at + n] != data[..n], pre + [f] + post, offset, data)
  {
    var was, fs, at := pre + [f] + post, pre + [g] + post, offset - f.offset;
    var n := if at + |data| < |f.data| then |data| else |f.data| - at;
    SplitAround(pre, f, post);
    TouchConflict(pre, f, offset, data);
    ConflictOne(f, offset, data, at, at + n, 0, n);
    assert data[0..n] == data[..n];
    WellFormedAppend(pre, g);
    assert fs[..|pre| + 1] == pre + [g] && fs[|pre| + 1..] == post;
    forall k
      ensures At(fs, k) == Over(At(was, k), offset, data, k)
    {
      InsideReads(pre, f, g, post, offset, data, k);
    }
  }

  lemma {:induction false} BehindReads(pre: seq<Fragment>, f: Fragment, cut: Fragment, nf: Fragment, post: seq<Fragment>,
                    offset: int, data: seq<Byte>, k: int)
    requires EndsBy(pre, f.offset) && f.offset <= offset <= f.End() < offset + |data|
    requires cut == f.(data := f.data[..offset - f.offset]) && nf.offset == offset && nf.data == data
    ensures At(pre + [cut] + [nf] + post, k) == Over(At(pre + [f] + post, k), offset, data, k)
  {
    AtThree(pre + [cut], nf, post, k);
    AtThree(pre, cut, [], k);
    assert pre + [cut] + [] == pre + [cut];
    AtThree(pre, f, post, k);
    if f.offset <= k {
      AtOutside(pre, k);
    }
  }

  /** A fragment without room for the block gives up its overlap to a new fragment (lines 156-158). */
  lemma PlacedBehind(pre: seq<Fragment>, f: Fragment, cut: Fragment, nf: Fragment, post: seq<Fragment>,
                     offset: int, data: seq<Byte>)
    requires WellFormed(pre + [f] + post) && f.offset <= offset <= f.End() < offset + |data|
    requires cut == f.(data := f.data[..offset - f.offset])
    requires nf.Sound() && nf.offset == offset && nf.data == data
    ensures Placed(pre + [cut] + [nf] + post, |pre| + 1, f.data[offset - f.offset..] != data[..f.End() - offset],
                   pre + [f] + post, offset, data)
  {
    var was, fs := pre + [f] + post, pre + [cut] + [nf] + post;
    var at, n := offset - f.offset, f.End() - offset;
    SplitAround(pre, f, post);
    TouchConflict(pre, f, offset, data);
    ConflictOne(f, offset, data, at, |f.data|, 0, n);
    assert f.data[at..] == f.data[at..|f.data|] && data[..n] == data[0..n];
    WellFormedAppend(pre, cut);
    WellFormedAppend(pre + [cut], nf);
    assert fs[|pre| + 2..] == post && fs[..|pre| + 2] == pre + [cut] + [nf];
    forall k
      ensures At(fs, k) == Over(At(was, k), offset, data, k)
    {
      BehindReads(pre, f, cut, nf, post, offset, data, k);
    }
  }

  /** The three ways of placing a block, in terms of the list and a position in it. */
  lemma PlaceNew(fs: seq<Fragment>, i: nat, nf: Fragment, offset: int, data: seq<Byte>)
    requires WellFormed(fs) && i <= |fs| && nf.Sound() && nf.offset == offset && nf.data == data
    requires forall j :: 0 <= j < i ==> fs[j].End() <= offset
    requires i < |fs| ==> offset <= fs[i].offset
    ensures Placed(Insert(fs, i, nf), i, false, fs, offset, data)
  {
    assert fs == fs[..i] + fs[i..];
    PlacedNew(fs[..i], nf, fs[i..], offset, data);
  }

  /** A block that reaches past the end of a fragment with room for it. */
  lemma PlaceGrown(fs: seq<Fragment>, i: nat, g: Fragment, offset: int, data: seq<Byte>)
    requires WellFormed(fs) && i < |fs| && fs[i].offset <= offset <= fs[i].End() < offset + |data|
    requires g == fs[i].(data := fs[i].data[..offset - fs[i].offset] + data) && g.Sound()
    ensures Placed(fs[i := g], i, fs[i].data[offset - fs[i].offset..] != data[..fs[i].End() - offset], fs, offset, data)
  {
    var f, at := fs[i], offset - fs[i].offset;
    assert fs == fs[..i] + [f] + fs[i + 1..];
    assert fs[i := g] == fs[..i] + [g] + fs[i + 1..];
    assert g.data == f.data[..at] + data + [];
    assert f.data[at..] == f.data[at..at + (|f.data| - at)];
    PlacedInside(fs[..i], f, g, fs[i + 1..], offset, data);
  }

  /** A block that lies within a fragment. */
  lemma PlaceOver(fs: seq<Fragment>, i: nat, g: Fragment, offset: int, data: seq<Byte>)
    requires WellFormed(fs) && i < |fs| && fs[i].offset <= offset && offset + |data| <= fs[i].End()
    requires var f := fs[i]; var at := offset - f.offset;
             g == f.(data := f.data[..at] + data + f.data[at + |data|..])
    ensures var at := offset - fs[i].offset;
            Placed(fs[i := g], i, fs[i].data[at..at + |data|] != data, fs, offset, data)
  {
    var f, at := fs[i], offset - fs[i].offset;
    assert fs == fs[..i] + [f] + fs[i + 1..];
    assert fs[i := g] == fs[..i] + [g] + fs[i + 1..];
    assert data[..|data|] == data;
    assert at + |data| == |f.data| ==> f.data[at + |data|..] == [];
    PlacedInside(fs[..i], f, g, fs[i + 1..], offset, data);
  }

  lemma PlaceBehind(fs: seq<Fragment>, i: nat, cut: Fragment, nf: Fragment, offset: int, data: seq<Byte>)
    requires WellFormed(fs) && i < |fs| && fs[i].offset <= offset <= fs[i].End() < offset + |data|
    requires cut == fs[i].(data := fs[i].data[..offset - fs[i].offset])
    requires nf.Sound() && nf.offset == offset && nf.data == data
    ensures Placed(Insert(fs[i := cut], i + 1, nf), i + 1,
                   fs[i].data[offset - fs[i].offset..] != data[..fs[i].End() - offset], fs, offset, data)
  {
    assert fs == fs[..i] + [fs[i]] + fs[i + 1..];
    assert Insert(fs[i := cut], i + 1, nf) == fs[..i] + [cut] + [nf] + fs[i + 1..];
    PlacedBehind(fs[..i], fs[i], cut, nf, fs[i + 1..], offset, data);
  }

  /** The fragment the block's one becomes when it swallows the next: it takes over what sticks out. */
  function Swallow(f: Fragment, n: Fragment): Fragment
    requires n.offset < f.End()
  {
    if f.End() < n.End() then Fragment(f.offset, f.data + n.data[f.End() - n.offset..], n.End() - f.offset) else f
  }

  /** How many bytes of the next fragment it is compared with. */
  function SwallowOverlap(f: Fragment, n: Fragment): int
    requires n.offset < f.End()
  {
    if f.End() < n.End() then f.End() - n.offset else |n.data|
  }

  lemma {:induction false} SwallowReadsAs(pre: seq<Fragment>, f: Fragment, n: Fragment, post: seq<Fragment>, k: int)
    requires f.offset <= n.offset < f.End()
    ensures At(pre + [Swallow(f, n)] + post, k) == At(pre + [f] + ([n] + post), k)
  {
    AtThree(pre, Swallow(f, n), post, k);
    AtThree(pre, f, [n] + post, k);
    AtThree([], n, post, k);
    assert [] + [n] + post == [n] + post;
  }

  /** What is known when the next fragment n overlaps the block's: `seen` is the old list before n. */
  lemma PeelNext(fs: seq<Fragment>, i: nat, trunc: bool, was: seq<Fragment>, offset: int, data: seq<Byte>)
    returns (seen: seq<Fragment>)
    requires WellFormed(was) && Placed(fs, i, trunc, was, offset, data)
    requires i + 1 < |fs| && fs[i].End() > fs[i + 1].offset
    ensures var f, n := fs[i], fs[i + 1];
            && was == seen + [n] + fs[i + 2..] && WellFormed(seen + [n])
            && f.Sound() && n.Sound() && Holds(f, offset, data)
            && offset <= n.offset && f.offset <= n.offset && f.End() == offset + |data|
    ensures trunc <==> Conflict(seen, offset, data)
  {
    var post := fs[i + 2..];
    seen := was[..|was| - |post| - 1];
    assert fs[i + 1..] == [fs[i + 1]] + post;
    assert seen == was[..|was| - |fs[i + 1..]|];
    assert was == (seen + [fs[i + 1]]) + post;
    assert fs[..i + 1][i] == fs[i];
    WellFormedParts(seen + [fs[i + 1]], post);
    assert (seen + [fs[i + 1]])[|seen|] == fs[i + 1];
  }

  /** The next fragment is overlapped by the block's: its end is taken over, then it goes (lines 183-198). */
  lemma PlacedMerge(fs: seq<Fragment>, i: nat, trunc: bool, was: seq<Fragment>, offset: int, data: seq<Byte>)
    requires WellFormed(was) && Placed(fs, i, trunc, was, offset, data)
    requires i + 1 < |fs| && fs[i].End() > fs[i + 1].offset
    ensures var f, n := fs[i], fs[i + 1]; var m := SwallowOverlap(f, n);
            && f.offset <= n.offset && 0 <= m <= |n.data| && n.offset + m <= f.End()
            && Placed(fs[..i] + [Swallow(f, n)] + fs[i + 2..], i,
                      trunc || f.data[n.offset - f.offset..n.offset - f.offset + m] != n.data[..m], was, offset, data)
  {
    var f, n := fs[i], fs[i + 1];
    var seen := PeelNext(fs, i, trunc, was, offset, data);
    WellFormedAppend(seen, n);
    ConflictConcat(seen, [n], offset, data);
    SwallowConflict(f, n, offset, data);
    SwallowPlaced(fs, i, trunc || Conflict([n], offset, data), seen, was, offset, data);
  }

  /** The two arms of the merging loop. */
  lemma MergePart(fs: seq<Fragment>, i: nat, trunc: bool, g: Fragment, was: seq<Fragment>, offset: int, data: seq<Byte>)
    requires WellFormed(was) && Placed(fs, i, trunc, was, offset, data)
    requires i + 1 < |fs| && fs[i + 1].offset < fs[i].End() < fs[i + 1].End()
    requires var f, n := fs[i], fs[i + 1];
             g == Fragment(f.offset, f.data + n.data[f.End() - n.offset..], n.End() - f.offset)
    ensures var f, n := fs[i], fs[i + 1];
            && f.offset <= n.offset
            && Placed(Remove(fs[i := g], i + 1), i,
                      trunc || f.data[n.offset - f.offset..] != n.data[..f.End() - n.offset], was, offset, data)
  {
    PlacedMerge(fs, i, trunc, was, offset, data);
    var f, n := fs[i], fs[i + 1];
    var at := n.offset - f.offset;
    assert f.data[at..at + (f.End() - n.offset)] == f.data[at..];
    assert Remove(fs[i := g], i + 1) == fs[..i] + [g] + fs[i + 2..];
  }

  lemma MergeWhole(fs: seq<Fragment>, i: nat, trunc: bool, was: seq<Fragment>, offset: int, data: seq<Byte>)
    requires WellFormed(was) && Placed(fs, i, trunc, was, offset, data)
    requires i + 1 < |fs| && fs[i + 1].offset < fs[i].End() && fs[i + 1].End() <= fs[i].End()
    ensures var f, n := fs[i], fs[i + 1];
            && f.offset <= n.offset && n.offset + |n.data| <= f.End()
            && Placed(Remove(fs, i + 1), i,
                      trunc || f.data[n.offset - f.offset..n.offset - f.offset + |n.data|] != n.data, was, offset, data)
  {
    PlacedMerge(fs, i, trunc, was, offset, data);
    assert Remove(fs, i + 1) == fs[..i] + [fs[i]] + fs[i + 2..];
    assert fs[i + 1].data[..|fs[i + 1].data|] == fs[i + 1].data;
  }

  lemma SwallowConflict(f: Fragment, n: Fragment, offset: int, data: seq<Byte>)
    requires n.Sound() && f.Sound() && Holds(f, offset, data)
    requires offset <= n.offset < f.End() == offset + |data| && f.offset <= n.offset
    ensures var m := SwallowOverlap(f, n);
            && 0 <= m <= |n.data| && n.offset + m <= f.End()
            && (Conflict([n], offset, data) <==>
                f.data[n.offset - f.offset..n.offset - f.offset + m] != n.data[..m])
  {
    var m := SwallowOverlap(f, n);
    var a, c, b := offset - f.offset, n.offset - offset, n.offset - f.offset;
    assert f.data[b..b + m] == data[c..c + m] by {
      SliceOfSlice(f.data, a, a + |data|, c, c + m);
    }
    ConflictOne(n, offset, data, 0, m, c, c + m);
    assert n.data[0..m] == n.data[..m];
  }

  lemma {:induction false} SwallowReads(pre: seq<Fragment>, f: Fragment, n: Fragment, post: seq<Fragment>,
                                        was: seq<Fragment>, offset: int, data: seq<Byte>)
    requires ReadsAs(pre + [f] + ([n] + post), was, offset, data)
    requires f.Sound() && n.Sound() && f.offset <= n.offset < f.End()
    ensures ReadsAs(pre + [Swallow(f, n)] + post, was, offset, data)
  {
    forall k
      ensures At(pre + [Swallow(f, n)] + post, k) == Over(At(was, k), offset, data, k)
    {
      SwallowReadsAs(pre, f, n, post, k);
    }
  }

  lemma SwallowHolds(f: Fragment, n: Fragment, offset: int, data: seq<Byte>)
    requires Holds(f, offset, data) && n.offset < f.End()
    ensures Holds(Swallow(f, n), offset, data)
  {
    var g, at := Swallow(f, n), offset - f.offset;
    assert g.data[at..at + |data|] == f.data[at..at + |data|];
  }

  /** The list before the swallowed fragment, and what comes behind it. */
  lemma {:induction false} SwallowOrder(pre: seq<Fragment>, f: Fragment, n: Fragment, seen: seq<Fragment>, post: seq<Fragment>)
    requires WellFormed(seen + [n] + post) && WellFormed(pre + [f]) && n.offset < f.End() && f.offset <= n.offset
    ensures n.Sound() && f.Sound() && WellFormed(pre + [Swallow(f, n)])
    ensures post != [] ==> n.End() <= post[0].offset && n.offset <= post[0].offset
  {
    WellFormedParts(seen + [n], post);
    assert post != [] ==> (seen + [n])[|seen|].End() <= post[0].offset;
    WellFormedAppend(seen, n);
    WellFormedAppend(pre, f);
    WellFormedAppend(pre, Swallow(f, n));
  }

  lemma {:induction false} SwallowPlaced(fs: seq<Fragment>, i: nat, trunc: bool, seen: seq<Fragment>, was: seq<Fragment>,
                      offset: int, data: seq<Byte>)
    requires WellFormed(was) && i + 1 < |fs| && fs[i].End() > fs[i + 1].offset
    requires was == seen + [fs[i + 1]] + fs[i + 2..]
    requires Placed(fs, i, Conflict(seen, offset, data), was, offset, data)
    requires trunc <==> Conflict(seen + [fs[i + 1]], offset, data)
    ensures Placed(fs[..i] + [Swallow(fs[i], fs[i + 1])] + fs[i + 2..], i, trunc, was, offset, data)
  {
    var f, n, pre, post := fs[i], fs[i + 1], fs[..i], fs[i + 2..];
    var gs := pre + [Swallow(f, n)] + post;
    assert fs[i + 1..] == [n] + post && fs[i + 1..][0] == n;
    assert fs == pre + [f] + ([n] + post);
    assert fs[..i + 1] == pre + [f] && gs[..i + 1] == pre + [Swallow(f, n)] && gs[i + 1..] == post;
    assert was[..|was| - |post|] == seen + [n];
    SwallowOrder(pre, f, n, seen, post);
    SwallowHolds(f, n, offset, data);
    SwallowReads(pre, f, n, post, was, offset, data);
  }

  /** Once nothing overlaps the block any more the list is sound and `trunc` is the whole truth. */
  lemma PlacedDone(fs: seq<Fragment>, i: nat, trunc: bool, was: seq<Fragment>, offset: int, data: seq<Byte>)
    requires WellFormed(was) && Placed(fs, i, trunc, was, offset, data)
    requires i + 1 < |fs| ==> fs[i].End() <= fs[i + 1].offset
    ensures WellFormed(fs) && ReadsAs(fs, was, offset, data)
    ensures trunc <==> Conflict(was, offset, data)
  {
    var post := fs[i + 1..];
    var seen := was[..|was| - |post|];
    WellFormedParts(seen, post);
    ConflictConcat(seen, post, offset, data);
    ConflictNone(post, offset, data);
    var head := fs[..i + 1];
    forall a, b | 0 <= a < |head| && 0 <= b < |post|
      ensures head[a].End() <= post[b].offset
    {
      assert head[a].End() <= head[i].End();
      assert post[0].offset <= post[b].offset;
    }
    assert fs == head + post;
    WellFormedJoin(head, post);
  }

  // ----- Dropping one end of a document -----

  /** fs reads as `was` restricted to the offsets to keep. */
  ghost predicate Restricted(fs: seq<Fragment>, was: seq<Fragment>, keep: int -> bool) {
    forall k :: At(fs, k) == if keep(k) then At(was, k) else None
  }

  /** What is left of a list whose first n fragments end by off and whose next one may cross it. */
  ghost predicate SplitAt(fs: seq<Fragment>, n: nat, off: int) {
    && WellFormed(fs) && n <= |fs| && EndsBy(fs[..n], off)
    && (n < |fs| ==> off <= fs[n].End())
  }

  /** Dropping everything from the first fragment that starts at or past off. */
  lemma CutAfterWhole(fs: seq<Fragment>, n: nat, off: int)
    requires SplitAt(fs, n, off) && (n < |fs| ==> off <= fs[n].offset)
    ensures WellFormed(fs[..n]) && Restricted(fs[..n], fs, k => k < off)
  {
    assert fs == fs[..n] + fs[n..];
    WellFormedParts(fs[..n], fs[n..]);
    forall k
      ensures At(fs[..n], k) == if k < off then At(fs, k) else None
    {
      AtConcat(fs[..n], fs[n..], k);
      if k < off {
        AtOutside(fs[n..], k);
      } else {
        AtOutside(fs[..n], k);
      }
    }
  }

  /** Cutting the fragment across off and dropping all that follow it. */
  lemma CutAfterPart(fs: seq<Fragment>, n: nat, cut: Fragment, off: int)
    requires SplitAt(fs, n, off) && n < |fs| && fs[n].offset < off < fs[n].End()
    requires cut.Sound() && cut.offset == fs[n].offset && cut.data == fs[n].data[..off - fs[n].offset]
    ensures WellFormed(fs[..n] + [cut]) && Restricted(fs[..n] + [cut], fs, k => k < off)
  {
    var pre, f, post := fs[..n], fs[n], fs[n + 1..];
    assert fs == pre + [f] + post;
    WellFormedParts(pre + [f], post);
    WellFormedAppend(pre, f);
    WellFormedAppend(pre, cut);
    forall k
      ensures At(pre + [cut], k) == if k < off then At(fs, k) else None
    {
      AtThree(pre, f, post, k);
      AtThree(pre, cut, [], k);
      assert pre + [cut] + [] == pre + [cut];
      if k < off {
        AtOutside(post, k);
      } else {
        AtOutside(pre, k);
      }
    }
  }

  /** Dropping whole fragments from the front. */
  lemma CutBeforeWhole(fs: seq<Fragment>, n: nat, off: int)
    requires SplitAt(fs, n, off) && (n < |fs| ==> off <= fs[n].offset)
    ensures WellFormed(fs[n..]) && Restricted(fs[n..], fs, k => k >= off)
  {
    assert fs == fs[..n] + fs[n..];
    WellFormedParts(fs[..n], fs[n..]);
    forall k
      ensures At(fs[n..], k) == if k >= off then At(fs, k) else None
    {
      AtConcat(fs[..n], fs[n..], k);
      if k >= off {
        AtOutside(fs[..n], k);
      } else {
        AtOutside(fs[n..], k);
      }
    }
  }

  /** Moving up the start of the fragment across off and dropping all before it. */
  lemma CutBeforePart(fs: seq<Fragment>, n: nat, cut: Fragment, off: int)
    requires SplitAt(fs, n, off) && off >= 0 && n < |fs| && fs[n].offset < off < fs[n].End()
    requires cut == Fragment(off, fs[n].data[off - fs[n].offset..], fs[n].capacity)
    ensures WellFormed([cut] + fs[n + 1..]) && Restricted([cut] + fs[n + 1..], fs, k => k >= off)
  {
    var pre, f, post := fs[..n], fs[n], fs[n + 1..];
    assert fs == pre + [f] + post;
    WellFormedParts(pre + [f], post);
    assert (pre + [f])[n] == f;
    assert [cut][0] == cut;
    WellFormedJoin([cut], post);
    forall k
      ensures At([cut] + post, k) == if k >= off then At(fs, k) else None
    {
      CutBeforeReads(pre, f, cut, post, off, k);
    }
  }

  lemma {:induction false} CutBeforeReads(pre: seq<Fragment>, f: Fragment, cut: Fragment, post: seq<Fragment>, off: int, k: int)
    requires EndsBy(pre, off) && f.offset < off < f.End()
    requires forall j :: 0 <= j < |post| ==> off <= post[j].offset
    requires cut == Fragment(off, f.data[off - f.offset..], f.capacity)
    ensures At([cut] + post, k) == if k >= off then At(pre + [f] + post, k) else None
  {
    AtThree(pre, f, post, k);
    AtConcat([cut], post, k);
    assert At([cut], k) == cut.At(k);
    if k >= off {
      AtOutside(pre, k);
    } else {
      AtOutside(post, k);
    }
  }

  // ----- Defragmentation -----

  /** Each fragment starts where the one before it ends. */
  ghost predicate Contiguous(fs: seq<Fragment>) {
    forall i :: 0 < i < |fs| ==> fs[i].offset == fs[i - 1].End()
  }

  function Flatten(fs: seq<Fragment>): seq<Byte> {
    if fs == [] then [] else fs[0].data + Flatten(fs[1..])
  }

  lemma {:induction false} FlattenReads(fs: seq<Fragment>, k: int)
    requires Contiguous(fs) && fs != []
    ensures |Flatten(fs)| == SumLengths(fs) && fs[0].offset + |Flatten(fs)| == fs[|fs| - 1].End()
    ensures At(fs, k) == Fragment(fs[0].offset, Flatten(fs), SumLengths(fs)).At(k)
  {
    if |fs| == 1 {
      assert fs[1..] == [];
    } else {
      assert fs[1..][0].offset == fs[0].End();
      forall i | 0 < i < |fs[1..]|
        ensures fs[1..][i].offset == fs[1..][i - 1].End()
      {
        assert fs[i + 1].offset == fs[i].End();
      }
      FlattenReads(fs[1..], k);
    }
  }

  lemma {:induction false} FlattenSnoc(fs: seq<Fragment>, f: Fragment)
    ensures Flatten(fs + [f]) == Flatten(fs) + f.data
    ensures SumLengths(fs + [f]) == SumLengths(fs) + |f.data|
  {
    if fs == [] {
      assert [f][1..] == [];
      assert [] + [f] == [f];
    } else {
      FlattenSnoc(fs[1..], f);
      assert (fs + [f])[1..] == fs[1..] + [f];
    }
  }

  /** Replacing a gapless run at the front by one fragment with the same bytes changes nothing readable. */
  lemma {:induction false} FlattenFront(run: seq<Fragment>, post: seq<Fragment>)
    requires run != [] && Contiguous(run) && WellFormed(run + post)
    ensures var n := Fragment(run[0].offset, Flatten(run), SumLengths(run));
            && n.End() == run[|run| - 1].End()
            && WellFormed([n] + post)
            && SumLengths([n] + post) == SumLengths(run + post)
            && (forall b :: EndsBy(run + post, b) ==> EndsBy([n] + post, b))
            && forall k :: At([n] + post, k) == At(run + post, k)
  {
    var n := Fragment(run[0].offset, Flatten(run), SumLengths(run));
    FlattenReads(run, 0);
    WellFormedParts(run, post);
    WellFormedJoin([n], post);
    LengthsConcat(run, post);
    LengthsConcat([n], post);
    assert [n][1..] == [];
    assert (run + post)[|run| - 1] == run[|run| - 1];
    assert forall j :: 0 <= j < |post| ==> (run + post)[|run| + j] == post[j];
    forall k
      ensures At([n] + post, k) == At(run + post, k)
    {
      FlattenReads(run, k);
      AtConcat(run, post, k);
      AtConcat([n], post, k);
      assert At([n], k) == n.At(k);
    }
  }
}
