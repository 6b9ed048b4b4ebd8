// The document cache (cache.c): fragment lists changed in place under a global byte ledger.

module Cache {
  import opened Basics
  import opened Fragments

  const PAGE_SIZE := 4096
  /** Bytes of a fragment's header plus the allocator's slack. */
  const HEADER := 48 + 64

  /** The capacity given to a new fragment: the rest of its last page. */
  function CAlign(x: nat): (c: nat)
    ensures c >= x
    ensures (c + HEADER + 1) % PAGE_SIZE == 0
  {
    (x + HEADER) / PAGE_SIZE * PAGE_SIZE + PAGE_SIZE - 1 - HEADER
  }

  class Entry {
    var length: int
    var incomplete: bool
    var dataSize: int
    var frags: seq<Fragment>
    var count: nat
    var count2: nat

    constructor (count: nat)
      ensures Sound() && frags == [] && length == 0 && incomplete
      ensures this.count == count && count2 == count + 1
    {
      length, incomplete, dataSize, frags := 0, true, 0, [];
      this.count, this.count2 := count, count + 1;
    }

    /** Fragments sorted and disjoint, inside the document, and counted exactly. */
    ghost predicate Sound()
      reads this
    {
      && WellFormed(frags)
      && EndsBy(frags, length)
      && dataSize == SumLengths(frags)
    }
  }

  class Store {
    var entries: seq<Entry>
    var cacheSize: int
    var cacheCount: nat
    /** The size of every entry, for the books. */
    ghost var sizes: seq<int>

    /** Every entry is sound, none is listed twice, and the ledger is the sum of their sizes. */
    ghost predicate Valid()
      reads this, entries
    {
      && Distinct(entries)
      && (forall i :: 0 <= i < |entries| ==> entries[i].Sound())
      && |sizes| == |entries| && (forall i :: 0 <= i < |entries| ==> entries[i].dataSize == sizes[i])
      && cacheSize == Sum(sizes)
    }

    /** The macro sf: charges x bytes to an entry and to the ledger at once. */
    method Charge(e: Entry, x: int)
      modifies this`cacheSize, e`dataSize
      ensures e.dataSize == old(e.dataSize) + x
      ensures cacheSize == old(cacheSize) + x
    {
      e.dataSize, cacheSize := e.dataSize + x, cacheSize + x;
    }

    /** What storing into e may change: its bytes and the ledger, by the same amount. */
    twostate predicate Charged(e: Entry)
      reads this, e
    {
      && cacheSize - e.dataSize == old(cacheSize - e.dataSize)
      && e.dataSize - SumLengths(e.frags) == old(e.dataSize - SumLengths(e.frags))
    }

    /** Books the new size of the entry just charged: the ledger is the sum of all sizes again. */
    ghost method Book(e: Entry, n: nat)
      requires n < |entries| == |sizes| && entries[n] == e && Distinct(entries)
      requires forall i :: 0 <= i < |entries| ==> entries[i].Sound() && (i != n ==> entries[i].dataSize == sizes[i])
      requires cacheSize - e.dataSize == Sum(sizes) - sizes[n]
      modifies this`sizes
      ensures Valid() && sizes == old(sizes)[n := e.dataSize]
    {
      SumUpdate(sizes, n, e.dataSize);
      sizes := sizes[n := e.dataSize];
    }

    /** Replaces fragment i, whose buffer may change length. */
    method Replace(e: Entry, i: nat, g: Fragment, ghost bound: int)
      requires i < |e.frags| && EndsBy(e.frags, bound) && g.End() <= bound
      modifies this`cacheSize, e`dataSize, e`frags
      ensures e.frags == old(e.frags)[i := g]
      ensures Charged(e) && EndsBy(e.frags, bound)
    {
      LengthsUpdate(e.frags, i, g);
      Charge(e, |g.data| - |e.frags[i].data|);
      e.frags := e.frags[i := g];
    }

    /** Allocates a fragment for the block and links it in before position i (lines 172-179). */
    method InsertNew(e: Entry, i: nat, offset: int, data: seq<Byte>, ghost bound: int)
      requires i <= |e.frags| && EndsBy(e.frags, bound) && offset + |data| <= bound
      modifies this`cacheSize, e`dataSize, e`frags
      ensures e.frags == Insert(old(e.frags), i, Fragment(offset, data, CAlign(|data|)))
      ensures Charged(e) && EndsBy(e.frags, bound)
    {
      LengthsInsert(e.frags, i, Fragment(offset, data, CAlign(|data|)));
      Charge(e, |data|);
      e.frags := Insert(e.frags, i, Fragment(offset, data, CAlign(|data|)));
    }

    /** Unlinks and frees fragment i. */
    method Delete(e: Entry, i: nat, ghost bound: int)
      requires i < |e.frags| && EndsBy(e.frags, bound)
      modifies this`cacheSize, e`dataSize, e`frags
      ensures e.frags == Remove(old(e.frags), i)
      ensures Charged(e) && EndsBy(e.frags, bound)
    {
      LengthsRemove(e.frags, i);
      Charge(e, -|e.frags[i].data|);
      e.frags := Remove(e.frags, i);
    }

    /** Puts a block that starts inside or right behind fragment i and reaches past it (lines 148-159). */
    method PlaceBeyond(e: Entry, i0: nat, offset: int, data: seq<Byte>, ghost bound: int) returns (i: nat, trunc: bool)
      requires WellFormed(e.frags) && data != [] && EndsBy(e.frags, bound) && offset + |data| <= bound
      requires i0 < |e.frags| && e.frags[i0].offset <= offset <= e.frags[i0].End() < offset + |data|
      modifies this`cacheSize, e`dataSize, e`frags
      ensures Placed(e.frags, i, trunc, old(e.frags), offset, data)
      ensures Charged(e) && EndsBy(e.frags, bound)
    {
      i := i0;
      var f := e.frags[i];
      var at := offset - f.offset;
      trunc := f.data[at..] != data[..f.End() - offset];
      if at + |data| <= f.capacity {
        var g := f.(data := f.data[..at] + data);
        PlaceGrown(e.frags, i, g, offset, data);
        Replace(e, i, g, bound);
      } else {
        var cut := f.(data := f.data[..at]);
        PlaceBehind(e.frags, i, cut, Fragment(offset, data, CAlign(|data|)), offset, data);
        Replace(e, i, cut, bound);
        i := i + 1;
        InsertNew(e, i, offset, data, bound);
      }
    }

    /** Puts a block that lies within fragment i (lines 161-164). */
    method PlaceWithin(e: Entry, i: nat, offset: int, data: seq<Byte>, ghost bound: int) returns (trunc: bool)
      requires WellFormed(e.frags) && data != [] && EndsBy(e.frags, bound)
      requires i < |e.frags| && e.frags[i].offset <= offset && offset + |data| <= e.frags[i].End()
      modifies this`cacheSize, e`dataSize, e`frags
      ensures Placed(e.frags, i, trunc, old(e.frags), offset, data)
      ensures Charged(e) && EndsBy(e.frags, bound)
    {
      var f := e.frags[i];
      var at := offset - f.offset;
      trunc := f.data[at..at + |data|] != data;
      var g := f.(data := f.data[..at] + data + f.data[at + |data|..]);
      PlaceOver(e.frags, i, g, offset, data);
      Replace(e, i, g, bound);
    }

    /** Finds or makes the fragment that holds the block (lines 145-180). */
    method Place(e: Entry, offset: int, data: seq<Byte>, ghost bound: int) returns (i: nat, a: int, trunc: bool)
      requires WellFormed(e.frags) && data != [] && 0 <= offset
      requires EndsBy(e.frags, bound) && offset + |data| <= bound
      modifies this`cacheSize, e`dataSize, e`frags
      ensures Placed(e.frags, i, trunc, old(e.frags), offset, data)
      ensures Charged(e) && EndsBy(e.frags, bound)
      ensures a == if Held(old(e.frags), offset, |data|) then 0 else 1
    {
      ghost var was := e.frags;
      i := 0;
      while i < |e.frags|
        invariant i <= |e.frags|
        invariant e.frags == was && e.dataSize == old(e.dataSize) && cacheSize == old(cacheSize)
        invariant forall j :: 0 <= j < i ==> was[j].End() < offset
      {
        var f := e.frags[i];
        if f.offset > offset {
          break;
        }
        if f.offset <= offset && f.End() >= offset {
          if offset + |data| > f.End() {
            a := 1;
            NotHeld(was, i, offset, |data|);
            i, trunc := PlaceBeyond(e, i, offset, data, bound);
          } else {
            a := 0;
            IsHeld(was, i, offset, |data|);
            trunc := PlaceWithin(e, i, offset, data, bound);
          }
          return;
        }
        i := i + 1;
      }
      a, trunc := 1, false;
      NotHeld(was, i, offset, |data|);
      PlaceNew(was, i, Fragment(offset, data, CAlign(|data|)), offset, data);
      InsertNew(e, i, offset, data, bound);
    }

    /** The block's fragment takes over the end of the next one, which sticks out of it (lines 183-191). */
    method SwallowPart(e: Entry, i: nat, trunc0: bool, ghost was: seq<Fragment>, offset: int, data: seq<Byte>,
                       ghost bound: int)
      returns (trunc: bool)
      requires WellFormed(was) && Placed(e.frags, i, trunc0, was, offset, data) && EndsBy(e.frags, bound)
      requires i + 1 < |e.frags| && e.frags[i + 1].offset < e.frags[i].End() < e.frags[i + 1].End()
      modifies this`cacheSize, e`dataSize, e`frags
      ensures Placed(e.frags, i, trunc, was, offset, data)
      ensures Charged(e) && EndsBy(e.frags, bound) && |e.frags| == |old(e.frags)| - 1
    {
      var f, n := e.frags[i], e.frags[i + 1];
      var g := Fragment(f.offset, f.data + n.data[f.End() - n.offset..], n.End() - f.offset);
      MergePart(e.frags, i, trunc0, g, was, offset, data);
      trunc := trunc0 || f.data[n.offset - f.offset..] != n.data[..f.End() - n.offset];
      Replace(e, i, g, bound);
      Delete(e, i + 1, bound);
    }

    /** The next fragment lies within the block's one and goes (lines 192-198). */
    method SwallowWhole(e: Entry, i: nat, trunc0: bool, ghost was: seq<Fragment>, offset: int, data: seq<Byte>,
                        ghost bound: int)
      returns (trunc: bool)
      requires WellFormed(was) && Placed(e.frags, i, trunc0, was, offset, data) && EndsBy(e.frags, bound)
      requires i + 1 < |e.frags| && e.frags[i + 1].offset < e.frags[i].End() && e.frags[i + 1].End() <= e.frags[i].End()
      modifies this`cacheSize, e`dataSize, e`frags
      ensures Placed(e.frags, i, trunc, was, offset, data)
      ensures Charged(e) && EndsBy(e.frags, bound) && |e.frags| == |old(e.frags)| - 1
    {
      var f, n := e.frags[i], e.frags[i + 1];
      MergeWhole(e.frags, i, trunc0, was, offset, data);
      trunc := trunc0 || f.data[n.offset - f.offset..n.offset - f.offset + |n.data|] != n.data;
      Delete(e, i + 1, bound);
    }

    /** Lets the block's fragment swallow everything it overlaps (lines 182-199). */
    method Merge(e: Entry, i: nat, trunc0: bool, ghost was: seq<Fragment>, offset: int, data: seq<Byte>, ghost bound: int)
      returns (trunc: bool)
      requires WellFormed(was) && Placed(e.frags, i, trunc0, was, offset, data) && EndsBy(e.frags, bound)
      modifies this`cacheSize, e`dataSize, e`frags
      ensures WellFormed(e.frags) && ReadsAs(e.frags, was, offset, data)
      ensures trunc <==> Conflict(was, offset, data)
      ensures Charged(e) && EndsBy(e.frags, bound)
    {
      trunc := trunc0;
      while i + 1 < |e.frags| && e.frags[i].End() > e.frags[i + 1].offset
        invariant Placed(e.frags, i, trunc, was, offset, data)
        invariant Charged(e) && EndsBy(e.frags, bound)
        decreases |e.frags|
      {
        if e.frags[i].End() < e.frags[i + 1].End() {
          trunc := SwallowPart(e, i, trunc, was, offset, data, bound);
        } else {
          trunc := SwallowWhole(e, i, trunc, was, offset, data, bound);
        }
      }
      PlacedDone(e.frags, i, trunc, was, offset, data);
    }

    /** Marks the entry as changed, and as changed out of order unless the block continues it (lines 138-144). */
    method Stamp(e: Entry, offset: int, end: int)
      modifies this`cacheCount, e`length, e`count, e`count2
      ensures e.length == Max(old(e.length), end) && e.count == old(cacheCount)
      ensures if e.frags != [] && e.frags[|e.frags| - 1].End() == offset then e.count2 == old(e.count2) && cacheCount == old(cacheCount) + 1
              else e.count2 == old(cacheCount) + 1 && cacheCount == old(cacheCount) + 2
    {
      if e.length < end {
        e.length := end;
      }
      e.count, cacheCount := cacheCount, cacheCount + 1;
      if |e.frags| == 0 || e.frags[|e.frags| - 1].End() != offset {
        e.count2, cacheCount := cacheCount, cacheCount + 1;
      }
    }

    /** Places, merges and, on a disagreement, truncates (lines 145-200). */
    method StoreBlock(e: Entry, offset: int, data: seq<Byte>) returns (a: int)
      requires WellFormed(e.frags) && data != [] && 0 <= offset
      requires EndsBy(e.frags, e.length) && offset + |data| <= e.length
      modifies this`cacheSize, e`dataSize, e`frags, e`length, e`incomplete
      ensures WellFormed(e.frags) && EndsBy(e.frags, e.length) && Charged(e)
      ensures Stored(e.frags, old(e.frags), offset, data)
      ensures e.length == if Conflict(old(e.frags), offset, data) then offset + |data| else old(e.length)
      ensures e.incomplete == (old(e.incomplete) || e.length < old(e.length))
      ensures a == if Held(old(e.frags), offset, |data|) then 0 else 1
    {
      ghost var was := e.frags;
      var i, trunc;
      i, a, trunc := Place(e, offset, data, e.length);
      trunc := Merge(e, i, trunc, was, offset, data, e.length);
      if trunc {
        Truncate(e, offset + |data|, false);
      }
    }

    /** Everything AddFragment does to an entry it has something to store in. */
    twostate predicate BlockStored(e: Entry, offset: int, data: seq<Byte>)
      reads this, e
    {
      && Stored(e.frags, old(e.frags), offset, data)
      && (e.length == if Conflict(old(e.frags), offset, data) then offset + |data| else Max(old(e.length), offset + |data|))
      && (e.incomplete <==>
          old(e.incomplete) || (Conflict(old(e.frags), offset, data) && old(e.length) > offset + |data|))
      && e.count == old(cacheCount)
      && (if old(e.frags) != [] && old(e.frags)[|old(e.frags)| - 1].End() == offset
          then e.count2 == old(e.count2) && cacheCount == old(cacheCount) + 1
          else e.count2 == old(cacheCount) + 1 && cacheCount == old(cacheCount) + 2)
    }

    method AddBytes(e: Entry, offset: int, data: seq<Byte>) returns (a: int)
      requires Valid() && e.Sound() && e in entries && data != [] && 0 <= offset
      modifies this`cacheSize, this`cacheCount, e`dataSize, e`frags, e`length, e`incomplete, e`count, e`count2
      ensures e.Sound() && Charged(e)
      ensures BlockStored(e, offset, data)
      ensures a == if Held(old(e.frags), offset, |data|) then 0 else 1
    {
      Stamp(e, offset, offset + |data|);
      a := StoreBlock(e, offset, data);
    }

    /**
     * Stores a block: the content becomes the old one overridden by the block, and everything past
     * the block goes if, and only if, some byte already there disagreed with it.
     */
    method AddFragment(e: Entry, offset: int, data: seq<Byte>) returns (a: int)
      requires Valid() && e in entries && 0 <= offset
      modifies this`cacheSize, this`cacheCount, this`sizes, e`dataSize, e`frags, e`length, e`incomplete, e`count, e`count2
      ensures Valid()
      ensures if data == [] then a == 0 && unchanged(e) && unchanged(this) else BlockStored(e, offset, data)
      ensures a == if data == [] || Held(old(e.frags), offset, |data|) then 0 else 1
    {
      if |data| == 0 {
        return 0;
      }
      ghost var n: nat :| n < |entries| && entries[n] == e;
      a := AddBytes(e, offset, data);
      Book(e, n);
    }

    /** Deletes fragment i and all after it (lines 252-259). */
    method DropFrom(e: Entry, i: nat, ghost bound: int)
      requires i <= |e.frags| && EndsBy(e.frags, bound)
      modifies this`cacheSize, e`dataSize, e`frags
      ensures e.frags == old(e.frags)[..i]
      ensures Charged(e)
    {
      ghost var was := e.frags;
      while i < |e.frags|
        invariant i <= |e.frags| && e.frags[..i] == was[..i]
        invariant Charged(e) && EndsBy(e.frags, bound)
        decreases |e.frags|
      {
        Delete(e, i, bound);
      }
      assert e.frags == e.frags[..i];
    }

    /** Drops everything at or past off from one entry (lines 246-276). */
    method Truncate(e: Entry, off: int, final: bool)
      requires WellFormed(e.frags) && EndsBy(e.frags, e.length)
      modifies this`cacheSize, e`dataSize, e`frags, e`length, e`incomplete
      ensures WellFormed(e.frags) && Restricted(e.frags, old(e.frags), k => k < off)
      ensures EndsBy(e.frags, e.length) && Charged(e)
      ensures e.length == Min(old(e.length), off)
      ensures e.incomplete == (old(e.incomplete) || old(e.length) > off)
    {
      ghost var was, bound := e.frags, e.length;
      if e.length > off {
        e.length, e.incomplete := off, true;
      }
      var i := 0;
      while i < |e.frags|
        invariant i <= |e.frags| && e.frags == was
        invariant e.dataSize == old(e.dataSize) && cacheSize == old(cacheSize)
        invariant EndsBy(was[..i], off)
      {
        var f := e.frags[i];
        if f.offset >= off {
          CutAfterWhole(was, i, off);
          DropFrom(e, i, bound);
          return;
        }
        if f.End() > off {
          var g := f.(data := f.data[..off - f.offset], capacity := if final then off - f.offset else f.capacity);
          CutAfterPart(was, i, g, off);
          Replace(e, i, g, bound);
          DropFrom(e, i + 1, bound);
          assert e.frags == was[..i] + [g];
          return;
        }
        i := i + 1;
      }
      assert was[..i] == was;
      CutAfterWhole(was, i, off);
    }

    /** Truncates a listed entry: its content is the old one below off. */
    method TruncateEntry(e: Entry, off: int, final: bool)
      requires Valid() && e in entries
      modifies this`cacheSize, this`sizes, e`dataSize, e`frags, e`length, e`incomplete
      ensures Valid()
      ensures Restricted(e.frags, old(e.frags), k => k < off)
      ensures e.length == Min(old(e.length), off) && e.incomplete == (old(e.incomplete) || old(e.length) > off)
    {
      ghost var n: nat :| n < |entries| && entries[n] == e;
      Truncate(e, off, final);
      Book(e, n);
    }

    /** Frees a listed entry up to off: its content is the old one from off up (lines 278-294). */
    method FreeEntryTo(e: Entry, off: int)
      requires Valid() && e in entries && off >= 0
      modifies this`cacheSize, this`sizes, e`dataSize, e`frags
      ensures Valid()
      ensures Restricted(e.frags, old(e.frags), k => k >= off)
    {
      ghost var n: nat :| n < |entries| && entries[n] == e;
      FreeTo(e, off);
      Book(e, n);
    }

    /** Deletes the fragments that end by off (lines 282-287). */
    method DropEndedBy(e: Entry, off: int, ghost bound: int) returns (ghost n: nat)
      requires EndsBy(e.frags, bound)
      modifies this`cacheSize, e`dataSize, e`frags
      ensures Charged(e) && EndsBy(e.frags, bound)
      ensures n <= |old(e.frags)| && e.frags == old(e.frags)[n..] && EndsBy(old(e.frags)[..n], off)
      ensures e.frags != [] ==> e.frags[0].End() > off
    {
      n := 0;
      while |e.frags| > 0 && e.frags[0].End() <= off
        invariant n <= |old(e.frags)| && e.frags == old(e.frags)[n..] && EndsBy(old(e.frags)[..n], off)
        invariant Charged(e) && EndsBy(e.frags, bound)
        decreases |e.frags|
      {
        Delete(e, 0, bound);
        n := n + 1;
      }
    }

    method FreeTo(e: Entry, off: int)
      requires e.Sound() && off >= 0
      modifies this`cacheSize, e`dataSize, e`frags
      ensures e.Sound() && Charged(e)
      ensures Restricted(e.frags, old(e.frags), k => k >= off)
    {
      ghost var was, bound := e.frags, e.length;
      ghost var n := DropEndedBy(e, off, bound);
      if |e.frags| > 0 && e.frags[0].offset < off {
        var f := e.frags[0];
        var g := Fragment(off, f.data[off - f.offset..], f.capacity);
        CutBeforePart(was, n, g, off);
        Replace(e, 0, g, bound);
        assert e.frags == [g] + was[n + 1..];
      } else {
        CutBeforeWhole(was, n, off);
      }
    }

    /** How far the gapless run at the front of the list goes (line 215). */
    method RunLength(e: Entry) returns (g: nat)
      requires WellFormed(e.frags) && e.frags != []
      ensures 1 <= g <= |e.frags| && Contiguous(e.frags[..g])
      ensures g < |e.frags| ==> e.frags[g - 1].End() < e.frags[g].offset
    {
      g := 1;
      while g < |e.frags| && e.frags[g].offset <= e.frags[g - 1].End()
        invariant 1 <= g <= |e.frags| && Contiguous(e.frags[..g])
      {
        // Fragments never overlay: this one starts exactly where the last one ends.
        assert e.frags[g].offset == e.frags[g - 1].End();
        g := g + 1;
      }
    }

    /** Copies the bytes of the first g fragments behind each other (lines 220-238). */
    method CopyRun(e: Entry, g: nat) returns (data: seq<Byte>)
      requires g <= |e.frags|
      ensures data == Flatten(e.frags[..g])
    {
      data := [];
      for h := 0 to g
        invariant data == Flatten(e.frags[..h])
      {
        assert e.frags[..h + 1] == e.frags[..h] + [e.frags[h]];
        FlattenSnoc(e.frags[..h], e.frags[h]);
        data := data + e.frags[h].data;
      }
    }

    /** Replaces the gapless run of the first g fragments by one that is exactly full (lines 220-239). */
    method JoinRun(e: Entry, g: nat)
      requires e.Sound() && 1 <= g <= |e.frags| && Contiguous(e.frags[..g])
      modifies e`frags
      ensures e.Sound() && SameContent(e.frags, old(e.frags))
      ensures e.frags != [] && e.frags[0].offset == old(e.frags)[0].offset && |e.frags[0].data| == e.frags[0].capacity
      ensures e.frags[0].End() == old(e.frags)[g - 1].End() && e.frags[1..] == old(e.frags)[g..]
    {
      var data := CopyRun(e, g);
      assert e.frags == e.frags[..g] + e.frags[g..];
      FlattenFront(e.frags[..g], e.frags[g..]);
      FlattenReads(e.frags[..g], 0);
      e.frags := [Fragment(e.frags[0].offset, data, |data|)] + e.frags[g..];
    }

    /** Joins the gapless run at the front of the document into one fragment (lines 208-244). */
    method DefragEntry(e: Entry)
      requires Valid() && e in entries
      modifies this`sizes, e`frags
      ensures Valid()
      ensures SameContent(e.frags, old(e.frags))
      ensures e.frags != [] && e.frags[0].offset == 0 ==>
                && |e.frags[0].data| == e.frags[0].capacity
                && (|e.frags| > 1 ==> e.frags[0].End() < e.frags[1].offset)
      ensures e.frags == [] || e.frags[0].offset != 0 ==> e.frags == old(e.frags)
    {
      if |e.frags| == 0 || e.frags[0].offset != 0 {
        return;
      }
      ghost var n: nat :| n < |entries| && entries[n] == e;
      var g := RunLength(e);
      if g == 1 && |e.frags[0].data| == e.frags[0].capacity {
        return;
      }
      JoinRun(e, g);
      assert |e.frags| > 1 ==> e.frags[1] == e.frags[1..][0];
      Book(e, n);
    }
  
    /** Forgets what an entry holds (lines 296-312). */
    method DeleteEntryContent(e: Entry)
      requires Valid() && e in entries
      modifies this`cacheSize, this`cacheCount, this`sizes, e`dataSize, e`frags, e`length, e`incomplete, e`count, e`count2
      ensures Valid() && e.frags == [] && e.length == 0 && e.incomplete && e.dataSize == 0
      ensures cacheSize == old(cacheSize - e.dataSize)
    {
      ghost var n: nat :| n < |entries| && entries[n] == e;
      LedgerCovers(n);
      assert e.dataSize <= cacheSize;
      e.count, e.count2, cacheCount := cacheCount, cacheCount + 1, cacheCount + 2;
      e.frags, e.length, e.incomplete := [], 0, true;
      cacheSize := cacheSize - e.dataSize;
      e.dataSize := 0;
      Book(e, n);
    }

    lemma LedgerCovers(n: nat)
      requires Valid() && n < |entries|
      ensures entries[n].dataSize <= cacheSize
    {
      LedgerNeverUnderflows();
      assert sizes[n] <= cacheSize;
    }

    /** The ledger covers every entry, so no subtraction from it ever goes below zero. */
    lemma LedgerNeverUnderflows()
      requires Valid()
      ensures forall i :: 0 <= i < |sizes| ==> 0 <= sizes[i] <= cacheSize
      ensures cacheSize >= 0
    {
      forall i | 0 <= i < |sizes|
        ensures sizes[i] >= 0
      {
        assert entries[i].Sound();
      }
      SumNonNegative(sizes);
    }
  }

  ghost predicate Distinct(es: seq<Entry>) {
    forall i, j :: 0 <= i < j < |es| ==> es[i] != es[j]
  }

  /** What AddFragment promises of the content, as partial maps from offset to byte. */
  ghost predicate Stored(fs: seq<Fragment>, was: seq<Fragment>, offset: int, data: seq<Byte>) {
    forall k :: At(fs, k) ==
      if Conflict(was, offset, data) && k >= offset + |data| then None else Over(At(was, k), offset, data, k)
  }

  ghost predicate SameContent(fs: seq<Fragment>, was: seq<Fragment>) {
    forall k :: At(fs, k) == At(was, k)
  }

  lemma {:induction false} AtSomewhere(fs: seq<Fragment>, i: nat, k: int)
    requires i < |fs| && fs[i].At(k).Some?
    ensures At(fs, k).Some?
  {
    if i > 0 {
      AtSomewhere(fs[1..], i - 1, k);
    }
  }

  /** One fragment holds all n bytes from offset on, and none before it reaches them. */
  ghost predicate Held(fs: seq<Fragment>, offset: int, n: nat) {
    exists i :: 0 <= i < |fs| && fs[i].offset <= offset && offset + n <= fs[i].End() && (i > 0 ==> fs[i - 1].End() < offset)
  }

  lemma {:induction false} IsHeld(fs: seq<Fragment>, i: nat, offset: int, n: nat)
    requires i < |fs| && fs[i].offset <= offset && offset + n <= fs[i].End() && (i > 0 ==> fs[i - 1].End() < offset)
    ensures Held(fs, offset, n)
  {
  }

  lemma {:induction false} NotHeld(fs: seq<Fragment>, i: nat, offset: int, n: nat)
    requires WellFormed(fs) && n > 0 && i <= |fs| && (forall j :: 0 <= j < i ==> fs[j].End() < offset)
    requires i < |fs| ==> fs[i].offset > offset || offset <= fs[i].End() < offset + n
    ensures !Held(fs, offset, n)
  {
    forall k | i < k < |fs| && fs[k].offset <= offset
      ensures fs[k - 1].End() >= offset
    {
      assert fs[i].End() <= fs[k].offset;
    }
  }

  /** What is held was there before. */
  lemma {:induction false} HeldBytes(fs: seq<Fragment>, offset: int, n: nat, k: int)
    requires Held(fs, offset, n) && offset <= k < offset + n
    ensures At(fs, k).Some?
  {
    var i :| 0 <= i < |fs| && fs[i].offset <= offset && offset + n <= fs[i].End();
    AtSomewhere(fs, i, k);
  }

  // ----- A whole download -----

  datatype Block = Block(offset: int, data: seq<Byte>)

  /** The stored bytes are bytes of doc. */
  ghost predicate Agrees(fs: seq<Fragment>, doc: seq<Byte>) {
    forall k :: At(fs, k).Some? ==> 0 <= k < |doc| && At(fs, k).value == doc[k]
  }

  ghost predicate PartOf(b: Block, doc: seq<Byte>) {
    0 <= b.offset && b.offset + |b.data| <= |doc| && b.data == doc[b.offset..b.offset + |b.data|]
  }

  ghost predicate Covers(b: Block, k: int) {
    b.offset <= k < b.offset + |b.data|
  }

  /** The contents of an entry before and after each of a series of AddFragment calls. */
  ghost predicate StoreRun(states: seq<seq<Fragment>>, blocks: seq<Block>) {
    && |states| == |blocks| + 1
    && forall i :: 0 <= i < |blocks| ==> Stored(states[i + 1], states[i], blocks[i].offset, blocks[i].data)
  }

  /**
   * Blocks of one document, in any order and overlapping in any way, are never taken for a change of
   * the document: at the end the entry holds exactly the bytes it held before and those delivered.
   */
  lemma {:induction false} DownloadInAnyOrder(states: seq<seq<Fragment>>, blocks: seq<Block>, doc: seq<Byte>, k: int)
    requires StoreRun(states, blocks) && Agrees(states[0], doc)
    requires forall b :: b in blocks ==> PartOf(b, doc)
    ensures Agrees(states[|blocks|], doc)
    ensures At(states[|blocks|], k).Some? <==> At(states[0], k).Some? || exists b :: b in blocks && Covers(b, k)
  {
    if blocks != [] {
      var n := |blocks| - 1;
      var b := blocks[n];
      var before, after := states[n], states[n + 1];
      DownloadInAnyOrder(states[..n + 1], blocks[..n], doc, k);
      assert PartOf(b, doc) && blocks == blocks[..n] + [b];
      assert !Conflict(before, b.offset, b.data);
      assert forall j :: At(after, j) == Over(At(before, j), b.offset, b.data, j);
      forall j | At(after, j).Some?
        ensures 0 <= j < |doc| && At(after, j).value == doc[j]
      {
        if Covers(b, j) {
          assert b.data[j - b.offset] == doc[j];
        }
      }
      assert At(after, k).Some? <==> At(before, k).Some? || Covers(b, k);
    }
  }
}
