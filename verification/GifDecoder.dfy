// The GIF code-stream decoder itself (gif.c, init_table to accept_byte): a byte-driven machine over a
// table of links, proved to decode the dictionary-of-strings meaning of the stream into the picture.

module GifDecoder {
  import Basics
  import opened GifScreen
  import GifRaster
  import opened GifLzw
  import opened GifTable
  import GifBlocks

  class Decoder {
    const pointer: array<int>
    const endChar: array<nat>
    const garbage: array<nat>
    const raster: GifRaster.Raster
    var initialCodeSize: nat
    var codeSize: nat
    var firstCode: bool
    var lastCode: nat
    var clearCode: nat
    var endCode: nat
    var tablePos: nat
    var readCode: nat
    var bitsRead: nat

    /** Decoding is about to begin (lines 493-498). */
    constructor (raster: GifRaster.Raster, initialCodeSize: nat)
      requires 2 <= initialCodeSize <= 8 && (raster.endHit || Ready(raster.View()))
      ensures Safe() && At(Cleared(initialCodeSize), []) && bitsRead == 0
      ensures this.raster == raster && fresh(pointer) && fresh(endChar) && fresh(garbage)
    {
      this.raster, this.initialCodeSize := raster, initialCodeSize;
      pointer := new int[TABLE_SIZE](_ => 0);
      endChar := new nat[TABLE_SIZE](_ => 0);
      garbage := new nat[TABLE_SIZE](_ => 0);
      codeSize, firstCode, lastCode, clearCode, endCode, tablePos := initialCodeSize + 1, true, 0, 0, 0, 0;
      readCode, bitsRead := 0, 0;
      new;
      InitTable();
    }

    ghost predicate Ranged()
      reads this, pointer, raster, raster.rows
    {
      && pointer.Length == endChar.Length == garbage.Length == TABLE_SIZE
      && endChar != garbage
      && (raster.endHit || Ready(raster.View()))
      && 2 <= initialCodeSize <= 8
      && (forall c :: 0 <= c < TABLE_SIZE ==> UNUSED <= pointer[c] < TABLE_SIZE)
    }

    /** What holds whatever the stream contains. */
    ghost predicate Safe()
      reads this, pointer, raster, raster.rows
    {
      && Ranged() && initialCodeSize < codeSize <= MAX_WIDTH
      && tablePos <= TABLE_SIZE && lastCode < TABLE_SIZE
    }

    /** The table and the counters are those of state st, whose last code is `code`. */
    ghost predicate StandsWith(st: Lzw, code: int)
      reads `initialCodeSize, `codeSize, `tablePos, `clearCode, `endCode, `firstCode, pointer, endChar
    {
      && st.Sound() && st.status == Going
      && st.root == initialCodeSize && st.width == codeSize && st.Top() == tablePos
      && clearCode == st.ClearCode() && endCode == st.EndCode()
      && (firstCode <==> st.last.None?)
      && pointer.Length == endChar.Length == TABLE_SIZE
      && Represents(pointer[..], endChar[..], st, code)
    }

    /** The codes have been valid so far and the decoder stands at state st. */
    ghost predicate Stands(st: Lzw)
      reads this, pointer, endChar
    {
      StandsWith(st, lastCode)
    }

    /** The decoder stands at state st, with `rest` the bits not yet used. */
    ghost predicate At(st: Lzw, rest: seq<bool>)
      reads this, pointer, endChar
    {
      Stands(st) && bitsRead == |rest| && readCode == Num(rest)
    }

    /** Starts over with the root codes only (lines 98-122). */
    method InitTable()
      requires Ranged()
      modifies this`codeSize, this`firstCode, this`clearCode, this`endCode, this`tablePos, this`lastCode, pointer, endChar
      ensures Safe() && Stands(Cleared(initialCodeSize))
    {
      codeSize := initialCodeSize;
      firstCode := true;
      var i := FillTable();
      clearCode, endCode, tablePos := i, i + 1, i + 2;
      codeSize := codeSize + 1;
      lastCode := 0;
      ClearedSound(initialCodeSize);
    }

    /** The loops of that (lines 107-119). */
    method FillTable() returns (i: nat)
      requires codeSize <= 8 && pointer.Length == endChar.Length == TABLE_SIZE
      modifies pointer, endChar
      ensures i == Pow2(codeSize) && i + 2 <= TABLE_SIZE
      ensures forall c :: 0 <= c < TABLE_SIZE ==> pointer[c] == if c < i then ROOT else UNUSED
      ensures forall last: int :: Represents(pointer[..], endChar[..], Cleared(codeSize), last)
    {
      i := FillRoots();
      MarkUnused(i);
      Pow2Increases(codeSize, 8);
      Pow2Max();
      forall last: int
        ensures Represents(pointer[..], endChar[..], Cleared(codeSize), last)
      {
        FreshTable(pointer[..], endChar[..], codeSize, last);
      }
    }

    method FillRoots() returns (i: nat)
      requires codeSize <= 8 && pointer.Length == endChar.Length == TABLE_SIZE
      modifies pointer, endChar
      ensures i == Pow2(codeSize) <= TABLE_SIZE
      ensures forall c :: 0 <= c < i ==> pointer[c] == ROOT && endChar[c] == c
      ensures forall c :: i <= c < TABLE_SIZE ==> pointer[c] == old(pointer[c])
    {
      Pow2Increases(codeSize, 8);
      Pow2Max();
      i := 0;
      while i < Pow2(codeSize)
        invariant 0 <= i <= Pow2(codeSize)
        invariant forall c :: 0 <= c < i ==> pointer[c] == ROOT && endChar[c] == c
        invariant forall c :: i <= c < TABLE_SIZE ==> pointer[c] == old(pointer[c])
      {
        pointer[i], endChar[i] := ROOT, i;
        i := i + 1;
      }
    }

    method MarkUnused(from: nat)
      requires from <= pointer.Length == TABLE_SIZE
      modifies pointer
      ensures forall c :: 0 <= c < from ==> pointer[c] == old(pointer[c])
      ensures forall c :: from <= c < TABLE_SIZE ==> pointer[c] == UNUSED
    {
      var i := from;
      while i < TABLE_SIZE
        invariant from <= i <= TABLE_SIZE
        invariant forall c :: 0 <= c < from ==> pointer[c] == old(pointer[c])
        invariant forall c :: from <= c < i ==> pointer[c] == UNUSED
      {
        pointer[i] := UNUSED;
        i := i + 1;
      }
    }

    /** The first index of the string of a code (lines 193-208). */
    method FindFirst(c0: nat, ghost cc: nat, ghost top: nat) returns (k: nat)
      requires Safe() && c0 < TABLE_SIZE
      ensures Linked(pointer[..], endChar[..], cc, top) && InUse(c0, cc, top) ==>
                k == Str(pointer[..], endChar[..], cc, top, c0)[0]
    {
      var c, i := c0, 0;
      ghost var ptr, end := pointer[..], endChar[..];
      while i < TABLE_SIZE
        invariant 0 <= i && 0 <= c < TABLE_SIZE
        invariant Linked(ptr, end, cc, top) && InUse(c0, cc, top) ==>
                    && InUse(c, cc, top) && c + i <= c0
                    && Str(ptr, end, cc, top, c)[0] == Str(ptr, end, cc, top, c0)[0]
      {
        var p := pointer[c];
        if p == ROOT {
          break;
        }
        if p < ROOT || p >= TABLE_SIZE {
          return 0;
        }
        c, i := p, i + 1;
      }
      return endChar[c];
    }

    /** Unwinds the string of a code into `garbage`, last index first (lines 221-231). */
    method Unwind(c0: nat, ghost cc: nat, ghost top: nat) returns (pos: nat)
      requires Safe() && c0 < TABLE_SIZE && !raster.endHit
      modifies garbage, raster`endHit
      ensures pos <= TABLE_SIZE
      ensures Linked(pointer[..], endChar[..], cc, top) && InUse(c0, cc, top) ==>
                !raster.endHit && Reverse(garbage[..pos]) == Str(pointer[..], endChar[..], cc, top, c0)
    {
      ghost var ptr, end := pointer[..], endChar[..];
      ghost var sound := Linked(ptr, end, cc, top) && InUse(c0, cc, top);
      var c := c0;
      pos := 0;
      if sound {
        UnwindStart(ptr, end, cc, top, c0);
      }
      assert garbage[..0] == [];
      while true
        invariant 0 <= pos <= TABLE_SIZE && 0 <= c < TABLE_SIZE && !raster.endHit
        invariant pointer[..] == ptr && endChar[..] == end
        invariant sound ==> Unwinding(ptr, end, cc, top, c0, c, garbage[..pos])
        decreases TABLE_SIZE - pos
      {
        if pos == TABLE_SIZE {
          raster.endHit := true;
          return;
        }
        if sound {
          UnwindStep(ptr, end, cc, top, c0, c, garbage[..pos]);
        }
        ghost var aside := garbage[..pos];
        garbage[pos] := endChar[c];
        pos := pos + 1;
        assert garbage[..pos] == aside + [end[c]];
        if pointer[c] < 0 {
          break;
        }
        c := pointer[c];
      }
    }

    /** Delivers the string of a code to the picture (lines 214-237). */
    method OutputString(c: nat, ghost cc: nat, ghost top: nat)
      requires Safe() && c < TABLE_SIZE && !raster.endHit
      modifies garbage, raster, raster.rows
      ensures Safe()
      ensures Linked(pointer[..], endChar[..], cc, top) && InUse(c, cc, top) ==>
                raster.View() == Feed(old(raster.View()), Str(pointer[..], endChar[..], cc, top, c))
    {
      ghost var start := raster.View();
      var pos := Unwind(c, cc, top);
      if raster.endHit {
        return;
      }
      assert raster.View() == start;
      ghost var s := Reverse(garbage[..pos]);
      while pos > 0
        invariant pos <= TABLE_SIZE && Safe() && !raster.endHit
        invariant Feed(raster.View(), Reverse(garbage[..pos])) == Feed(start, s)
      {
        pos := pos - 1;
        ghost var before := raster.View();
        assert garbage[..pos + 1][..pos] == garbage[..pos];
        PutReady(before, garbage[pos]);
        raster.OutputPixel(garbage[pos]);
        if raster.endHit {
          return;
        }
      }
    }

    /** Enters a string into the table and widens the codes when it fills (lines 245-260). */
    method AddTable(end: nat, ptr: nat)
      requires Safe() && ptr < TABLE_SIZE && !raster.endHit
      modifies this`tablePos, this`codeSize, pointer, endChar, raster`endHit
      ensures Safe()
      ensures if old(tablePos) >= TABLE_SIZE then
                raster.endHit && tablePos == old(tablePos) && codeSize == old(codeSize)
                && pointer[..] == old(pointer[..]) && endChar[..] == old(endChar[..])
              else
                !raster.endHit && tablePos == old(tablePos) + 1 && codeSize == NextWidth(old(codeSize), tablePos)
                && pointer[..] == old(pointer[..])[old(tablePos) := ptr]
                && endChar[..] == old(endChar[..])[old(tablePos) := end]
    {
      if tablePos >= TABLE_SIZE {
        raster.endHit := true;
        return;
      }
      endChar[tablePos] := end;
      pointer[tablePos] := ptr;
      tablePos := tablePos + 1;
      if tablePos == Pow2(codeSize) && codeSize != 12 {
        codeSize := codeSize + 1;
      }
    }

    /** What one code has done: the picture has received its string, or the picture has ended. */
    ghost predicate Done(r: (Lzw, seq<nat>), before: Screen)
      requires before.ended || Ready(before)
      reads this, pointer, endChar, raster, raster.rows
    {
      match r.0.status
      case Going => raster.View() == Feed(before, r.1) && (raster.endHit || Stands(r.0))
      case Ended => raster.View() == before.(ended := true)
      case Full => raster.View() == before.(ended := true)
      case Invalid => true
    }

    /** The first code after a clear code (lines 285-294). */
    method AcceptFirst(c: nat, ghost st: Lzw)
      requires Safe() && !raster.endHit && c < TABLE_SIZE && firstCode
      requires c != clearCode && c != endCode
      modifies this`firstCode, this`lastCode, garbage, raster, raster.rows
      ensures Safe() && (old(Stands(st)) ==> Done(Step(st, c), old(raster.View())))
    {
      if c < st.ClearCode() && Stands(st) {
        FirstEntry(pointer[..], endChar[..], st, lastCode, c);
        StepSound(st, c);
      }
      firstCode := false;
      Emit(c, st.(last := Basics.Some([c])));
    }

    /** A data code that continues a valid stream. */
    ghost predicate Continues(st: Lzw, c: nat)
      reads this, pointer, endChar
    {
      Stands(st) && st.last.Some? && c <= st.Top() && c != st.ClearCode() && c != st.EndCode()
    }

    /** The first index of the current string, even if its code is just being learnt (lines 296-305). */
    method FirstOfCurrent(c: nat, ghost st: Lzw) returns (k: nat)
      requires Safe() && c < TABLE_SIZE
      ensures Continues(st, c) ==> k == Current(st, c)[0]
    {
      if Continues(st, c) {
        if st.Known(c) {
          MeaningIsStr(pointer[..], endChar[..], st, lastCode, c);
        }
      }
      if c >= tablePos {
        k := FindFirst(lastCode, st.ClearCode(), st.Top());
      } else {
        k := FindFirst(c, st.ClearCode(), st.Top());
      }
    }

    /** Learns a string from the current code (lines 296-308). */
    method Learn(c: nat, ghost st: Lzw)
      requires Safe() && !raster.endHit && c < TABLE_SIZE
      modifies this`tablePos, this`codeSize, pointer, endChar, raster`endHit
      ensures Safe() && raster.View() == old(raster.View()).(ended := raster.endHit)
      ensures old(Continues(st, c)) ==>
                if st.Top() >= TABLE_SIZE then raster.endHit
                else !raster.endHit && StandsWith(Learnt(st, Current(st, c)), c)
    {
      var k := FirstOfCurrent(c, st);
      ghost var ptr, end := pointer[..], endChar[..];
      if Continues(st, c) && st.Top() < TABLE_SIZE {
        LearntEntry(ptr, end, st, lastCode, c, Current(st, c));
        StepSound(st, c);
        assert Step(st, c).0 == Learnt(st, Current(st, c));
      }
      AddTable(k, lastCode);
    }

    /** Delivers the string of a code and makes it the last one (lines 290-292 and 311-313). */
    method Emit(c: nat, ghost u: Lzw)
      requires Safe() && !raster.endHit && c < TABLE_SIZE
      modifies this`lastCode, garbage, raster, raster.rows
      ensures Safe()
      ensures u.last.Some? && Represents(pointer[..], endChar[..], u, c) ==> raster.View() == Feed(old(raster.View()), u.last.value)
      ensures !raster.endHit ==> lastCode == c
    {
      OutputString(c, u.ClearCode(), u.Top());
      if raster.endHit {
        return;
      }
      lastCode := c;
    }

    /** Any later code (lines 296-313). */
    method AcceptNext(c: nat, ghost st: Lzw)
      requires Safe() && !raster.endHit && c < TABLE_SIZE && !firstCode
      requires c != clearCode && c != endCode
      modifies this`tablePos, this`codeSize, this`lastCode, pointer, endChar, garbage, raster, raster.rows
      ensures Safe() && (old(Stands(st)) ==> Done(Step(st, c), old(raster.View())))
    {
      ghost var valid := Continues(st, c);
      ghost var u := if valid then Learnt(st, Current(st, c)) else st;
      Learn(c, st);
      if raster.endHit {
        return;
      }
      Emit(c, u);
    }

    /** One code word (lines 267-314). */
    method AcceptCode(c: nat, ghost st: Lzw)
      requires Safe() && !raster.endHit && c < TABLE_SIZE
      modifies this`tablePos, this`codeSize, this`firstCode, this`lastCode, this`clearCode, this`endCode
      modifies pointer, endChar, garbage, raster, raster.rows
      ensures Safe() && (old(Stands(st)) ==> Done(Step(st, c), old(raster.View())))
    {
      if c == clearCode {
        InitTable();
        return;
      }
      if c == endCode {
        raster.endHit := true;
        return;
      }
      if firstCode {
        AcceptFirst(c, st);
      } else {
        AcceptNext(c, st);
      }
    }

    /** What decoding d has done to a picture, and where it has left the decoder. */
    ghost predicate Progressed(d: Decoded, before: Screen)
      requires before.ended || Ready(before)
      reads this, pointer, endChar, raster, raster.rows
    {
      GifBlocks.Determined(before, d) ==>
        raster.View() == GifBlocks.Outcome(before, d) && (raster.endHit || (d.st.status == Going && At(d.st, d.rest)))
    }

    /** Takes the code just decoded off the bits collected (lines 336-337). */
    method DropCode(n: nat, ghost bits: seq<bool>)
      requires n <= bitsRead && n <= |bits|
      modifies this`readCode, this`bitsRead
      ensures bitsRead == old(bitsRead) - n
      ensures old(bitsRead) == |bits| && old(readCode) == Num(bits) ==>
                bitsRead == |bits[n..]| && readCode == Num(bits[n..])
    {
      assert bits == bits[..n] + bits[n..];
      NumSplit(bits[..n], bits[n..]);
      QuotientNat(readCode, Pow2(n));
      readCode := readCode / Pow2(n);
      bitsRead := bitsRead - n;
    }

    /** Takes the next code off the bits collected and decodes it (lines 332-337). */
    method TakeCode(ghost st: Lzw, ghost bits: seq<bool>, ghost r: (Lzw, seq<nat>))
      requires Safe() && !raster.endHit && bitsRead >= codeSize
      requires At(st, bits) ==> r == Step(st, Num(bits[..codeSize])) && Num(bits) % Pow2(codeSize) == Num(bits[..codeSize])
      modifies this, pointer, endChar, garbage, raster, raster.rows
      ensures Safe() && initialCodeSize == old(initialCodeSize)
      ensures !raster.endHit ==> bitsRead == old(bitsRead) - old(codeSize)
      ensures old(At(st, bits)) ==> Done(r, old(raster.View()))
      ensures old(At(st, bits)) && !raster.endHit && r.0.status == Going ==> At(r.0, bits[old(codeSize)..])
    {
      var originalCodeSize := codeSize;
      Pow2Increases(codeSize, MAX_WIDTH);
      Pow2Max();
      ghost var taken := if At(st, bits) then bits else seq(bitsRead, _ => false);
      AcceptCode(readCode % Pow2(codeSize), st);
      if raster.endHit {
        return;
      }
      DropCode(originalCodeSize, taken);
    }

    /** Between two codes: what is still to be decoded, after `sofar`, makes up the goal. */
    ghost predicate Midway(goal: Decoded, cur: Lzw, left: seq<bool>, sofar: seq<nat>, before: Screen)
      requires before.ended || Ready(before)
      reads this, pointer, endChar, raster, raster.rows
    {
      At(cur, left) && goal == Run(cur, left).After(sofar) && raster.View() == Feed(before, sofar)
    }

    /** One code further. Once the picture has ended the rest of the goal no longer matters. */
    lemma {:induction false} CodeTaken(goal: Decoded, sofar: seq<nat>, before: Screen, r: (Lzw, seq<nat>), more: seq<bool>)
      requires (before.ended || Ready(before)) && !Feed(before, sofar).ended
      requires GifBlocks.Leads(goal, sofar, Decoded(r.0, more, r.1), []) && (r.0.status != Going ==> r.1 == [])
      requires Done(r, Feed(before, sofar)) && (raster.endHit || r.0.status != Going || At(r.0, more))
      ensures goal == Run(r.0, more).After(sofar + r.1)
      ensures r.0.status == Going ==> raster.View() == Feed(before, sofar + r.1)
      ensures raster.endHit ==> Progressed(goal, before)
      ensures !raster.endHit && r.0.status != Going ==> !GifBlocks.Determined(before, goal)
    {
      var d := Decoded(r.0, more, r.1);
      assert more + [] == more;
      AfterAfter(sofar, r.1, Run(r.0, more));
      FeedConcat(before, sofar, r.1);
      if r.0.status == Invalid {
        GifBlocks.EarlyInvalid(before, goal, sofar, d, []);
      } else {
        assert raster.View() == GifBlocks.Outcome(Feed(before, sofar), d);
        if raster.endHit {
          GifBlocks.EarlyEnd(before, goal, sofar, d, []);
        }
      }
    }

    /** One round of the loop over the bits collected. */
    method Advance(ghost goal: Decoded, ghost cur: Lzw, ghost left: seq<bool>, ghost sofar: seq<nat>, ghost before: Screen)
      returns (ghost cur': Lzw, ghost left': seq<bool>, ghost sofar': seq<nat>)
      requires Safe() && !raster.endHit && bitsRead >= codeSize && (before.ended || Ready(before))
      modifies this, pointer, endChar, garbage, raster, raster.rows
      ensures Safe() && initialCodeSize == old(initialCodeSize)
      ensures !raster.endHit ==> bitsRead == old(bitsRead) - old(codeSize)
      ensures old(Midway(goal, cur, left, sofar, before)) ==>
                if raster.endHit then Progressed(goal, before)
                else if cur'.status == Going then Midway(goal, cur', left', sofar', before)
                else !GifBlocks.Determined(before, goal)
    {
      ghost var valid := Midway(goal, cur, left, sofar, before);
      ghost var r: (Lzw, seq<nat>), more: seq<bool> := (cur, []), [];
      if At(cur, left) {
        NextCode(cur, left);
        r, more := Step(cur, Num(left[..codeSize])), left[codeSize..];
      }
      TakeCode(cur, left, r);
      if valid {
        assert more + [] == more;
        CodeTaken(goal, sofar, before, r, more);
      }
      cur', left', sofar' := r.0, more, sofar + r.1;
    }

    /** Puts a byte on top of the bits collected (lines 328-329). */
    method CollectByte(c: nat, ghost rest: seq<bool>)
      requires c < 256
      modifies this`readCode, this`bitsRead
      ensures bitsRead == old(bitsRead) + 8
      ensures old(bitsRead) == |rest| && old(readCode) == Num(rest) ==>
                bitsRead == |rest + Bits(c, 8)| && readCode == Num(rest + Bits(c, 8))
    {
      Pow2Max();
      NumBits(c, 8);
      NumConcat(rest, Bits(c, 8));
      ProductNat(Pow2(bitsRead), c);
      readCode := readCode + Pow2(bitsRead) * c;
      bitsRead := bitsRead + 8;
    }

    /** One byte of the code stream (lines 322-339). */
    method AcceptByte(c: nat, ghost st: Lzw, ghost rest: seq<bool>)
      requires Safe() && !raster.endHit && c < 256
      modifies this, pointer, endChar, garbage, raster, raster.rows
      ensures Safe() && initialCodeSize == old(initialCodeSize)
      ensures !raster.endHit ==> bitsRead < codeSize
      ensures old(At(st, rest)) ==> Progressed(Run(st, rest + Bits(c, 8)), old(raster.View()))
    {
      ghost var before, valid := raster.View(), At(st, rest);
      ghost var goal := if valid then Run(st, rest + Bits(c, 8)) else Decoded(st, rest, []);
      CollectByte(c, rest);
      AfterNothing(goal);
      assert valid ==> Midway(goal, st, rest + Bits(c, 8), [], before);
      DecodeCollected(goal, st, rest + Bits(c, 8), before);
    }

    /** As many codes as the bits collected hold (lines 330-338). */
    method DecodeCollected(ghost goal: Decoded, ghost st: Lzw, ghost bits: seq<bool>, ghost before: Screen)
      requires Safe() && !raster.endHit && (before.ended || Ready(before))
      modifies this, pointer, endChar, garbage, raster, raster.rows
      ensures Safe() && initialCodeSize == old(initialCodeSize)
      ensures !raster.endHit ==> bitsRead < codeSize
      ensures old(Midway(goal, st, bits, [], before)) ==> Progressed(goal, before)
    {
      ghost var valid := Midway(goal, st, bits, [], before);
      ghost var cur, left, sofar := st, bits, [];
      while bitsRead >= codeSize
        invariant Safe() && !raster.endHit && initialCodeSize == old(initialCodeSize)
        invariant valid ==> Midway(goal, cur, left, sofar, before)
        invariant old(Midway(goal, st, bits, [], before)) ==> valid || !GifBlocks.Determined(before, goal)
        decreases bitsRead
      {
        cur, left, sofar := Advance(goal, cur, left, sofar, before);
        if raster.endHit {
          return;
        }
        valid := valid && cur.status == Going;
      }
      if valid {
        assert sofar + [] == sofar;
      }
    }
  }
}
