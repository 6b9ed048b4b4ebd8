// The chunked-body decoder (http.c, is_line_in_buffer and read_http_data): it works on whatever the
// network has put into the read buffer so far, and leaves there what it cannot use yet.

module ChunkedReader {
  import opened Basics
  import opened Chunked
  import ChunkedBody
  import opened ChunkedDelivery
  import opened ChunkSize

  /** The first k bytes are a line, and with its end it takes l. */
  predicate LineOf(s: seq<Byte>, k: nat, l: int) {
    && k < l <= |s| && Plain(s[..k])
    && ((l == k + 1 && s[k] == LF) || (l == k + 2 && s[k] == CR && s[k + 1] == LF))
  }

  /** No line yet: at most a carriage return ends what is there. */
  predicate NoLineYet(s: seq<Byte>, k: nat) {
    k <= |s| && Plain(s[..k]) && (k == |s| || (k == |s| - 1 && s[k] == CR))
  }

  /** A control character where a line should go on or end. */
  predicate BadLine(s: seq<Byte>, k: nat) {
    && k < |s| && Plain(s[..k]) && s[k] < 32 && s[k] != LF
    && (s[k] == CR ==> k + 1 < |s| && s[k + 1] != LF)
  }

  /** The first control character decides: a line, none yet, or a bad one, and only one of these. */
  lemma OneOutcome(s: seq<Byte>, k: nat)
    requires k <= |s| && Plain(s[..k]) && (k < |s| ==> s[k] < 32)
    ensures forall j: nat, l :: LineOf(s, j, l) ==> j == k
    ensures forall j: nat :: NoLineYet(s, j) || BadLine(s, j) ==> j == k
  {
  }

  /** The phase before the first byte of the buffer. */
  function PhaseOf(remaining: int): Phase
    requires remaining >= -2
  {
    if remaining == -2 then Line(true, [], false)
    else if remaining == -1 then Line(false, [], false)
    else if remaining == 0 then ChunkEnd(false)
    else Data(remaining)
  }

  /** A whole line that is not a blank size line. */
  lemma {:induction false} LineTaken(b: Body, s: seq<Byte>, k: nat, l: int, mem: Memory, max: nat)
    requires b.verdict == Reading && b.phase.Line? && b.phase.text == [] && !b.phase.cr && LineOf(s, k, l)
    requires b.phase.trailer || !Blank(s[..k])
    ensures RunIn(b, s, mem, max) == RunIn(LineDone(b, b.phase.trailer, s[..k], l), s[l..], mem, max)
  {
    var text, nl := s[..k], s[k..l];
    assert s == (text + nl) + s[l..];
    RunLine(b, text, nl, max);
    RunInConcat(b, text + nl, s[l..], mem, max);
  }

  /** A blank size line: the size is read from what follows it. */
  lemma {:induction false} BlankTaken(b: Body, s: seq<Byte>, k: nat, l: int, mem: Memory, max: nat)
    requires b.verdict == Reading && b.phase == Line(false, [], false) && LineOf(s, k, l) && Blank(s[..k])
    ensures RunIn(b, s, mem, max) == RunIn(SizeRead(b, Strtol(s[l..] + Behind(mem, |s| - l))), s[l..], mem, max)
  {
    assert s == s[..l - 1] + ([LF] + s[l..]);
    LineBegun(b, s, k, l, max);
    RunInConcat(b, s[..l - 1], [LF] + s[l..], mem, max);
    BlankEnds(b, s[..k], l == k + 2, s[l..], mem, max);
  }

  lemma {:induction false} BlankEnds(b: Body, text: seq<Byte>, cr: bool, rest: seq<Byte>, mem: Memory, max: nat)
    requires b.verdict == Reading && b.phase == Line(false, [], false) && Blank(text)
    ensures RunIn(b.(phase := Line(false, text, cr)), [LF] + rest, mem, max)
            == RunIn(SizeRead(b, Strtol(rest + Behind(mem, |rest|))), rest, mem, max)
  {
    assert ([LF] + rest)[1..] == rest;
  }

  lemma {:induction false} StrtolFromLine(s: seq<Byte>, k: nat, l: int, ahead: seq<Byte>)
    requires LineOf(s, k, l)
    ensures Strtol(s + ahead) == if Blank(s[..k]) then Strtol(s[l..] + ahead) else Strtol(s[..k])
  {
    if Blank(s[..k]) {
      assert s + ahead == s[..l] + (s[l..] + ahead);
      assert forall i :: 0 <= i < k ==> s[i] == s[..k][i];
      StrtolPastBlank(s[..l], s[l..] + ahead);
    } else {
      assert s + ahead == s[..k] + (s[k..] + ahead);
      StrtolStop(s[..k], s[k..] + ahead);
    }
  }

  lemma {:induction false} LineBegun(b: Body, s: seq<Byte>, k: nat, l: int, max: nat)
    requires b.verdict == Reading && b.phase == Line(false, [], false) && LineOf(s, k, l)
    ensures Run(b, s[..l - 1], max) == b.(phase := Line(false, s[..k], l == k + 2))
  {
    RunPlain(b, s[..k], max);
    assert b.phase.text + s[..k] == s[..k];
    if l == k + 2 {
      assert s[..l - 1] == s[..k] + [CR];
      RunSnoc(b, s[..k], CR, max);
    }
  }

  /** What strtol makes of a size line is what reading byte by byte makes of it: it reads on past a blank one. */
  lemma {:induction false} SizeTaken(b: Body, s: seq<Byte>, k: nat, l: int, mem: Memory, max: nat)
    requires b.verdict == Reading && b.phase == Line(false, [], false) && LineOf(s, k, l)
    ensures RunIn(b, s, mem, max) == RunIn(SizeRead(b, Strtol(s + Behind(mem, |s| - l))), s[l..], mem, max)
  {
    StrtolFromLine(s, k, l, Behind(mem, |s| - l));
    if Blank(s[..k]) {
      BlankTaken(b, s, k, l, mem, max);
    } else {
      LineTaken(b, s, k, l, mem, max);
    }
  }

  lemma {:induction false} LineWaits(b: Body, s: seq<Byte>, k: nat, mem: Memory, max: nat)
    requires b.verdict == Reading && b.phase.Line? && b.phase.text == [] && !b.phase.cr && NoLineYet(s, k)
    ensures RunIn(b, s, mem, max) == Run(b, s, max) == b.(phase := Run(b, s, max).phase)
  {
    RunPlain(b, s[..k], max);
    if k < |s| {
      assert s == s[..k] + [CR];
      RunSnoc(b, s[..k], CR, max);
    } else {
      assert s[..k] == s;
    }
    RunInSame(b, s, mem, max);
  }

  lemma {:induction false} LineFails(b: Body, s: seq<Byte>, k: nat, mem: Memory, max: nat)
    requires b.verdict == Reading && b.phase.Line? && b.phase.text == [] && !b.phase.cr && BadLine(s, k)
    ensures RunIn(b, s, mem, max) == b.(phase := RunIn(b, s, mem, max).phase, verdict := HttpError)
  {
    RunPlain(b, s[..k], max);
    assert s == s[..k] + ([s[k]] + s[k + 1..]);
    RunConcat(b, s[..k], [s[k]] + s[k + 1..], max);
    var u := Run(b, s[..k], max);
    RunConcat(u, [s[k]], s[k + 1..], max);
    RunOne(u, s[k], max);
    var v := Next(u, s[k], max);
    if s[k] == CR {
      assert s[k + 1..][0] == s[k + 1];
      RunOver(Next(v, s[k + 1], max), s[k + 1..][1..], max);
    } else {
      RunOver(v, s[k + 1..], max);
    }
    RunInSame(b, s, mem, max);
  }

  /** As much of the chunk as the buffer holds. */
  lemma DataTaken(b: Body, s: seq<Byte>, l: nat, mem: Memory, max: nat)
    requires b.verdict == Reading && l <= |s|
    requires if b.phase.Data? then l <= b.phase.left && 0 < b.phase.left else l == 0
    requires b.from + l <= max || l == 0
    ensures RunIn(b, s, mem, max) ==
              RunIn(Body(if b.phase.Data? then (if l == b.phase.left then ChunkEnd(false) else Data(b.phase.left - l)) else b.phase,
                         b.from + l, b.stored + s[..l], Reading), s[l..], mem, max)
  {
    assert s == s[..l] + s[l..];
    if l == 0 {
      assert s[..l] == [] && b.stored + [] == b.stored && s[l..] == s;
    } else {
      RunData(b, s[..l], max);
      RunInConcat(b, s[..l], s[l..], mem, max);
    }
  }

  /** Too much for the largest offset: reading byte by byte stores what fits before it notices. */
  lemma {:induction false} DataTooLarge(b: Body, s: seq<Byte>, l: nat, mem: Memory, max: nat)
    requires b.verdict == Reading && b.phase.Data? && l <= |s| && l <= b.phase.left && b.from + l > max >= b.from
    ensures var r := RunIn(b, s, mem, max); r.verdict == LargeFile && r.from == max && r.stored == b.stored + s[..max - b.from]
  {
    assert s == s[..l] + s[l..];
    RunConcat(b, s[..l], s[l..], max);
    RunTooLarge(b, s[..l], max);
    RunOver(Run(b, s[..l], max), s[l..], max);
    RunInSame(b, s, mem, max);
    assert s[..l][..max - b.from] == s[..max - b.from];
  }

  /** After the last byte of a chunk: a line feed, with or without a carriage return before it. */
  lemma {:induction false} ChunkEndTaken(b: Body, s: seq<Byte>, mem: Memory, max: nat)
    requires b.verdict == Reading && b.phase == ChunkEnd(false) && s != []
    ensures s[0] == LF ==> RunIn(b, s, mem, max) == RunIn(b.(phase := Line(false, [], false)), s[1..], mem, max)
    ensures s == [CR] ==> RunIn(b, s, mem, max) == Run(b, s, max) == b.(phase := ChunkEnd(true))
    ensures s[0] == CR && |s| >= 2 && s[1] == LF ==>
              RunIn(b, s, mem, max) == RunIn(b.(phase := Line(false, [], false)), s[2..], mem, max)
    ensures s[0] != LF && (s[0] != CR || (|s| >= 2 && s[1] != LF)) ==>
              RunIn(b, s, mem, max) == b.(phase := RunIn(b, s, mem, max).phase, verdict := HttpError)
  {
    var u := Next(b, s[0], max);
    if s[0] == CR {
      if |s| >= 2 {
        assert s[1..][0] == s[1] && s[1..][1..] == s[2..];
        if s[1] != LF {
          RunInOver(Next(u, s[1], max), s[2..], mem, max);
        }
      }
    } else if s[0] != LF {
      RunInOver(u, s[1..], mem, max);
    }
  }

  class Reader {
    /** The largest file offset. */
    const max: nat
    /** The source's chunk_remaining: -2 in the trailer, -1 before a size line. */
    var remaining: int
    var from: nat
    /** The read buffer. */
    var data: seq<Byte>
    /** The bytes handed to the cache, at consecutive offsets up to `from`. */
    var stored: seq<Byte>
    var verdict: Verdict

    constructor (from: nat, max: nat)
      requires from <= max
      ensures this.max == max && remaining == -1 && this.from == from && data == [] && stored == [] && verdict == Reading
    {
      this.max, this.from := max, from;
      remaining, data, stored, verdict := -1, [], [], Reading;
    }

    ghost predicate Valid()
      reads this
    {
      remaining >= -2 && from <= max
    }

    /** What has been read before the buffer. */
    ghost function Base(): Body
      requires Valid()
      reads this
    {
      Body(PhaseOf(remaining), from, stored, Reading)
    }

    /** Reading the buffer from here gives `goal`. */
    ghost predicate Leads(goal: Body, mem: Memory)
      reads this
    {
      Valid() && goal == RunIn(Base(), data, mem, max)
    }

    /** The buffer holds only what more bytes are needed for. */
    ghost predicate Waits(goal: Body)
      reads this
    {
      Valid() && goal.verdict == Reading && goal == Run(Base(), data, max)
    }

    /** The decoder has come to what the delivery gives. Of a file too large the bytes that would fit stay in the buffer. */
    ghost predicate Agrees(goal: Body)
      reads this
    {
      && verdict == goal.verdict
      && (verdict != LargeFile ==> stored == goal.stored && from == goal.from)
      && (verdict == LargeFile ==> 0 <= max - from <= |data| && goal.stored == stored + data[..max - from] && goal.from == max)
    }

    /** All has been done with the buffer that can be done. */
    ghost predicate Done(goal: Body)
      reads this
    {
      Agrees(goal) && (verdict == Reading ==> Waits(goal))
    }

    /** Looks for the end of a line (http.c lines 442-452). */
    method IsLineInBuffer() returns (l: int)
      ensures l > 0 <==> exists k: nat :: LineOf(data, k, l)
      ensures l == 0 <==> exists k: nat :: NoLineYet(data, k)
      ensures l < 0 <==> l == -1 && exists k: nat :: BadLine(data, k)
    {
      l := 0;
      while l < |data|
        invariant 0 <= l <= |data| && Plain(data[..l])
      {
        if data[l] == LF {
          OneOutcome(data, l);
          assert LineOf(data, l, l + 1);
          return l + 1;
        }
        if l < |data| - 1 && data[l] == CR && data[l + 1] == LF {
          OneOutcome(data, l);
          assert LineOf(data, l, l + 2);
          return l + 2;
        }
        if l == |data| - 1 && data[l] == CR {
          OneOutcome(data, l);
          assert NoLineYet(data, l);
          return 0;
        }
        if data[l] < 32 {
          OneOutcome(data, l);
          assert BadLine(data, l);
          return -1;
        }
        assert data[..l + 1] == data[..l] + [data[l]];
        l := l + 1;
      }
      OneOutcome(data, l);
      assert NoLineYet(data, l);
      return 0;
    }

    /** Takes n bytes off the front of the buffer (connect.c, lines 418-427). */
    method KillBufferData(n: nat)
      requires n <= |data|
      modifies this`data
      ensures data == old(data)[n..]
    {
      data := data[n..];
    }

    /** In the trailer (lines 483-498). */
    method TrailerRound(ghost mem: Memory, ghost goal: Body) returns (again: bool)
      requires Valid() && remaining == -2 && verdict == Reading && Leads(goal, mem)
      modifies this
      ensures Valid() && (again ==> |data| < |old(data)| && verdict == Reading)
      ensures if again then Leads(goal, mem) else Done(goal)
    {
      var l := IsLineInBuffer();
      if l != 0 {
        if l == -1 {
          ghost var k: nat :| BadLine(data, k);
          LineFails(Base(), data, k, mem, max);
          verdict := HttpError;
          return false;
        }
        ghost var k: nat :| LineOf(data, k, l);
        LineTaken(Base(), data, k, l, mem, max);
        KillBufferData(l);
        if l <= 2 {
          RunInOver(Base().(verdict := Finished), data, mem, max);
          verdict := Finished;
          return false;
        }
        return true;
      }
      ghost var k: nat :| NoLineYet(data, k);
      LineWaits(Base(), data, k, mem, max);
      return false;
    }

    /** Before a size line (lines 499-513). */
    method SizeRound(mem: Memory, ghost goal: Body) returns (again: bool)
      requires Valid() && remaining == -1 && verdict == Reading && Leads(goal, mem)
      modifies this
      ensures Valid() && (again ==> |data| < |old(data)| && verdict == Reading)
      ensures if again then Leads(goal, mem) else Done(goal)
    {
      var l := IsLineInBuffer();
      if l == 0 {
        ghost var k: nat :| NoLineYet(data, k);
        LineWaits(Base(), data, k, mem, max);
        return false;
      }
      if l == -1 {
        ghost var k: nat :| BadLine(data, k);
        LineFails(Base(), data, k, mem, max);
        verdict := HttpError;
        return false;
      }
      ghost var k: nat :| LineOf(data, k, l);
      var size := Strtol(data + Behind(mem, |data| - l));
      SizeTaken(Base(), data, k, l, mem, max);
      if size.None? || size.value < 0 || size.value >= MAX_INT {
        RunInOver(SizeRead(Base(), size), data[l..], mem, max);
        verdict := HttpError;
        return false;
      }
      KillBufferData(l);
      remaining := size.value;
      if remaining == 0 {
        remaining := -2;
      }
      return true;
    }

    /** Hands a piece of the chunk to the cache (lines 515-526). */
    method TakeData(ghost mem: Memory, ghost goal: Body) returns (ok: bool)
      requires Valid() && remaining >= 0 && verdict == Reading && Leads(goal, mem)
      modifies this
      ensures Valid() && remaining >= 0 && |data| <= |old(data)| && (ok <==> verdict == Reading)
      ensures ok ==> Leads(goal, mem) && (remaining > 0 ==> data == [])
      ensures !ok ==> Agrees(goal)
    {
      var l := remaining;
      if l > |data| {
        l := |data|;
      }
      if from + l > max {
        DataTooLarge(Base(), data, l, mem, max);
        verdict := LargeFile;
        return false;
      }
      DataTaken(Base(), data, l, mem, max);
      stored := stored + data[..l];
      remaining := remaining - l;
      from := from + l;
      KillBufferData(l);
      return true;
    }

    /** In a chunk or right after it (lines 514-540). */
    method ChunkRound(ghost mem: Memory, ghost goal: Body) returns (again: bool)
      requires Valid() && remaining >= 0 && verdict == Reading && Leads(goal, mem)
      modifies this
      ensures Valid() && (again ==> |data| < |old(data)| && verdict == Reading)
      ensures if again then Leads(goal, mem) else Done(goal)
    {
      var ok := TakeData(mem, goal);
      if !ok {
        return false;
      }
      if remaining == 0 && |data| >= 1 {
        ChunkEndTaken(Base(), data, mem, max);
        if data[0] == LF {
          KillBufferData(1);
        } else {
          if data[0] != CR || (|data| >= 2 && data[1] != LF) {
            verdict := HttpError;
            return false;
          }
          if |data| < 2 {
            return false;
          }
          KillBufferData(2);
        }
        remaining := -1;
        return true;
      }
      return false;
    }

    /** All that can be done with the buffer (lines 482-545). Every round makes the buffer shorter. */
    method ReadHttpData(mem: Memory, ghost goal: Body)
      requires Valid() && verdict == Reading && Leads(goal, mem)
      modifies this
      ensures Valid() && Done(goal)
    {
      var again := true;
      while again
        invariant Valid() && (again ==> verdict == Reading && Leads(goal, mem))
        invariant !again ==> Done(goal)
        decreases again, |data|
      {
        if remaining == -2 {
          again := TrailerRound(mem, goal);
        } else if remaining == -1 {
          again := SizeRound(mem, goal);
        } else {
          again := ChunkRound(mem, goal);
        }
      }
    }

    /** The socket has delivered some bytes (connect.c, lines 396-398). */
    method Receive(bytes: seq<Byte>, mem: Memory, ghost goal: Body)
      requires Valid() && verdict == Reading && Waits(goal)
      modifies this
      ensures Valid() && Done(RunIn(goal, bytes, mem, max))
    {
      RunInConcat(Base(), data, bytes, mem, max);
      data := data + bytes;
      ReadHttpData(mem, RunIn(goal, bytes, mem, max));
    }
  }

  /** Whatever pieces the stream comes in and whatever memory holds behind them, the decoder does what the delivery gives. */
  method Download(from: nat, max: nat, pieces: seq<seq<Byte>>, mems: seq<Memory>) returns (r: Reader)
    requires from <= max && |mems| == |pieces|
    ensures fresh(r) && r.max == max && r.Agrees(Deliver(ChunkedBody.Start(from), pieces, mems, max))
  {
    r := new Reader(from, max);
    ghost var goal := r.Base();
    var i := 0;
    while i < |pieces| && r.verdict == Reading
      invariant 0 <= i <= |pieces| && fresh(r) && r.Valid() && r.max == max && r.Done(goal)
      invariant Deliver(ChunkedBody.Start(from), pieces, mems, max) == Deliver(goal, pieces[i..], mems[i..], max)
    {
      assert pieces[i..][0] == pieces[i] && pieces[i..][1..] == pieces[i + 1..];
      assert mems[i..][0] == mems[i] && mems[i..][1..] == mems[i + 1..];
      r.Receive(pieces[i], mems[i], goal);
      goal := RunIn(goal, pieces[i], mems[i], max);
      i := i + 1;
    }
    if r.verdict != Reading {
      DeliverOver(goal, pieces[i..], mems[i..], max);
    }
  }
}
