// Chunked transfer coding (section 3.6.1 of RFC 2616) as the browser reads it, one byte at a time. This
// reading does not know where the network cut the stream; the buffer-driven decoder is measured by it.

module Chunked {
  import opened Basics
  import opened ChunkSize

  const MAX_INT := 0x7fff_ffff

  /** Unsaid: a blank size line, whose size the line does not tell. */
  datatype Verdict = Reading | Finished | HttpError | LargeFile | Unsaid

  datatype Phase =
    | Line(trailer: bool, text: seq<Byte>, cr: bool)
    | Data(left: nat)
    | ChunkEnd(cr: bool)

  /** stored: the body so far; from: the offset where it goes on. */
  datatype Body = Body(phase: Phase, from: nat, stored: seq<Byte>, verdict: Verdict)

  function Next(b: Body, c: Byte, max: nat): Body {
    if b.verdict != Reading then b
    else
      match b.phase
      case Line(trailer, text, cr) =>
        if c == LF then LineDone(b, trailer, text, |text| + if cr then 2 else 1)
        else if cr then b.(verdict := HttpError)
        else if c == CR then b.(phase := Line(trailer, text, true))
        else if c < 32 then b.(verdict := HttpError)
        else b.(phase := Line(trailer, text + [c], false))
      case Data(left) =>
        if b.from + 1 > max then b.(verdict := LargeFile)
        else Body(if left <= 1 then ChunkEnd(false) else Data(left - 1), b.from + 1, b.stored + [c], Reading)
      case ChunkEnd(cr) =>
        if c == LF then b.(phase := Line(false, [], false))
        else if c == CR && !cr then b.(phase := ChunkEnd(true))
        else b.(verdict := HttpError)
  }

  /** A line of `length` bytes with its end. A trailer line of at most two ends the body. */
  function LineDone(b: Body, trailer: bool, text: seq<Byte>, length: nat): Body {
    var u := b.(phase := Line(trailer, [], false));
    if trailer then
      if length <= 2 then u.(verdict := Finished) else u
    else if Blank(text) then u.(verdict := Unsaid)
    else SizeRead(u, Strtol(text))
  }

  function SizeRead(b: Body, size: Option<int>): Body {
    if size.None? || size.value < 0 || size.value >= MAX_INT then b.(verdict := HttpError)
    else if size.value == 0 then b.(phase := Line(true, [], false))
    else b.(phase := Data(size.value))
  }

  function Run(b: Body, s: seq<Byte>, max: nat): Body
    decreases |s|
  {
    if s == [] then b else Run(Next(b, s[0], max), s[1..], max)
  }

  lemma {:induction false} RunConcat(b: Body, s: seq<Byte>, t: seq<Byte>, max: nat)
    ensures Run(b, s + t, max) == Run(Run(b, s, max), t, max)
    decreases |s|
  {
    if s == [] {
      assert s + t == t;
    } else {
      assert (s + t)[1..] == s[1..] + t;
      RunConcat(Next(b, s[0], max), s[1..], t, max);
    }
  }

  lemma {:induction false} RunSnoc(b: Body, s: seq<Byte>, c: Byte, max: nat)
    ensures Run(b, s + [c], max) == Next(Run(b, s, max), c, max)
  {
    RunConcat(b, s, [c], max);
    RunOne(Run(b, s, max), c, max);
  }

  lemma {:induction false} RunOne(b: Body, c: Byte, max: nat)
    ensures Run(b, [c], max) == Next(b, c, max)
  {
    assert [c][1..] == [];
  }

  /** After the verdict nothing more is read. */
  lemma {:induction false} RunOver(b: Body, s: seq<Byte>, max: nat)
    requires b.verdict != Reading
    ensures Run(b, s, max) == b
    decreases |s|
  {
    if s != [] {
      RunOver(b, s[1..], max);
    }
  }

  predicate Plain(s: seq<Byte>) {
    forall i :: 0 <= i < |s| ==> s[i] >= 32
  }

  lemma {:induction false} RunPlain(b: Body, s: seq<Byte>, max: nat)
    requires b.verdict == Reading && b.phase.Line? && !b.phase.cr && Plain(s)
    ensures Run(b, s, max) == b.(phase := Line(b.phase.trailer, b.phase.text + s, false))
    decreases |s|
  {
    if s == [] {
      assert b.phase.text + s == b.phase.text;
    } else {
      RunPlain(Next(b, s[0], max), s[1..], max);
      assert b.phase.text + [s[0]] + s[1..] == b.phase.text + s;
    }
  }

  /** A whole line. */
  lemma {:induction false} RunLine(b: Body, text: seq<Byte>, nl: seq<Byte>, max: nat)
    requires b.verdict == Reading && b.phase.Line? && b.phase.text == [] && !b.phase.cr && Plain(text)
    requires nl == [LF] || nl == [CR, LF]
    ensures Run(b, text + nl, max) == LineDone(b, b.phase.trailer, text, |text| + |nl|)
  {
    RunPlain(b, text, max);
    assert b.phase.text + text == text;
    RunConcat(b, text, nl, max);
    var u := Run(b, text, max);
    RunOne(u, nl[0], max);
    if nl == [CR, LF] {
      assert nl == [CR] + [LF];
      RunConcat(u, [CR], [LF], max);
      RunOne(Next(u, CR, max), LF, max);
    }
  }

  /** Data of the current chunk. */
  lemma {:induction false} RunData(b: Body, s: seq<Byte>, max: nat)
    requires b.verdict == Reading && b.phase.Data? && |s| <= b.phase.left && b.from + |s| <= max && b.phase.left > 0
    ensures Run(b, s, max) ==
              Body(if |s| == b.phase.left then ChunkEnd(false) else Data(b.phase.left - |s|), b.from + |s|, b.stored + s, Reading)
    decreases |s|
  {
    if s == [] {
      assert b.stored + s == b.stored;
    } else {
      var u := Next(b, s[0], max);
      assert u.stored + s[1..] == b.stored + s;
      if |s| > 1 {
        RunData(u, s[1..], max);
      } else {
        assert s[1..] == [];
        assert u.stored == b.stored + s;
      }
    }
  }

  /** Data that does not fit the largest offset: what fits is read. */
  lemma {:induction false} RunTooLarge(b: Body, s: seq<Byte>, max: nat)
    requires b.verdict == Reading && b.phase.Data? && |s| <= b.phase.left && b.from + |s| > max >= b.from
    ensures var r := Run(b, s, max); r.verdict == LargeFile && r.from == max && r.stored == b.stored + s[..max - b.from]
    decreases |s|
  {
    var u := Next(b, s[0], max);
    if u.verdict == LargeFile {
      RunOver(u, s[1..], max);
      assert b.stored + s[..0] == b.stored;
    } else {
      RunTooLarge(u, s[1..], max);
      assert s[..max - b.from] == [s[0]] + s[1..][..max - u.from];
      assert u.stored + s[1..][..max - u.from] == b.stored + ([s[0]] + s[1..][..max - u.from]);
    }
  }
}
