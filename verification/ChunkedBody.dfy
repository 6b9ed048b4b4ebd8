// Well-formed chunked bodies (section 3.6.1 of RFC 2616): whatever the cut into chunks, the
// extensions and the trailer, reading one gives back the data.

module ChunkedBody {
  import opened Basics
  import opened Chunked
  import opened ChunkSize

  const CRLF: seq<Byte> := [CR, LF]

  /** digits: the size in hexadecimal; ext: whatever follows it on the line. */
  datatype Chunk = Chunk(digits: seq<Byte>, ext: seq<Byte>, data: seq<Byte>) {
    ghost predicate Sound() {
      SizeLine(digits, |data|, ext) && |data| < MAX_INT
    }

    function Text(): seq<Byte> {
      digits + ext + CRLF + data + CRLF
    }
  }

  /** The size n, in digits of either case, and whatever follows it. */
  ghost predicate SizeLine(digits: seq<Byte>, n: nat, ext: seq<Byte>) {
    Spells(digits, n) && Stops(ext) && Plain(ext)
  }

  function ChunksText(chunks: seq<Chunk>): seq<Byte> {
    if chunks == [] then [] else chunks[0].Text() + ChunksText(chunks[1..])
  }

  function ChunksData(chunks: seq<Chunk>): seq<Byte> {
    if chunks == [] then [] else chunks[0].data + ChunksData(chunks[1..])
  }

  function TrailerText(lines: seq<seq<Byte>>): seq<Byte> {
    if lines == [] then CRLF else lines[0] + CRLF + TrailerText(lines[1..])
  }

  function Start(from: nat): Body {
    Body(Line(false, [], false), from, [], Reading)
  }

  lemma {:induction false} StrtolDigits(d: seq<Byte>, n: nat)
    requires Spells(d, n)
    ensures Strtol(d) == Some(n) && !Blank(d)
  {
    NumberSpelt(d, n);
    assert IsHex(d[0]);
    StrtolSpelt([], [], [], d, n);
    assert [] + ([] + ([] + d)) == d;
  }

  /** A size line of the standard is its number to strtol. */
  lemma {:induction false} SizeLineRead(digits: seq<Byte>, n: nat, ext: seq<Byte>)
    requires SizeLine(digits, n, ext)
    ensures Strtol(digits + ext) == Some(n) && !Blank(digits + ext) && Plain(digits + ext)
  {
    NumberSpelt(digits, n);
    StrtolDigits(digits, n);
    StrtolStop(digits, ext);
    assert (digits + ext)[0] == digits[0] && IsHex(digits[0]);
  }

  /** A size that does not fit an int is an error. */
  lemma {:induction false} ReadSizeLine(b: Body, digits: seq<Byte>, n: nat, ext: seq<Byte>, max: nat)
    requires b.verdict == Reading && b.phase == Line(false, [], false) && SizeLine(digits, n, ext)
    ensures Run(b, digits + ext + CRLF, max) ==
              if n >= 0x7fff_ffff then b.(verdict := HttpError)
              else b.(phase := if n == 0 then Line(true, [], false) else Data(n))
  {
    SizeLineRead(digits, n, ext);
    RunLine(b, digits + ext, CRLF, max);
  }

  lemma {:induction false} ReadChunkEnd(b: Body, max: nat)
    requires b.verdict == Reading && b.phase == ChunkEnd(false)
    ensures Run(b, CRLF, max) == b.(phase := Line(false, [], false))
  {
    assert CRLF == [CR] + [LF];
    RunConcat(b, [CR], [LF], max);
    RunOne(b, CR, max);
    RunOne(Next(b, CR, max), LF, max);
  }

  lemma {:induction false} ReadChunk(b: Body, c: Chunk, max: nat)
    requires b.verdict == Reading && b.phase == Line(false, [], false)
    requires c.Sound() && c.data != [] && b.from + |c.data| <= max
    ensures Run(b, c.Text(), max) == Body(Line(false, [], false), b.from + |c.data|, b.stored + c.data, Reading)
  {
    var line := c.digits + c.ext + CRLF;
    assert c.Text() == line + (c.data + CRLF);
    ReadSizeLine(b, c.digits, |c.data|, c.ext, max);
    RunConcat(b, line, c.data + CRLF, max);
    var u := Run(b, line, max);
    RunConcat(u, c.data, CRLF, max);
    RunData(u, c.data, max);
    ReadChunkEnd(Run(u, c.data, max), max);
  }

  lemma {:induction false} ReadChunks(b: Body, chunks: seq<Chunk>, max: nat)
    requires b.verdict == Reading && b.phase == Line(false, [], false)
    requires forall i :: 0 <= i < |chunks| ==> chunks[i].Sound() && chunks[i].data != []
    requires b.from + |ChunksData(chunks)| <= max
    ensures Run(b, ChunksText(chunks), max)
         == Body(Line(false, [], false), b.from + |ChunksData(chunks)|, b.stored + ChunksData(chunks), Reading)
    decreases |chunks|
  {
    if chunks == [] {
      assert b.stored + ChunksData(chunks) == b.stored;
    } else {
      ReadChunk(b, chunks[0], max);
      RunConcat(b, chunks[0].Text(), ChunksText(chunks[1..]), max);
      var u := Run(b, chunks[0].Text(), max);
      ReadChunks(u, chunks[1..], max);
      assert u.stored + ChunksData(chunks[1..]) == b.stored + ChunksData(chunks);
    }
  }

  lemma {:induction false} ReadTrailer(b: Body, lines: seq<seq<Byte>>, max: nat)
    requires b.verdict == Reading && b.phase == Line(true, [], false)
    requires forall i :: 0 <= i < |lines| ==> lines[i] != [] && Plain(lines[i])
    ensures Run(b, TrailerText(lines), max) == b.(verdict := Finished)
    decreases |lines|
  {
    if lines == [] {
      RunLine(b, [], CRLF, max);
      assert [] + CRLF == CRLF;
    } else {
      RunLine(b, lines[0], CRLF, max);
      RunConcat(b, lines[0] + CRLF, TrailerText(lines[1..]), max);
      ReadTrailer(b, lines[1..], max);
    }
  }

  /** A whole body: the data of all chunks is stored, and what follows the body is left alone. */
  lemma {:induction false} ReadBody(from: nat, chunks: seq<Chunk>, zeros: seq<Byte>, ext: seq<Byte>, trailer: seq<seq<Byte>>, after: seq<Byte>, max: nat)
    requires forall i :: 0 <= i < |chunks| ==> chunks[i].Sound() && chunks[i].data != []
    requires SizeLine(zeros, 0, ext)
    requires forall i :: 0 <= i < |trailer| ==> trailer[i] != [] && Plain(trailer[i])
    requires from + |ChunksData(chunks)| <= max
    ensures Run(Start(from), ChunksText(chunks) + (zeros + ext + CRLF) + TrailerText(trailer) + after, max)
         == Body(Line(true, [], false), from + |ChunksData(chunks)|, ChunksData(chunks), Finished)
  {
    var s, t, u := ChunksText(chunks), zeros + ext + CRLF, TrailerText(trailer);
    ReadChunks(Start(from), chunks, max);
    assert [] + ChunksData(chunks) == ChunksData(chunks);
    var b := Run(Start(from), s, max);
    ReadSizeLine(b, zeros, 0, ext, max);
    RunConcat(Start(from), s, t, max);
    ReadTrailer(Run(b, t, max), trailer, max);
    RunConcat(Start(from), s + t, u, max);
    RunConcat(Start(from), s + t + u, after, max);
    RunOver(Run(Start(from), s + t + u, max), after, max);
  }

  /** A trailer line ends the body exactly when it is empty, or one character before a bare line feed. */
  lemma {:induction false} TrailerLineEnds(b: Body, text: seq<Byte>, nl: seq<Byte>, max: nat)
    requires b.verdict == Reading && b.phase == Line(true, [], false) && Plain(text) && (nl == [LF] || nl == CRLF)
    ensures Run(b, text + nl, max).verdict == Finished <==> text == [] || (|text| == 1 && nl == [LF])
    ensures Run(b, text + nl, max).verdict in {Finished, Reading}
  {
    RunLine(b, text, nl, max);
  }

  /** A control byte in a line, or a carriage return that no line feed follows, is an error whatever comes behind it. */
  lemma {:induction false} BadLine(b: Body, text: seq<Byte>, bad: seq<Byte>, more: seq<Byte>, max: nat)
    requires b.verdict == Reading && b.phase.Line? && !b.phase.cr && forall i :: 0 <= i < |text| ==> text[i] >= 32
    requires if |bad| == 1 then bad[0] < 32 && bad[0] !in {10, 13} else |bad| == 2 && bad[0] == 13 && bad[1] != 10
    ensures Run(b, text + bad + more, max).verdict == HttpError
  {
    RunPlain(b, text, max);
    var u := Run(b, text, max);
    RunConcat(b, text, bad, max);
    RunConcat(b, text + bad, more, max);
    if |bad| == 1 {
      assert bad == [bad[0]];
      RunOne(u, bad[0], max);
    } else {
      assert bad == [CR] + [bad[1]];
      RunConcat(u, [CR], [bad[1]], max);
      RunOne(u, CR, max);
      RunOne(Next(u, CR, max), bad[1], max);
    }
    RunOver(Run(b, text + bad, max), more, max);
  }
}
