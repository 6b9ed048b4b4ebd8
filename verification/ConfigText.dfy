// The configuration file's text, piece by piece: what quoting writes for a character, what the tokenizer
// makes of any mixture of plain, escaped and quoted characters, and what flags and numbers look like.

module ConfigText {
  import opened Basics
  import opened Config
  import opened ConfigFile

  // ----- Quoting -----

  /** Fields are written character by character, a backslash in front of quotation marks and backslashes. */
  lemma {:induction false} EscapedPieces(a: string, b: string, c: char)
    ensures Quoted(a) == "\"" + Escaped(a) + "\"" && Escaped("") == ""
    ensures Escaped([c]) == if c == '"' then "\\\"" else if c == '\\' then "\\\\" else [c]
    ensures Escaped(a + b) == Escaped(a) + Escaped(b)
  {
    EscapedChar(c);
    EscapedConcat(a, b);
  }

  lemma {:induction false} EscapedChar(c: char)
    ensures Escaped([c]) == if c == '"' then "\\\"" else if c == '\\' then "\\\\" else [c]
  {
    assert [c][1..] == "";
    var front := if c == '"' || c == '\\' then ['\\', c] else [c];
    assert Escaped([c]) == front + Escaped("") == front;
  }

  lemma {:induction false} EscapedConcat(a: string, b: string)
    ensures Escaped(a + b) == Escaped(a) + Escaped(b)
  {
    if a == "" {
      assert a + b == b;
    } else {
      assert (a + b)[1..] == a[1..] + b;
      EscapedConcat(a[1..], b);
      Regroup(if a[0] == '"' || a[0] == '\\' then ['\\', a[0]] else [a[0]], Escaped(a[1..]), Escaped(b));
    }
  }

  // ----- Tokens -----

  /** A piece of a token: a character, one behind a backslash, or a quotation mark. */
  datatype Piece = Plain(c: char) | Escape(c: char) | Mark

  function Text(p: Piece): string {
    match p
    case Plain(c) => [c]
    case Escape(c) => ['\\', c]
    case Mark => ['"']
  }

  function Texts(ps: seq<Piece>): string {
    if ps == [] then "" else Text(ps[0]) + Texts(ps[1..])
  }

  /** What the pieces stand for: their characters, without marks and backslashes. */
  function Meant(ps: seq<Piece>): string {
    if ps == [] then "" else (if ps[0].Mark? then "" else [ps[0].c]) + Meant(ps[1..])
  }

  /** Every mark opens or closes a quotation. Inside one blanks are plain as well. */
  predicate Proper(ps: seq<Piece>, quote: bool) {
    ps == [] ||
    match ps[0]
    case Plain(c) => c != '"' && c != '\\' && (quote || (c != ' ' && c != '\t')) && Proper(ps[1..], quote)
    case Escape(_) => Proper(ps[1..], quote)
    case Mark => Proper(ps[1..], !quote)
  }

  function OpenAfter(ps: seq<Piece>, quote: bool): bool {
    if ps == [] then quote else OpenAfter(ps[1..], if ps[0].Mark? then !quote else quote)
  }

  lemma {:induction false} ScanTexts(ps: seq<Piece>, quote: bool, rest: string)
    requires Proper(ps, quote) && (rest == "" || (!OpenAfter(ps, quote) && (rest[0] == ' ' || rest[0] == '\t')))
    ensures Scan(Texts(ps) + rest, false, quote) == Scanned(Meant(ps), rest)
    decreases |ps|
  {
    if ps == [] {
      assert "" + rest == rest;
    } else {
      var more := Texts(ps[1..]) + rest;
      Regroup(Text(ps[0]), Texts(ps[1..]), rest);
      ScanTexts(ps[1..], if ps[0].Mark? then !quote else quote, rest);
      ScanPiece(ps[0], quote, more);
    }
  }

  lemma {:induction false} ScanPiece(p: Piece, quote: bool, more: string)
    requires p.Plain? ==> p.c != '"' && p.c != '\\' && (quote || (p.c != ' ' && p.c != '\t'))
    ensures Scan(Text(p) + more, false, quote) ==
              if p.Mark? then Scan(more, false, !quote) else Cons(p.c, Scan(more, false, quote))
  {
    var s := Text(p) + more;
    match p
    case Escape(c) =>
      assert s[1..] == [c] + more && ([c] + more)[1..] == more;
      assert Scan(s, false, quote) == Scan([c] + more, true, quote);
    case _ =>
      assert s[1..] == more;
  }

  /** Behind any blanks, a text of such pieces up to a blank or the end is read as what the pieces stand for. */
  lemma {:induction false} TokenText(blanks: string, ps: seq<Piece>, rest: string)
    requires forall i :: 0 <= i < |blanks| ==> blanks[i] == ' ' || blanks[i] == '\t'
    requires ps != [] && Proper(ps, false)
    requires rest == "" || (!OpenAfter(ps, false) && (rest[0] == ' ' || rest[0] == '\t'))
    ensures Token(blanks + (Texts(ps) + rest)) == Some(Scanned(Meant(ps), rest))
  {
    SkipAll(blanks, Texts(ps) + rest);
    ScanTexts(ps, false, rest);
  }

  lemma {:induction false} SkipAll(blanks: string, t: string)
    requires forall i :: 0 <= i < |blanks| ==> IsBlank(blanks[i])
    requires t != "" && !IsBlank(t[0])
    ensures SkipBlanks(blanks + t) == t
  {
    if blanks == "" {
      assert blanks + t == t;
    } else {
      assert (blanks + t)[1..] == blanks[1..] + t;
      SkipAll(blanks[1..], t);
    }
  }

  // ----- Flags and numbers -----

  /** The flag number has a bit for each of the first three flags and one each for the last flag and its opposite. */
  lemma FlagBits(a: Assoc)
    ensures var n := Flags(a);
            && (n % 2 == 1 <==> a.cons) && (n / 2 % 2 == 1 <==> a.xwin) && (n / 4 % 2 == 1 <==> a.ask)
            && (n / 8 % 2 == 1 <==> !a.block) && (n / 16 % 2 == 1 <==> a.block) && n < 32
  {
  }

  /** Numbers from before the last flag was written stand for its default: it blocks on the console and without a window. */
  lemma OldFlags(n: nat)
    requires n < 8
    ensures Flagged(n) == (n % 2 == 1, n / 2 % 2 == 1, n / 4 % 2 == 1, n / 2 % 2 == 0 || n % 2 == 1)
  {
  }

  lemma DigitIs(d: nat)
    requires d < 10
    ensures Digit(d) == "0123456789"[d]
  {
  }

  /** Numbers are written in decimal, without leading zeros. */
  lemma DecimalIs(n: int)
    ensures n < 0 ==> Decimal(n) == "-" + Decimal(-n)
    ensures 0 <= n < 10 ==> Decimal(n) == ["0123456789"[n]]
    ensures n >= 10 ==> Decimal(n) == Decimal(n / 10) + ["0123456789"[n % 10]]
  {
    if n >= 0 {
      DigitIs(n % 10);
    }
  }

  lemma {:induction false} ValueSnoc(s: string, d: nat, acc: int)
    requires d < 10 && Value(s, acc).Some?
    ensures Value(s + [Digit(d)], acc) == Some(10 * Value(s, acc).value + d)
  {
    if s == "" {
      assert s + [Digit(d)] == [Digit(d)];
      OneDigit(d, acc);
    } else {
      assert (s + [Digit(d)])[1..] == s[1..] + [Digit(d)];
      ValueSnoc(s[1..], d, 10 * acc + (s[0] as int - '0' as int));
    }
  }

  lemma {:induction false} ValueDecimal(n: nat)
    ensures Value(Decimal(n), 0) == Some(n) && '0' <= Decimal(n)[0] <= '9'
  {
    if n < 10 {
      OneDigit(n, 0);
    } else {
      ValueDecimal(n / 10);
      ValueSnoc(Decimal(n / 10), n % 10, 0);
    }
  }

  /** Every number is read back exactly if it is in the range asked for, whose ends are ints. */
  lemma {:induction false} DecimalBack(n: int, lo: int, hi: int)
    requires -0x8000_0000 <= lo <= hi < 0x8000_0000
    ensures GetNum(Decimal(n), lo, hi) == if lo <= n < hi then Some(n) else None
  {
    ValueDecimal(if n < 0 then -n else n);
    if n < 0 {
      assert Decimal(n)[1..] == Decimal(-n);
    }
  }
}
