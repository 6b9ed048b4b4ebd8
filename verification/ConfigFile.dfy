// Whole configuration files (default.c): the lines that are written and the lines that are read, and the
// association, extension or blocked image that a line stands for.

module ConfigFile {
  import opened Basics
  import opened Config

  /** An option's name and what follows it on its line. */
  datatype Setting = Setting(name: string, value: string)

  // ----- Reading lines -----

  /** How many characters the name at the start of a line has. */
  function NameLength(s: string): (n: nat)
    ensures n <= |s|
  {
    if s != "" && s[0] > ' ' then 1 + NameLength(s[1..]) else 0
  }

  function ValueLength(s: string): (n: nat)
    ensures n <= |s|
  {
    if s != "" && !IsNewline(s[0]) then 1 + ValueLength(s[1..]) else 0
  }

  /** After a value: a newline, or two different ones, are skipped. */
  function AfterLine(s: string): (t: string)
    ensures |t| <= |s| && (s != "" ==> |t| < |s|)
  {
    if s == "" then ""
    else if |s| >= 2 && IsNewline(s[1]) && s[0] != s[1] then s[2..]
    else s[1..]
  }

  /** One line: its settings, if any, and where the next one begins. */
  function ReadLine(f: string): (r: (seq<Setting>, string))
    requires f != ""
    ensures |r.1| < |f|
  {
    var a := SkipBlanks(f);
    var n := NameLength(a);
    if n == 0 then ([], if a == "" then "" else a[1..])
    else
      var b := SkipBlanks(a[n..]);
      var v := ValueLength(b);
      var setting :=
        if a[0] == '#' || Token(a).None? then [] else [Setting(Token(a).value.token, b[..v])];
      (setting, AfterLine(b[v..]))
  }

  function ReadConfig(f: string): seq<Setting>
    decreases |f|
  {
    if f == "" then [] else ReadLine(f).0 + ReadConfig(ReadLine(f).1)
  }

  lemma {:induction false} ReadConfigStep(done: seq<Setting>, f: string)
    requires f != ""
    ensures done + ReadConfig(f) == (done + ReadLine(f).0) + ReadConfig(ReadLine(f).1)
  {
    Regroup(done, ReadLine(f).0, ReadConfig(ReadLine(f).1));
  }

  /** parse_config_file (lines 213-261), up to the lookup of the option's name. */
  method ParseConfigFile(file: string) returns (settings: seq<Setting>)
    ensures settings == ReadConfig(file)
  {
    settings := [];
    var f := file;
    while f != ""
      invariant ReadConfig(file) == settings + ReadConfig(f)
      decreases |f|
    {
      ReadConfigStep(settings, f);
      var setting, next := ParseLine(f);
      settings := settings + setting;
      f := next;
    }
  }

  method NameEnd(a: string) returns (n: nat)
    ensures n == NameLength(a)
  {
    n := 0;
    while n < |a| && a[n] > ' '
      invariant 0 <= n <= |a| && n + NameLength(a[n..]) == NameLength(a)
    {
      assert a[n..][1..] == a[n + 1..];
      n := n + 1;
    }
  }

  method ValueEnd(b: string) returns (v: nat)
    ensures v == ValueLength(b)
  {
    v := 0;
    while v < |b| && !IsNewline(b[v])
      invariant 0 <= v <= |b| && v + ValueLength(b[v..]) == ValueLength(b)
    {
      assert b[v..][1..] == b[v + 1..];
      v := v + 1;
    }
  }

  method ParseLine(f: string) returns (setting: seq<Setting>, next: string)
    requires f != ""
    ensures (setting, next) == ReadLine(f)
  {
    var a := SkipOverBlanks(f);
    var n := NameEnd(a);
    if n == 0 {
      return [], if a == "" then "" else a[1..];
    }
    var b := SkipOverBlanks(a[n..]);
    var v := ValueEnd(b);
    next := AfterLine(b[v..]);
    setting := [];
    if a[0] != '#' {
      var token, _ := GetToken(a);
      if token.Some? {
        setting := [Setting(token.value, b[..v])];
      }
    }
  }

  // ----- Writing lines -----

  function Line(s: Setting, after: string): string {
    s.name + " " + s.value + after
  }

  function Lines(settings: seq<Setting>, nl: string): string {
    if settings == [] then nl else nl + Line(settings[0], Lines(settings[1..], nl))
  }

  /** create_config_string (lines 263-273): a comment, then every option's lines, each behind a newline. */
  function Written(notice: string, settings: seq<Setting>, nl: string): string {
    "# " + notice + Lines(settings, nl)
  }

  /** The text of a comment on one line. */
  ghost predicate IsNotice(notice: string) {
    notice != "" && !IsBlank(notice[0]) && forall i :: 0 <= i < |notice| ==> !IsNewline(notice[i])
  }

  /** A name of an option, and a value on one line. */
  ghost predicate Writable(s: Setting) {
    && Bare(s.name) && s.name[0] != '#' && (forall i :: 0 <= i < |s.name| ==> s.name[i] > ' ')
    && (forall i :: 0 <= i < |s.value| ==> !IsNewline(s.value[i]))
    && s.value != "" && !IsBlank(s.value[0])
  }

  ghost predicate IsNl(nl: string) {
    nl == "\n" || nl == "\r\n"
  }

  lemma {:induction false} NameLengthIs(name: string, rest: string)
    requires forall i :: 0 <= i < |name| ==> name[i] > ' '
    requires rest == "" || rest[0] <= ' '
    ensures NameLength(name + rest) == |name|
  {
    if name == "" {
      assert name + rest == rest;
    } else {
      assert (name + rest)[1..] == name[1..] + rest;
      NameLengthIs(name[1..], rest);
    }
  }

  lemma {:induction false} ValueLengthIs(value: string, rest: string)
    requires forall i :: 0 <= i < |value| ==> !IsNewline(value[i])
    requires rest == "" || IsNewline(rest[0])
    ensures ValueLength(value + rest) == |value|
  {
    if value == "" {
      assert value + rest == rest;
    } else {
      assert (value + rest)[1..] == value[1..] + rest;
      ValueLengthIs(value[1..], rest);
    }
  }

  /** One written line is one setting, read back. */
  lemma LineRead(s: Setting, after: string)
    requires Writable(s) && (after == "" || IsNewline(after[0]))
    ensures ReadLine(Line(s, after)) == ([s], AfterLine(after))
  {
    var tail := s.value + after;
    var f := Line(s, after);
    assert f == s.name + (" " + tail) && f[0] == s.name[0];
    assert SkipBlanks(f) == f;
    NameLengthIs(s.name, " " + tail);
    assert f[|s.name|..] == " " + tail && (" " + tail)[1..] == tail;
    assert SkipBlanks(" " + tail) == SkipBlanks(tail) == tail;
    ValueLengthIs(s.value, after);
    assert tail[..|s.value|] == s.value && tail[|s.value|..] == after;
    TokenBare(s.name, " " + tail);
  }

  /** The newline between two lines is skipped as a whole. */
  lemma NewlineSkipped(nl: string, rest: string)
    requires IsNl(nl) && (rest != "" ==> !IsNewline(rest[0]))
    ensures AfterLine(nl + rest) == rest
  {
  }

  lemma {:induction false} LinesRead(settings: seq<Setting>, nl: string)
    requires IsNl(nl) && forall i :: 0 <= i < |settings| ==> Writable(settings[i])
    ensures ReadConfig(AfterLine(Lines(settings, nl))) == settings
    decreases |settings|
  {
    if settings == [] {
      assert nl + "" == nl;
      NewlineSkipped(nl, "");
    } else {
      var s, after := settings[0], Lines(settings[1..], nl);
      LineBegins(s, after);
      NewlineSkipped(nl, Line(s, after));
      LineRead(s, after);
      LinesBegin(settings[1..], nl);
      LinesRead(settings[1..], nl);
      assert settings == [s] + settings[1..];
    }
  }

  lemma LineBegins(s: Setting, after: string)
    requires Writable(s)
    ensures Line(s, after) != "" && Line(s, after)[0] == s.name[0] && !IsNewline(Line(s, after)[0])
  {
  }

  lemma {:induction false} LinesBegin(settings: seq<Setting>, nl: string)
    requires IsNl(nl)
    ensures Lines(settings, nl) != "" && IsNewline(Lines(settings, nl)[0])
  {
  }

  /** The whole file: the header is a comment, and every setting written is read, in order, and no other. */
  lemma ConfigRead(notice: string, settings: seq<Setting>, nl: string)
    requires IsNl(nl) && IsNotice(notice) && forall i :: 0 <= i < |settings| ==> Writable(settings[i])
    ensures ReadConfig(Written(notice, settings, nl)) == settings
  {
    var after := Lines(settings, nl);
    LinesBegin(settings, nl);
    CommentRead(notice, after);
    LinesRead(settings, nl);
    assert [] + settings == settings;
  }

  lemma CommentRead(text: string, after: string)
    requires IsNotice(text) && after != "" && IsNewline(after[0])
    ensures ReadLine("# " + text + after) == ([], AfterLine(after))
  {
    var rest := text + after;
    var f := "# " + text + after;
    assert f == "#" + (" " + rest) && f[0] == '#';
    NameLengthIs("#", " " + rest);
    assert f[1..] == " " + rest && (" " + rest)[1..] == rest;
    assert SkipBlanks(f) == f && SkipBlanks(" " + rest) == SkipBlanks(rest) == rest;
    ValueLengthIs(text, after);
    assert rest[|text|..] == after;
  }

  // ----- Numbers -----

  function Digit(d: nat): (c: char)
    requires d < 10
    ensures '0' <= c <= '9'
  {
    d as char + '0'
  }

  /** add_num_to_str */
  function Decimal(n: int): (s: string)
    ensures s != ""
    decreases if n < 0 then 1 - n else n
  {
    if n < 0 then "-" + Decimal(-n)
    else if n < 10 then [Digit(n)]
    else Decimal(n / 10) + [Digit(n % 10)]
  }

  function Value(s: string, acc: int): Option<int> {
    if s == "" then Some(acc)
    else if '0' <= s[0] <= '9' then Value(s[1..], 10 * acc + (s[0] as int - '0' as int))
    else None
  }

  function SkipSpace(s: string): string {
    if s != "" && (s[0] == ' ' || '\t' <= s[0] <= '\r') then SkipSpace(s[1..]) else s
  }

  /** getnum (lines 639-647): the whole string is a number for strtol, and in range. */
  function GetNum(s: string, lo: int, hi: int): Option<int> {
    var t := SkipSpace(s);
    var minus := t != "" && t[0] == '-';
    var digits := if t != "" && (t[0] == '-' || t[0] == '+') then t[1..] else t;
    var v := Value(digits, 0);
    if digits == "" || v.None? then None
    else
      var n := if minus then -v.value else v.value;
      if n < lo || n >= hi then None else Some(n)
  }

  lemma {:induction false} OneDigit(b: nat, acc: int)
    requires b < 10
    ensures Value([Digit(b)], acc) == Some(10 * acc + b)
  {
    assert [Digit(b)][1..] == "";
  }

  lemma TwoDigits(a: nat, b: nat)
    requires a < 10 && b < 10
    ensures Value([Digit(a), Digit(b)], 0) == Some(10 * a + b)
  {
    assert [Digit(a), Digit(b)][1..] == [Digit(b)];
    OneDigit(b, a);
  }

  lemma {:induction false} SmallDecimal(n: nat)
    requires n < 32
    ensures GetNum(Decimal(n), 0, 32) == Some(n) && Bare(Decimal(n))
  {
    if n >= 10 {
      assert Decimal(n) == [Digit(n / 10), Digit(n % 10)];
      TwoDigits(n / 10, n % 10);
    } else {
      OneDigit(n, 0);
    }
  }

  lemma {:induction false} DecimalBare(n: int)
    ensures Bare(Decimal(n)) && (|Decimal(n)| == 1 <==> 0 <= n < 10)
    ensures forall i :: 0 <= i < |Decimal(n)| ==> !IsNewline(Decimal(n)[i])
    decreases if n < 0 then 1 - n else n
  {
    if n < 0 {
      DecimalBare(-n);
      assert Decimal(n) == "-" + Decimal(-n);
    } else if n >= 10 {
      DecimalBare(n / 10);
      assert Decimal(n) == Decimal(n / 10) + [Digit(n % 10)];
    } else {
      assert Decimal(n) == [Digit(n)];
    }
  }

  // ----- What the lines stand for -----

  datatype Assoc = Assoc(name: string, ct: string, prog: string, cons: bool, xwin: bool, ask: bool, block: bool, system: int)

  datatype Ext = Ext(ext: string, ct: string)

  function Bit(b: bool): nat {
    if b then 1 else 0
  }

  function Flags(a: Assoc): nat {
    Bit(a.cons) + Bit(a.xwin) * 2 + Bit(a.ask) * 4 + Bit(!a.block) * 8 + Bit(a.block) * 16
  }

  /** The value of an association's line (type_wr, lines 711-726). */
  function WriteAssoc(a: Assoc): string {
    Quoted(a.name) + (" " + (Quoted(a.ct) + (" " + (Quoted(a.prog) + (" " + (Decimal(Flags(a)) + (" " + Decimal(a.system))))))))
  }

  function Flagged(n: nat): (bool, bool, bool, bool) {
    var cons, xwin := n % 2 == 1, n / 2 % 2 == 1;
    (cons, xwin, n / 4 % 2 == 1, if n / 8 % 2 == 1 || n / 16 % 2 == 1 then n / 16 % 2 == 1 else !xwin || cons)
  }

  /** An association's line read (type_rd, lines 649-681). */
  function ReadAssoc(v: string): Option<Assoc> {
    var t := Tokens(v, 5);
    if |t| < 5 || GetNum(t[3], 0, 32).None? then None
    else if |t[4]| != 1 || !('0' <= t[4][0] <= '9') then None
    else
      var f := Flagged(GetNum(t[3], 0, 32).value);
      Some(Assoc(t[0], t[1], t[2], f.0, f.1, f.2, f.3, t[4][0] as int - '0' as int))
  }

  /** The packed flags come back, for all sixteen combinations. */
  lemma FlagsBack(a: Assoc)
    ensures Flags(a) < 32 && Flagged(Flags(a)) == (a.cons, a.xwin, a.ask, a.block)
  {
  }

  lemma TokensTake(q: string, rest: string, s: string, n: nat)
    requires n > 0 && Ends(rest) && (s == Quoted(q) + rest || (Bare(q) && s == q + rest))
    ensures Tokens(s, n) == [q] + Tokens(rest, n - 1)
  {
    if s == Quoted(q) + rest {
      TokenQuoted(q, rest);
    } else {
      TokenBare(q, rest);
    }
  }

  lemma {:induction false} NextToken(q: string, rest: string, s: string, n: nat)
    requires n > 0 && Ends(rest) && (s == Quoted(q) + rest || (Bare(q) && s == q + rest))
    ensures Tokens(" " + s, n) == [q] + Tokens(rest, n - 1)
  {
    TokensBlank(s, n);
    TokensTake(q, rest, s, n);
  }

  /** The two numbers at the end of the line. */
  lemma {:induction false} NumberTokens(c: string, d: string)
    requires Bare(c) && Bare(d)
    ensures Tokens(" " + (c + (" " + d)), 2) == [c, d]
  {
    assert d + "" == d;
    NextToken(d, "", d, 1);
    assert Tokens("", 0) == [];
    NextToken(c, " " + d, c + (" " + d), 2);
  }

  lemma AssocTokens(a: Assoc)
    ensures Tokens(WriteAssoc(a), 5) == [a.name, a.ct, a.prog, Decimal(Flags(a)), Decimal(a.system)]
  {
    var d, c := Decimal(a.system), Decimal(Flags(a));
    DecimalBare(a.system);
    DecimalBare(Flags(a));
    NumberTokens(c, d);
    QuotedTokens(a.name, a.ct, a.prog, " " + (c + (" " + d)), [c, d]);
    FiveTokens(a.name, a.ct, a.prog, c, d);
  }

  /** Three quoted fields and a rest of two. */
  lemma {:induction false} QuotedTokens(a: string, b: string, c: string, rest: string, last: seq<string>)
    requires Ends(rest) && Tokens(rest, 2) == last
    ensures Tokens(Quoted(a) + (" " + (Quoted(b) + (" " + (Quoted(c) + rest)))), 5) == [a] + ([b] + ([c] + last))
  {
    var r3 := " " + (Quoted(c) + rest);
    QuotedNext(c, rest, 3);
    QuotedNext(b, r3, 4);
    TokensTake(a, " " + (Quoted(b) + r3), Quoted(a) + (" " + (Quoted(b) + r3)), 5);
  }

  lemma {:induction false} QuotedNext(q: string, rest: string, n: nat)
    requires Ends(rest) && n > 0
    ensures Tokens(" " + (Quoted(q) + rest), n) == [q] + Tokens(rest, n - 1)
  {
    NextToken(q, rest, Quoted(q) + rest, n);
  }

  lemma FiveTokens(a: string, b: string, c: string, d: string, e: string)
    ensures [a] + ([b] + ([c] + [d, e])) == [a, b, c, d, e]
  {
  }

  /** An association is read back: its system number is always one digit. Another one would be an error. */
  lemma AssocBack(a: Assoc)
    ensures ReadAssoc(WriteAssoc(a)) == if 0 <= a.system <= 9 then Some(a) else None
  {
    AssocTokens(a);
    FlagsBack(a);
    SmallDecimal(Flags(a));
    DecimalBare(a.system);
  }

  function WriteExt(e: Ext): string {
    Quoted(e.ext) + (" " + Quoted(e.ct))
  }

  function ReadExt(v: string): Option<Ext> {
    var t := Tokens(v, 2);
    if |t| < 2 then None else Some(Ext(t[0], t[1]))
  }

  lemma ExtBack(e: Ext)
    ensures ReadExt(WriteExt(e)) == Some(e)
  {
    assert Quoted(e.ct) + "" == Quoted(e.ct);
    NextToken(e.ct, "", Quoted(e.ct), 1);
    TokensTake(e.ext, " " + Quoted(e.ct), WriteExt(e), 2);
  }

  function ReadBlock(v: string): Option<string> {
    var t := Tokens(v, 1);
    if t == [] then None else Some(t[0])
  }

  lemma BlockBack(url: string)
    ensures ReadBlock(Quoted(url)) == Some(url)
  {
    assert Quoted(url) + "" == Quoted(url);
    TokensTake(url, "", Quoted(url), 1);
  }
}
