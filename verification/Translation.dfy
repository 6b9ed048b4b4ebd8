// The conversion table (charsets.c): a trie over the bytes of UTF-8 codes, filled character by character
// and then walked by the text converter.

module Translation {
  import opened Basics
  import opened Utf8

  /** Unset: the source's no_str, shown as a star. Text: the C string, up to its NUL, of the character that ends here. */
  datatype Entry = Unset | Text(str: seq<Byte>) | Sub(table: Table)

  datatype Table = Table(entries: seq<Entry>)

  const STAR: seq<Byte> := [42]

  ghost predicate Sized(t: Table) {
    && |t.entries| == 256
    && forall b :: 0 <= b < 256 && t.entries[b].Sub? ==> Sized(t.entries[b].table)
  }

  /**
   * The C string of an ASCII character (lines 61-78): the one of NUL is empty, and those of the bytes 23
   * and 31 hold an escape instead.
   */
  function Ascii(b: Byte): seq<Byte> {
    if b == 0 then [] else if b == 23 || b == 31 then [27] else [b]
  }

  /** A new table knows the ASCII characters (lines 114-120). */
  function NewTable(): (t: Table)
    ensures Sized(t)
    ensures forall b :: 0 <= b < 256 ==> t.entries[b] == if b < 128 then Text(Ascii(b)) else Unset
  {
    Table(seq(256, b requires 0 <= b < 256 => if b < 128 then Text(Ascii(b)) else Unset))
  }

  datatype Added = Done(table: Table) | BadEncoding1 | BadEncoding2

  /** add_utf_8 on the code s of the character (lines 195-220). */
  function Add(t: Table, s: seq<Byte>, str: seq<Byte>): (r: Added)
    requires Sized(t) && s != []
    ensures r.Done? ==> Sized(r.table)
    decreases |s|
  {
    var e := t.entries[s[0]];
    if |s| > 1 then
      if e.Text? then BadEncoding1
      else
        var r := Add(if e.Sub? then e.table else NewTable(), s[1..], str);
        if r.Done? then Done(Table(t.entries[s[0] := Sub(r.table)])) else r
    else if e.Sub? then BadEncoding2
    else if e.Unset? then Done(Table(t.entries[s[0] := Text(str)]))
    else Done(t)
  }

  /** The path of the code s leads to the string v, or to nothing yet. */
  ghost predicate Leads(t: Table, s: seq<Byte>, v: Option<seq<Byte>>)
    decreases |s|
  {
    Sized(t) && s != [] &&
    var e := t.entries[s[0]];
    if |s| == 1 then e == (if v.Some? then Text(v.value) else Unset)
    else if e.Sub? then Leads(e.table, s[1..], v)
    else e.Unset? && v.None?
  }

  /** Neither is the beginning of the other. */
  ghost predicate Apart(s: seq<Byte>, t: seq<Byte>) {
    !(s <= t) && !(t <= s)
  }

  ghost predicate High(s: seq<Byte>) {
    s != [] && forall i :: 0 <= i < |s| ==> s[i] >= 128
  }

  lemma {:induction false} NewLeads(s: seq<Byte>)
    requires High(s)
    ensures Leads(NewTable(), s, None)
  {
  }

  /** The first string added for a code stays. */
  function First(v: Option<seq<Byte>>, str: seq<Byte>): Option<seq<Byte>> {
    if v.Some? then v else Some(str)
  }

  lemma {:induction false} AddLeads(t: Table, s: seq<Byte>, v: Option<seq<Byte>>, str: seq<Byte>)
    requires High(s) && Leads(t, s, v)
    ensures Add(t, s, str).Done? && Leads(Add(t, s, str).table, s, First(v, str))
    decreases |s|
  {
    if |s| > 1 {
      var e := t.entries[s[0]];
      assert High(s[1..]);
      NewLeads(s[1..]);
      AddLeads(if e.Sub? then e.table else NewTable(), s[1..], v, str);
    }
  }

  /** Adding one character leaves the paths of all others as they are. */
  lemma {:induction false} AddKeeps(t: Table, s: seq<Byte>, v: Option<seq<Byte>>, str: seq<Byte>, o: seq<Byte>, w: Option<seq<Byte>>)
    requires High(s) && High(o) && Apart(s, o) && Leads(t, s, v) && Leads(t, o, w)
    ensures Add(t, s, str).Done? && Leads(Add(t, s, str).table, o, w)
    decreases |s|
  {
    AddLeads(t, s, v, str);
    if s[0] == o[0] {
      assert |s| > 1 && |o| > 1 by {
        ApartLonger(s, o);
      }
      ApartTail(s, o);
      var e := t.entries[s[0]];
      assert High(s[1..]) && High(o[1..]);
      NewLeads(s[1..]);
      NewLeads(o[1..]);
      AddKeeps(if e.Sub? then e.table else NewTable(), s[1..], v, str, o[1..], w);
    }
  }

  lemma ApartLonger(s: seq<Byte>, o: seq<Byte>)
    requires Apart(s, o) && s != [] && o != [] && s[0] == o[0]
    ensures |s| > 1 && |o| > 1
  {
  }

  lemma PrefixCons(s: seq<Byte>, o: seq<Byte>)
    requires s != [] && o != [] && s[0] == o[0]
    ensures s[1..] <= o[1..] <==> s <= o
  {
    if s <= o {
      assert o[1..][..|s| - 1] == s[1..];
    }
    if s[1..] <= o[1..] {
      assert o[1..|s|] == s[1..];
      assert o[..|s|] == [o[0]] + o[1..|s|] && s == [s[0]] + s[1..];
    }
  }

  lemma ApartTail(s: seq<Byte>, o: seq<Byte>)
    requires Apart(s, o) && s != [] && o != [] && s[0] == o[0]
    ensures Apart(s[1..], o[1..])
  {
    PrefixCons(s, o);
    PrefixCons(o, s);
  }

  // ----- Any number of additions -----

  predicate Wide(u: int) {
    128 <= u < LIMIT
  }

  function Lookup(m: map<int, seq<Byte>>, u: int): Option<seq<Byte>> {
    if u in m then Some(m[u]) else None
  }

  /** The table shows every character as the map says, and no other path is blocked. */
  ghost predicate Shows(t: Table, m: map<int, seq<Byte>>) {
    && Sized(t) && (forall b :: 0 <= b < 128 ==> t.entries[b] == Text(Ascii(b)))
    && forall u :: Wide(u) ==> Leads(t, Encode(u), Lookup(m, u))
  }

  /** Later additions of the same character do not count; ASCII characters show themselves. */
  function FirstAdded(m: map<int, seq<Byte>>, u: int, str: seq<Byte>): map<int, seq<Byte>> {
    if u < 128 || u in m then m else m[u := str]
  }

  lemma EncodedHigh(u: int)
    requires Wide(u)
    ensures High(Encode(u))
  {
    FirstByte(u);
  }

  lemma EncodedApart(u: int, v: int)
    requires Wide(u) && Wide(v) && u != v
    ensures Apart(Encode(u), Encode(v))
  {
    if Encode(u) <= Encode(v) {
      PrefixFree(u, v);
    }
    if Encode(v) <= Encode(u) {
      PrefixFree(v, u);
    }
  }

  lemma NewShows()
    ensures Shows(NewTable(), map[])
  {
    forall u | Wide(u)
      ensures Leads(NewTable(), Encode(u), None)
    {
      EncodedHigh(u);
      NewLeads(Encode(u));
    }
  }

  /** One addition never meets a bad encoding, and the table shows the map with the first string added. */
  lemma {:induction false} AddShows(t: Table, m: map<int, seq<Byte>>, u: int, str: seq<Byte>)
    requires Shows(t, m) && 0 <= u < LIMIT
    ensures Add(t, Encode(u), str).Done? && Shows(Add(t, Encode(u), str).table, FirstAdded(m, u, str))
  {
    if u < 128 {
      assert Encode(u) == [u];
    } else {
      EncodedHigh(u);
      AddLeads(t, Encode(u), Lookup(m, u), str);
      var t' := Add(t, Encode(u), str).table;
      forall v | Wide(v)
        ensures Leads(t', Encode(v), Lookup(FirstAdded(m, u, str), v))
      {
        if v != u {
          EncodedHigh(v);
          EncodedApart(u, v);
          AddKeeps(t, Encode(u), Lookup(m, u), str, Encode(v), Lookup(m, v));
        }
      }
      FirstByte(u);
    }
  }

  /** A character and the string to show it as. */
  datatype Mapping = Mapping(u: int, str: seq<Byte>)

  function Fill(t: Table, ms: seq<Mapping>): Added
    requires Sized(t) && forall i :: 0 <= i < |ms| ==> 0 <= ms[i].u < LIMIT
    decreases |ms|
  {
    if ms == [] then Done(t)
    else
      var r := Add(t, Encode(ms[0].u), ms[0].str);
      if r.Done? then Fill(r.table, ms[1..]) else r
  }

  function FirstOfAll(m: map<int, seq<Byte>>, ms: seq<Mapping>): map<int, seq<Byte>>
    decreases |ms|
  {
    if ms == [] then m else FirstOfAll(FirstAdded(m, ms[0].u, ms[0].str), ms[1..])
  }

  /** No sequence of additions meets a bad encoding; each character shows as the first string added for it. */
  lemma {:induction false} FillShows(t: Table, m: map<int, seq<Byte>>, ms: seq<Mapping>)
    requires Shows(t, m) && forall i :: 0 <= i < |ms| ==> 0 <= ms[i].u < LIMIT
    ensures Fill(t, ms).Done? && Shows(Fill(t, ms).table, FirstOfAll(m, ms))
    decreases |ms|
  {
    if ms != [] {
      AddShows(t, m, ms[0].u, ms[0].str);
      FillShows(Add(t, Encode(ms[0].u), ms[0].str).table, FirstAdded(m, ms[0].u, ms[0].str), ms[1..]);
    }
  }

  // ----- Converting -----

  /** Walking the table along the text from position i: the string found and where it ends, or no more text. */
  function Walk(t: Table, s: seq<Byte>, i: nat): (r: Option<(seq<Byte>, nat)>)
    requires Sized(t) && i < |s|
    ensures r.Some? ==> i < r.value.1 <= |s|
    decreases |s| - i
  {
    var e := t.entries[s[i]];
    if e.Sub? then if i + 1 >= |s| then None else Walk(e.table, s, i + 1)
    else Some((if e.Text? then e.str else STAR, i + 1))
  }

  /** The text converted, entities being left alone. ASCII outside a code and a code cut off at the end are copied. */
  function Converted(t: Table, s: seq<Byte>): seq<Byte>
    requires Sized(t)
    decreases |s|
  {
    if s == [] then []
    else if s[0] < 128 || Walk(t, s, 0).None? then [s[0]] + Converted(t, s[1..])
    else Walk(t, s, 0).value.0 + Converted(t, s[Walk(t, s, 0).value.1..])
  }

  /** The walking loop (lines 457-467). */
  method WalkText(t: Table, s: seq<Byte>, from: nat) returns (found: Option<seq<Byte>>, end: nat)
    requires Sized(t) && from < |s|
    ensures found.Some? <==> Walk(t, s, from).Some?
    ensures found.Some? ==> Walk(t, s, from) == Some((found.value, end))
  {
    var u, i := t, from;
    while u.entries[s[i]].Sub?
      invariant Sized(u) && from <= i < |s| && Walk(u, s, i) == Walk(t, s, from)
      decreases |s| - i
    {
      u, i := u.entries[s[i]].table, i + 1;
      if i >= |s| {
        return None, 0;
      }
    }
    var e := u.entries[s[i]];
    return Some(if e.Text? then e.str else STAR), i + 1;
  }

  /** links_convert_string with a table and no entities (lines 430-494). */
  method ConvertString(t: Table, s: seq<Byte>) returns (buffer: seq<Byte>)
    requires Sized(t)
    ensures buffer == Converted(t, s)
  {
    buffer := [];
    var pp := 0;
    while pp < |s|
      invariant 0 <= pp <= |s| && Converted(t, s) == buffer + Converted(t, s[pp..])
    {
      var piece, next := ConvertOne(t, s, pp);
      buffer := buffer + piece;
      pp := next;
    }
  }

  /** One character of the text, or one byte that is none. */
  method ConvertOne(t: Table, s: seq<Byte>, pp: nat) returns (piece: seq<Byte>, next: nat)
    requires Sized(t) && pp < |s|
    ensures pp < next <= |s| && Converted(t, s[pp..]) == piece + Converted(t, s[next..])
  {
    assert s[pp..][1..] == s[pp + 1..];
    if s[pp] < 128 {
      return [s[pp]], pp + 1;
    }
    var found, end := WalkText(t, s, pp);
    WalkShift(t, s, pp, 0);
    if found.None? {
      return [s[pp]], pp + 1;
    }
    assert s[pp..][end - pp..] == s[end..];
    return found.value, end;
  }

  lemma {:induction false} WalkShift(t: Table, s: seq<Byte>, from: nat, i: nat)
    requires Sized(t) && from + i < |s|
    ensures Walk(t, s[from..], i).Some? <==> Walk(t, s, from + i).Some?
    ensures Walk(t, s, from + i).Some? ==>
              Walk(t, s[from..], i) == Some((Walk(t, s, from + i).value.0, Walk(t, s, from + i).value.1 - from))
    decreases |s| - i
  {
    var e := t.entries[s[from + i]];
    if e.Sub? && from + i + 1 < |s| {
      WalkShift(e.table, s, from, i + 1);
    }
  }

  /** Along the code of a mapped character the walk finds its string. */
  lemma {:induction false} WalkFinds(t: Table, code: seq<Byte>, v: seq<Byte>, s: seq<Byte>, i: nat)
    requires Leads(t, code, Some(v)) && i + |code| <= |s| && s[i..i + |code|] == code
    ensures Walk(t, s, i) == Some((v, i + |code|))
    decreases |code|
  {
    assert s[i] == code[0];
    if |code| > 1 {
      assert s[i + 1..i + |code|] == code[1..];
      WalkFinds(t.entries[code[0]].table, code[1..], v, s, i + 1);
    }
  }

  function EncodeAll(us: seq<int>): seq<Byte>
    requires forall i :: 0 <= i < |us| ==> 0 <= us[i] < LIMIT
  {
    if us == [] then [] else Encode(us[0]) + EncodeAll(us[1..])
  }

  function ShownAll(m: map<int, seq<Byte>>, us: seq<int>): seq<Byte>
    requires forall i :: 0 <= i < |us| ==> 0 <= us[i] < 128 || us[i] in m
  {
    if us == [] then [] else (if 0 <= us[0] < 128 then [us[0]] else m[us[0]]) + ShownAll(m, us[1..])
  }

  lemma {:induction false} ConvertedStep(t: Table, m: map<int, seq<Byte>>, u: int, rest: seq<Byte>)
    requires Shows(t, m) && 0 <= u < LIMIT && (u < 128 || u in m)
    ensures Converted(t, Encode(u) + rest) == (if u < 128 then [u] else m[u]) + Converted(t, rest)
  {
    var s := Encode(u) + rest;
    assert s[|Encode(u)|..] == rest && s[..|Encode(u)|] == Encode(u);
    FirstByte(u);
    assert s[0] == Encode(u)[0];
    if u >= 128 {
      WalkFinds(t, Encode(u), m[u], s, 0);
    }
  }

  /** A text of mapped characters becomes the strings first added for them, one after the other. */
  lemma {:induction false} TextConverted(t: Table, m: map<int, seq<Byte>>, us: seq<int>)
    requires Shows(t, m)
    requires forall i :: 0 <= i < |us| ==> 0 <= us[i] < LIMIT && (us[i] < 128 || us[i] in m)
    ensures Converted(t, EncodeAll(us)) == ShownAll(m, us)
    decreases |us|
  {
    if us != [] {
      ConvertedStep(t, m, us[0], EncodeAll(us[1..]));
      TextConverted(t, m, us[1..]);
    }
  }

  /** A character that is not mapped shows as one star for the bytes that lead to nothing, at least one of its code. */
  lemma {:induction false} StarShown(t: Table, m: map<int, seq<Byte>>, u: int, rest: seq<Byte>) returns (n: nat)
    requires Shows(t, m) && Wide(u) && u !in m
    ensures 1 <= n <= |Encode(u)|
    ensures Converted(t, Encode(u) + rest) == [42] + Converted(t, Encode(u)[n..] + rest)
  {
    var s := Encode(u) + rest;
    assert s[..|Encode(u)|] == Encode(u);
    FirstByte(u);
    assert s[0] == Encode(u)[0];
    n := WalkStar(t, Encode(u), s, 0);
    assert s[n..] == Encode(u)[n..] + rest;
  }

  lemma {:induction false} WalkStar(t: Table, code: seq<Byte>, s: seq<Byte>, i: nat) returns (n: nat)
    requires Leads(t, code, None) && i + |code| <= |s| && s[i..i + |code|] == code
    ensures 1 <= n <= |code| && Walk(t, s, i) == Some(([42], i + n))
    decreases |code|
  {
    assert s[i] == code[0];
    if |code| > 1 && t.entries[code[0]].Sub? {
      assert s[i + 1..i + |code|] == code[1..];
      n := WalkStar(t.entries[code[0]].table, code[1..], s, i + 1);
      n := n + 1;
    } else {
      n := 1;
    }
  }

  /** Of a mapped character's code that the text ends in, the first byte is copied. */
  lemma {:induction false} CodeCutOff(t: Table, m: map<int, seq<Byte>>, u: int, n: nat)
    requires Shows(t, m) && Wide(u) && u in m && 0 < n < |Encode(u)|
    ensures var s := Encode(u)[..n]; Converted(t, s) == [s[0]] + Converted(t, s[1..])
  {
    EncodedHigh(u);
    assert Encode(u)[..n][0..] == Encode(u)[..n];
    WalkEnds(t, Encode(u), m[u], Encode(u)[..n], 0);
  }

  lemma {:induction false} WalkEnds(t: Table, code: seq<Byte>, v: seq<Byte>, s: seq<Byte>, i: nat)
    requires Leads(t, code, Some(v)) && i < |s| && s[i..] < code
    ensures Walk(t, s, i) == None
    decreases |s| - i
  {
    assert s[i] == s[i..][0] == code[0];
    if i + 1 < |s| {
      assert s[i + 1..] == s[i..][1..];
      assert s[i..][1..] == code[1..|s| - i];
      WalkEnds(t.entries[code[0]].table, code[1..], v, s, i + 1);
    }
  }

  /** In this table and those inside it ASCII characters have their own strings. */
  ghost predicate AsciiStands(t: Table) {
    && Sized(t) && (forall b :: 0 <= b < 128 ==> t.entries[b] == Text(Ascii(b)))
    && forall b :: 128 <= b < 256 && t.entries[b].Sub? ==> AsciiStands(t.entries[b].table)
  }

  lemma {:induction false} AddAscii(t: Table, s: seq<Byte>, str: seq<Byte>)
    requires AsciiStands(t) && High(s) && Add(t, s, str).Done?
    ensures AsciiStands(Add(t, s, str).table)
    decreases |s|
  {
    if |s| > 1 {
      assert High(s[1..]);
      var e := t.entries[s[0]];
      AddAscii(if e.Sub? then e.table else NewTable(), s[1..], str);
    }
  }

  lemma {:induction false} FillAscii(t: Table, ms: seq<Mapping>)
    requires AsciiStands(t) && forall i :: 0 <= i < |ms| ==> 0 <= ms[i].u < LIMIT
    requires Fill(t, ms).Done?
    ensures AsciiStands(Fill(t, ms).table)
    decreases |ms|
  {
    if ms != [] {
      var u := ms[0].u;
      if u < 128 {
        assert Encode(u) == [u];
      } else {
        EncodedHigh(u);
        AddAscii(t, Encode(u), ms[0].str);
      }
      FillAscii(Add(t, Encode(u), ms[0].str).table, ms[1..]);
    }
  }

  /** Whatever a table is filled with, an ASCII byte behind a lead byte ends the code and is shown by its own string: NUL not at all. */
  lemma {:induction false} CodeBroken(ms: seq<Mapping>, lead: Byte, b: Byte, rest: seq<Byte>)
    requires forall i :: 0 <= i < |ms| ==> 0 <= ms[i].u < LIMIT
    requires Fill(NewTable(), ms).Done? && lead >= 128 && b < 128 && Sized(Fill(NewTable(), ms).table)
    requires Fill(NewTable(), ms).table.entries[lead].Sub?
    ensures var t := Fill(NewTable(), ms).table; Converted(t, [lead, b] + rest) == Ascii(b) + Converted(t, rest)
  {
    FillAscii(NewTable(), ms);
    var t, s := Fill(NewTable(), ms).table, [lead, b] + rest;
    assert s[0] == lead && s[1] == b && s[2..] == rest;
    assert Walk(t, s, 0) == Walk(t.entries[lead].table, s, 1) == Some((Ascii(b), 2));
  }

  /** From an empty table, whatever is added in whatever order. */
  lemma {:induction false} TableConverts(ms: seq<Mapping>, us: seq<int>)
    requires forall i :: 0 <= i < |ms| ==> 0 <= ms[i].u < LIMIT
    requires forall i :: 0 <= i < |us| ==> 0 <= us[i] < LIMIT && (us[i] < 128 || us[i] in FirstOfAll(map[], ms))
    ensures Fill(NewTable(), ms).Done?
    ensures Sized(Fill(NewTable(), ms).table)
    ensures Converted(Fill(NewTable(), ms).table, EncodeAll(us)) == ShownAll(FirstOfAll(map[], ms), us)
  {
    NewShows();
    FillShows(NewTable(), map[], ms);
    TextConverted(Fill(NewTable(), ms).table, FirstOfAll(map[], ms), us);
  }

  lemma {:induction false} FirstOfAllHas(m: map<int, seq<Byte>>, ms: seq<Mapping>, u: int)
    requires u in m
    ensures u in FirstOfAll(m, ms) && FirstOfAll(m, ms)[u] == m[u]
    decreases |ms|
  {
    if ms != [] {
      FirstOfAllHas(FirstAdded(m, ms[0].u, ms[0].str), ms[1..], u);
    }
  }

  /** u is mapped at position i, and not before. */
  ghost predicate FirstAt(ms: seq<Mapping>, u: int, i: nat) {
    i < |ms| && ms[i].u == u && forall j :: 0 <= j < i ==> ms[j].u != u
  }

  lemma {:induction false} FirstAtRest(ms: seq<Mapping>, u: int, i: nat)
    requires ms != [] && ms[0].u != u
    ensures FirstAt(ms, u, i) ==> i > 0 && FirstAt(ms[1..], u, i - 1)
    ensures FirstAt(ms[1..], u, i) ==> FirstAt(ms, u, i + 1)
  {
    assert forall j :: 1 <= j < |ms| ==> ms[1..][j - 1] == ms[j];
  }

  /** What "first added" means: the string of the first mapping of u, if u is not ASCII; without one there is none. */
  lemma {:induction false} FirstOfAllIs(m: map<int, seq<Byte>>, ms: seq<Mapping>, u: int)
    requires u !in m
    ensures u in FirstOfAll(m, ms) <==> u >= 128 && exists i: nat :: FirstAt(ms, u, i)
    ensures forall i: nat :: u >= 128 && FirstAt(ms, u, i) ==> u in FirstOfAll(m, ms) && FirstOfAll(m, ms)[u] == ms[i].str
    decreases |ms|
  {
    if ms != [] {
      var m1 := FirstAdded(m, ms[0].u, ms[0].str);
      if u >= 128 && ms[0].u == u {
        FirstOfAllHas(m1, ms[1..], u);
        assert FirstAt(ms, u, 0);
        assert forall i: nat :: FirstAt(ms, u, i) ==> i == 0;
      } else {
        FirstOfAllIs(m1, ms[1..], u);
        if ms[0].u != u {
          FirstAtShift(ms, u);
        }
      }
    }
  }

  lemma {:induction false} FirstAtShift(ms: seq<Mapping>, u: int)
    requires ms != [] && ms[0].u != u
    ensures forall i: nat :: FirstAt(ms, u, i) ==> i > 0 && FirstAt(ms[1..], u, i - 1) && ms[i] == ms[1..][i - 1]
    ensures forall i: nat :: FirstAt(ms[1..], u, i) ==> FirstAt(ms, u, i + 1)
  {
    forall i: nat
      ensures FirstAt(ms, u, i) ==> i > 0 && FirstAt(ms[1..], u, i - 1) && ms[i] == ms[1..][i - 1]
      ensures FirstAt(ms[1..], u, i) ==> FirstAt(ms, u, i + 1)
    {
      FirstAtRest(ms, u, i);
    }
  }
}
