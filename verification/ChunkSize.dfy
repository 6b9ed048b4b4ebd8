// The C library's strtol in base 16, which reads the sizes of chunks: it skips spaces, and a line end
// counts as one.

module ChunkSize {
  import opened Basics

  const LF: Byte := 10
  const CR: Byte := 13

  predicate IsSpace(b: Byte) {
    b == 32 || 9 <= b <= 13
  }

  predicate IsHex(b: Byte) {
    48 <= b <= 57 || 65 <= b <= 70 || 97 <= b <= 102
  }

  predicate IsX(b: Byte) {
    b == 88 || b == 120
  }

  function HexValue(b: Byte): (v: nat)
    requires IsHex(b)
    ensures v < 16
  {
    if b <= 57 then b - 48 else if b <= 70 then b - 55 else b - 87
  }

  const UPPER := "0123456789ABCDEF"
  const LOWER := "0123456789abcdef"

  /** The byte is the digit v, in either case. */
  predicate IsDigit(b: Byte, v: nat) {
    v < 16 && (b == UPPER[v] as int || b == LOWER[v] as int)
  }

  /** The digits are n in base 16, with or without leading zeros, each digit in either case. */
  predicate Spells(d: seq<Byte>, n: nat)
    decreases |d|
  {
    && d != [] && IsDigit(d[|d| - 1], n % 16)
    && if |d| == 1 then n < 16 else Spells(d[..|d| - 1], n / 16)
  }

  lemma DigitValue(b: Byte, v: nat)
    ensures IsDigit(b, v) <==> IsHex(b) && HexValue(b) == v
  {
    if v < 16 {
      assert UPPER[v] as int == if v < 10 then 48 + v else 55 + v;
      assert LOWER[v] as int == if v < 10 then 48 + v else 87 + v;
    }
  }

  /** Number reads exactly that. */
  lemma {:induction false} NumberSpelt(d: seq<Byte>, n: nat)
    ensures Spells(d, n) <==> d != [] && (forall i :: 0 <= i < |d| ==> IsHex(d[i])) && Number(d) == n
    decreases |d|
  {
    if d != [] {
      var front, last := d[..|d| - 1], d[|d| - 1];
      DigitValue(last, n % 16);
      if front == [] {
        assert d == [last];
      } else {
        NumberSpelt(front, n / 16);
      }
    }
  }

  function SkipSpaces(s: seq<Byte>): seq<Byte> {
    if s != [] && IsSpace(s[0]) then SkipSpaces(s[1..]) else s
  }

  function Digits(s: seq<Byte>): (d: seq<Byte>)
    ensures forall i :: 0 <= i < |d| ==> IsHex(d[i])
  {
    if s != [] && IsHex(s[0]) then [s[0]] + Digits(s[1..]) else []
  }

  function Number(d: seq<Byte>): nat
    requires forall i :: 0 <= i < |d| ==> IsHex(d[i])
  {
    if d == [] then 0 else 16 * Number(d[..|d| - 1]) + HexValue(d[|d| - 1])
  }

  function Unprefixed(s: seq<Byte>): seq<Byte> {
    if |s| >= 3 && s[0] == 48 && IsX(s[1]) && IsHex(s[2]) then s[2..] else s
  }

  function Magnitude(s: seq<Byte>): Option<nat> {
    var d := Digits(Unprefixed(s));
    if d == [] then None else Some(Number(d))
  }

  function Signed(m: Option<nat>, sign: int): Option<int> {
    match m
    case None => None
    case Some(v) => Some(sign * v)
  }

  /** None: no conversion, the end pointer is left at the start. Values out of range are not clamped here. */
  function Strtol(s: seq<Byte>): Option<int> {
    var t := SkipSpaces(s);
    if t == [] then None
    else if t[0] == 45 then Signed(Magnitude(t[1..]), -1)
    else Signed(Magnitude(if t[0] == 43 then t[1..] else t), 1)
  }

  predicate Blank(s: seq<Byte>) {
    forall i :: 0 <= i < |s| ==> IsSpace(s[i])
  }

  /** What ends a number and everything before it. */
  predicate Stops(t: seq<Byte>) {
    t != [] ==> !IsHex(t[0]) && !IsX(t[0])
  }

  lemma {:induction false} DigitsStop(s: seq<Byte>, t: seq<Byte>)
    requires Stops(t)
    ensures Digits(s + t) == Digits(s)
  {
    if s == [] {
      assert s + t == t;
    } else if IsHex(s[0]) {
      assert (s + t)[1..] == s[1..] + t;
      DigitsStop(s[1..], t);
    }
  }

  lemma MagnitudeStop(s: seq<Byte>, t: seq<Byte>)
    requires Stops(t)
    ensures Magnitude(s + t) == Magnitude(s)
  {
    DigitsStop(Unprefixed(s), t);
    if |s| >= 3 {
      assert (s + t)[2..] == s[2..] + t;
    }
    assert Unprefixed(s + t) == Unprefixed(s) + t;
  }

  lemma {:induction false} SkipSpacesStop(s: seq<Byte>, t: seq<Byte>)
    requires !Blank(s)
    ensures SkipSpaces(s) != [] && SkipSpaces(s + t) == SkipSpaces(s) + t
  {
    if IsSpace(s[0]) {
      assert (s + t)[1..] == s[1..] + t;
      SkipSpacesStop(s[1..], t);
    }
  }

  /** A line with anything but spaces has its number to itself, whatever follows it in memory. */
  lemma StrtolStop(s: seq<Byte>, t: seq<Byte>)
    requires !Blank(s) && Stops(t)
    ensures Strtol(s + t) == Strtol(s)
  {
    SkipSpacesStop(s, t);
    var u := SkipSpaces(s);
    assert (u + t)[1..] == u[1..] + t;
    MagnitudeStop(u[1..], t);
    MagnitudeStop(u, t);
  }

  lemma {:induction false} SkipBlank(s: seq<Byte>, t: seq<Byte>)
    requires Blank(s)
    ensures SkipSpaces(s + t) == SkipSpaces(t)
  {
    if s == [] {
      assert s + t == t;
    } else {
      assert (s + t)[1..] == s[1..] + t;
      SkipBlank(s[1..], t);
    }
  }

  /** Strtol reads past a blank line. */
  lemma StrtolPastBlank(s: seq<Byte>, t: seq<Byte>)
    requires Blank(s)
    ensures Strtol(s + t) == Strtol(t)
  {
    SkipBlank(s, t);
  }

  /** A size line tells the size by itself exactly when it is not blank; otherwise the bytes behind it decide. */
  lemma SizeDetermined(text: seq<Byte>, nl: seq<Byte>)
    requires nl == [LF] || nl == [CR, LF]
    ensures (forall t: seq<Byte> :: Strtol(text + nl + t) == Strtol(text + nl)) <==> !Blank(text)
  {
    if Blank(text) {
      var t: seq<Byte> := [49];
      SkipBlank(text + nl, t);
      SkipBlank(text + nl, []);
      assert text + nl + [] == text + nl;
      assert SkipSpaces(t) == t && Digits(t) == [49];
      assert Strtol(text + nl + t).Some? && Strtol(text + nl).None?;
    } else {
      forall t: seq<Byte>
        ensures Strtol(text + nl + t) == Strtol(text + nl)
      {
        assert text + nl + t == text + (nl + t);
        StrtolStop(text, nl + t);
        StrtolStop(text, nl);
      }
    }
  }

  // ----- What strtol makes of which text -----

  predicate IsSign(sign: seq<Byte>) {
    sign == [] || sign == [43] || sign == [45]
  }

  predicate IsPrefix(prefix: seq<Byte>) {
    prefix == [] || prefix == [48, 88] || prefix == [48, 120]
  }

  /** Spaces, a sign and a prefix may stand before a number. */
  lemma {:induction false} StrtolSpelt(space: seq<Byte>, sign: seq<Byte>, prefix: seq<Byte>, d: seq<Byte>, n: nat)
    requires forall i :: 0 <= i < |space| ==> space[i] in {9, 10, 11, 12, 13, 32}
    requires IsSign(sign) && IsPrefix(prefix) && Spells(d, n)
    ensures var v: int := if sign == [45] then -1 * n else n;
            Strtol(space + (sign + (prefix + d))) == Some(v)
  {
    var m := prefix + d;
    PrefixTaken(prefix, d, n);
    SkipBlank(space, sign + m);
    SignTaken(sign, m);
  }

  lemma {:induction false} PrefixTaken(prefix: seq<Byte>, d: seq<Byte>, n: nat)
    requires IsPrefix(prefix) && Spells(d, n)
    ensures Magnitude(prefix + d) == Some(n) && IsHex((prefix + d)[0])
  {
    NumberSpelt(d, n);
    DigitsAll(d);
    assert IsHex(d[0]);
    if prefix == [] {
      assert prefix + d == d;
      assert |d| > 1 ==> IsHex(d[1]);
    } else {
      var m := prefix + d;
      assert |m| >= 3 && m[0] == 48 && IsX(m[1]) && m[2] == d[0];
      assert m[2..] == d;
    }
  }

  lemma {:induction false} DigitsAll(d: seq<Byte>)
    requires forall i :: 0 <= i < |d| ==> IsHex(d[i])
    ensures Digits(d) == d
  {
    if d != [] {
      DigitsAll(d[1..]);
    }
  }

  lemma {:induction false} SignTaken(sign: seq<Byte>, m: seq<Byte>)
    requires IsSign(sign) && (sign == [] ==> m == [] || (!IsSpace(m[0]) && m[0] !in {43, 45}))
    ensures Strtol(sign + m) == Signed(Magnitude(m), if sign == [45] then -1 else 1)
  {
    if sign == [] {
      assert sign + m == m;
    } else {
      assert (sign + m)[1..] == m;
    }
  }

  /** Without a digit behind them there is no number. */
  lemma {:induction false} StrtolNothing(space: seq<Byte>, sign: seq<Byte>, t: seq<Byte>)
    requires forall i :: 0 <= i < |space| ==> space[i] in {9, 10, 11, 12, 13, 32}
    requires IsSign(sign) && (t == [] || forall v :: 0 <= v < 16 ==> !IsDigit(t[0], v))
    requires sign == [] ==> t == [] || t[0] !in {9, 10, 11, 12, 13, 32, 43, 45}
    ensures Strtol(space + (sign + t)) == None
  {
    if t != [] && IsHex(t[0]) {
      DigitValue(t[0], HexValue(t[0]));
      assert false;
    }
    SkipBlank(space, sign + t);
    SignTaken(sign, t);
  }
}
