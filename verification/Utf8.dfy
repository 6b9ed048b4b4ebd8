// UTF-8 as in section 2 of RFC 2279: up to six bytes for values below 2^31 (charsets.c, encode_utf_8 and
// get_utf_8).

module Utf8 {
  import opened Basics

  const LIMIT := 0x8000_0000

  /** Continuation byte: six bits of u from bit 6*k up. */
  function Tail(x: nat): (b: Byte)
    ensures b == 128 + x % 64
  {
    128 + x % 64
  }

  /** The bytes of a value (lines 164-193). */
  function Encode(u: nat): (s: seq<Byte>)
    requires u < LIMIT
    ensures |s| > 0
  {
    if u < 0x80 then [u]
    else if u < 0x800 then [0xc0 + u / 64 % 32, Tail(u)]
    else if u < 0x10000 then [0xe0 + u / 4096 % 16, Tail(u / 64), Tail(u)]
    else if u < 0x200000 then [0xf0 + u / 0x40000 % 16, Tail(u / 4096), Tail(u / 64), Tail(u)]
    else if u < 0x4000000 then [0xf8 + u / 0x1000000 % 16, Tail(u / 0x40000), Tail(u / 4096), Tail(u / 64), Tail(u)]
    else [0xfc + u / 0x40000000 % 2, Tail(u / 0x1000000), Tail(u / 0x40000), Tail(u / 4096), Tail(u / 64), Tail(u)]
  }

  /** How many value bits a first byte holds; 0 if it cannot be one, or is the end of the string. */
  function LeadBits(b: Byte): nat {
    if b == 0 then 0 else if b < 0x80 then 7 else if b < 0xc0 then 0 else if b < 0xe0 then 5
    else if b < 0xf0 then 4 else if b < 0xf8 then 3 else if b < 0xfc then 2 else if b < 0xfe then 1 else 0
  }

  function Power(n: nat): (p: nat)
    ensures p > 0
  {
    if n == 0 then 1 else 2 * Power(n - 1)
  }

  predicate IsTail(b: Byte) {
    0x80 <= b < 0xc0
  }

  /** Appends continuation bytes, `more` of them, to the value v. A missing one gives 0. */
  function Continue(s: seq<Byte>, at: nat, v: nat, more: nat): (int, nat)
    requires at <= |s|
    decreases more
  {
    if more == 0 then (v, at)
    else if at == |s| || !IsTail(s[at]) then (0, at)
    else Continue(s, at + 1, v * 64 + (s[at] - 128), more - 1)
  }

  function Tails(l: nat): nat {
    if l > 5 then 0 else 6 - l
  }

  /** The value at the start of s and the number of bytes used for it. */
  function Decode(s: seq<Byte>): (int, nat)
    requires s != []
  {
    var l := LeadBits(s[0]);
    if l == 0 then (0, 1) else Continue(s, 1, s[0] % Power(l), Tails(l))
  }

  /** The end of the string ends a character like any other byte that cannot continue it (lines 309-327). */
  method GetUtf8(s: seq<Byte>) returns (v: int, used: nat)
    requires s != []
    ensures (v, used) == Decode(s)
  {
    var l := LeadBits(s[0]);
    if l == 0 {
      return 0, 1;
    }
    var acc: nat := s[0] % Power(l);
    used := 1;
    while l <= 5
      invariant l >= 1 && 1 <= used <= |s|
      invariant Decode(s) == Continue(s, used, acc, Tails(l))
    {
      l := l + 1;
      if used == |s| {
        return 0, used;
      }
      var c: int := s[used];
      c := c - 0x80;
      if c < 0 || c >= 0x40 {
        return 0, used;
      }
      acc := acc * 64 + c;
      used := used + 1;
    }
    return acc, used;
  }

  // ----- Byte by byte -----

  /** s begins with a byte from lo up, below hi, and n continuation bytes. */
  predicate Begins(s: seq<Byte>, lo: nat, hi: nat, n: nat) {
    |s| > n && lo <= s[0] < hi && forall i :: 1 <= i <= n ==> 0x80 <= s[i] < 0xc0
  }

  function Off(b: int, base: int): int {
    b - base
  }

  /** Section 2 of RFC 2279, each continuation byte holding six bits, the highest first. */
  lemma {:induction false} ValueRead(s: seq<Byte>)
    requires s != []
    ensures Begins(s, 1, 0x80, 0) ==> Decode(s) == (s[0], 1)
    ensures Begins(s, 0xc0, 0xe0, 1) ==> Decode(s) == (Off(s[0], 0xc0) * 64 + Off(s[1], 0x80), 2)
    ensures Begins(s, 0xe0, 0xf0, 2) ==> Decode(s) == ((Off(s[0], 0xe0) * 64 + Off(s[1], 0x80)) * 64 + Off(s[2], 0x80), 3)
    ensures Begins(s, 0xf0, 0xf8, 3) ==>
              Decode(s) == (((Off(s[0], 0xf0) * 64 + Off(s[1], 0x80)) * 64 + Off(s[2], 0x80)) * 64 + Off(s[3], 0x80), 4)
    ensures Begins(s, 0xf8, 0xfc, 4) ==>
              Decode(s) == ((((Off(s[0], 0xf8) * 64 + Off(s[1], 0x80)) * 64 + Off(s[2], 0x80)) * 64 + Off(s[3], 0x80)) * 64
                            + Off(s[4], 0x80), 5)
    ensures Begins(s, 0xfc, 0xfe, 5) ==>
              Decode(s) == (((((Off(s[0], 0xfc) * 64 + Off(s[1], 0x80)) * 64 + Off(s[2], 0x80)) * 64 + Off(s[3], 0x80)) * 64
                             + Off(s[4], 0x80)) * 64 + Off(s[5], 0x80), 6)
    ensures s[0] == 0 || 0x80 <= s[0] < 0xc0 || s[0] >= 0xfe ==> Decode(s) == (0, 1)
  {
    Powers();
    if LeadBits(s[0]) > 0 {
      LeadIs(s[0]);
      var n, v := Tails(LeadBits(s[0])), s[0] % Power(LeadBits(s[0]));
      if |s| > n && forall i :: 1 <= i <= n ==> IsTail(s[i]) {
        AllThere(s, v, n);
      }
    }
  }

  /** Up to five continuation bytes. */
  lemma {:induction false} AllThere(s: seq<Byte>, v: nat, n: nat)
    requires n <= 5 && |s| > n && forall i :: 1 <= i <= n ==> IsTail(s[i])
    ensures Continue(s, 1, v, n) == (Sixes(s, v, n), n + 1)
  {
    UpTo(s, v, n, n);
  }

  lemma {:induction false} UpTo(s: seq<Byte>, v: nat, n: nat, k: nat)
    requires k <= n <= 5 && |s| > n && forall i :: 1 <= i <= n ==> IsTail(s[i])
    ensures Sixes(s, v, k) >= 0 && Continue(s, 1, v, n) == Continue(s, k + 1, Sixes(s, v, k), n - k)
  {
    if k > 0 {
      UpTo(s, v, n, k - 1);
    }
  }

  function Sixes(s: seq<Byte>, v: int, n: nat): int
    requires n <= 5 && |s| > n
  {
    match n
    case 0 => v
    case 1 => v * 64 + Off(s[1], 0x80)
    case 2 => (v * 64 + Off(s[1], 0x80)) * 64 + Off(s[2], 0x80)
    case 3 => ((v * 64 + Off(s[1], 0x80)) * 64 + Off(s[2], 0x80)) * 64 + Off(s[3], 0x80)
    case 4 => (((v * 64 + Off(s[1], 0x80)) * 64 + Off(s[2], 0x80)) * 64 + Off(s[3], 0x80)) * 64 + Off(s[4], 0x80)
    case _ => ((((v * 64 + Off(s[1], 0x80)) * 64 + Off(s[2], 0x80)) * 64 + Off(s[3], 0x80)) * 64 + Off(s[4], 0x80)) * 64 + Off(s[5], 0x80)
  }

  /** Where a continuation byte is missing, the value is 0 and reading stops in front of what is there instead. */
  lemma {:induction false} BrokenRead(s: seq<Byte>, n: nat, k: nat)
    requires 1 <= k <= n <= 5 && k <= |s| && (k < |s| ==> !(0x80 <= s[k] < 0xc0))
    requires Mark(n) <= s[0] < Mark(n) + Room(n) && forall i :: 1 <= i < k ==> 0x80 <= s[i] < 0xc0
    ensures Decode(s) == (0, k)
  {
    LeadRead(n, s[0] - Mark(n));
    StopsAt(s, 1, s[0] - Mark(n), n, k);
  }

  lemma {:induction false} StopsAt(s: seq<Byte>, at: nat, v: nat, more: nat, k: nat)
    requires at <= k <= |s| && k - at < more && (k < |s| ==> !IsTail(s[k])) && forall i :: at <= i < k ==> IsTail(s[i])
    ensures Continue(s, at, v, more) == (0, k)
    decreases more
  {
    if at < k {
      StopsAt(s, at + 1, v * 64 + (s[at] - 128), more - 1, k);
    }
  }

  // ----- All forms of a value, by the number of continuation bytes -----

  /** The last n continuation bytes of u. */
  function TailsOf(u: nat, n: nat): (t: seq<Byte>)
    ensures |t| == n && forall i :: 0 <= i < n ==> IsTail(t[i])
    decreases n
  {
    if n == 0 then [] else TailsOf(u / 64, n - 1) + [Tail(u)]
  }

  /** What n continuation bytes leave of u for the first byte. */
  function High(u: nat, n: nat): nat
    decreases n
  {
    if n == 0 then u else High(u / 64, n - 1)
  }

  /** The first byte before n continuation bytes is Mark(n) plus a value below Room(n). */
  function Mark(n: nat): nat
    requires n <= 5
  {
    match n
    case 0 => 0
    case 1 => 0xc0
    case 2 => 0xe0
    case 3 => 0xf0
    case 4 => 0xf8
    case _ => 0xfc
  }

  function Room(n: nat): (r: nat)
    requires n <= 5
  {
    match n
    case 0 => 128
    case 1 => 32
    case 2 => 16
    case 3 => 8
    case 4 => 4
    case _ => 2
  }

  /** u can be written with n continuation bytes. */
  predicate Fits(u: nat, n: nat) {
    n <= 5 && High(u, n) < Room(n)
  }

  function Form(u: nat, n: nat): (s: seq<Byte>)
    requires Fits(u, n)
    ensures |s| == n + 1
  {
    [Mark(n) + High(u, n)] + TailsOf(u, n)
  }

  lemma {:induction false} HighShift(u: nat, n: nat)
    ensures High(u, n + 1) == High(u, n) / 64
    ensures TailsOf(u, n + 1) == [Tail(High(u, n))] + TailsOf(u, n)
    decreases n
  {
    if n > 0 {
      HighShift(u / 64, n - 1);
      assert TailsOf(u, n + 1) == TailsOf(u / 64, n) + [Tail(u)];
      assert [Tail(High(u, n))] + TailsOf(u, n) == ([Tail(High(u, n))] + TailsOf(u / 64, n - 1)) + [Tail(u)];
    }
  }

  /** Reading n continuation bytes of u. */
  lemma {:induction false} ContinueTails(s: seq<Byte>, at: nat, u: nat, n: nat, more: nat)
    requires at + n <= |s| && s[at..at + n] == TailsOf(u, n)
    ensures Continue(s, at, High(u, n), n + more) == Continue(s, at + n, u, more)
    decreases n
  {
    if n > 0 {
      var t := TailsOf(u, n);
      assert s[at..at + (n - 1)] == t[..n - 1] == TailsOf(u / 64, n - 1);
      assert s[at + (n - 1)] == t[n - 1] == Tail(u);
      ContinueTails(s, at, u / 64, n - 1, more + 1);
      assert u / 64 * 64 + u % 64 == u;
    }
  }

  /** A value other than 0 needs all its continuation bytes. */
  lemma {:induction false} ContinueGives(s: seq<Byte>, at: nat, v: nat, n: nat, u: nat)
    requires at <= |s| && Continue(s, at, v, n).0 == u != 0
    ensures Continue(s, at, v, n).1 == at + n <= |s|
    ensures s[at..at + n] == TailsOf(u, n) && v == High(u, n)
    decreases n
  {
    if n > 0 {
      var t: nat := s[at] - 128;
      ContinueGives(s, at + 1, v * 64 + t, n - 1, u);
      HighShift(u, n - 1);
      assert (v * 64 + t) / 64 == v && (v * 64 + t) % 64 == t;
      assert s[at..at + n] == [s[at]] + s[at + 1..at + n];
    }
  }

  /** The first byte tells the number of the others, and what it holds of the value. */
  lemma LeadRead(n: nat, h: nat)
    requires n <= 5 && h < Room(n) && (n == 0 ==> h > 0)
    ensures var b := Mark(n) + h; b < 256 && LeadBits(b) > 0 && Tails(LeadBits(b)) == n && b % Power(LeadBits(b)) == h
  {
    Powers();
  }

  lemma LeadIs(b: Byte)
    requires LeadBits(b) > 0
    ensures var n := Tails(LeadBits(b)); n <= 5 && b % Power(LeadBits(b)) < Room(n) && b == Mark(n) + b % Power(LeadBits(b))
  {
    Powers();
  }

  lemma FormRead(s: seq<Byte>, u: nat, n: nat)
    requires Fits(u, n) && Form(u, n) <= s && (n == 0 ==> u > 0)
    ensures Decode(s) == (u, n + 1)
  {
    LeadRead(n, High(u, n));
    assert s[0] == Form(u, n)[0];
    assert s[1..1 + n] == Form(u, n)[1..] == TailsOf(u, n);
    ContinueTails(s, 1, u, n, 0);
  }

  /** Exactly the forms of u are read as u, the longer ones than necessary included. */
  lemma FormsRead(s: seq<Byte>, u: nat, n: nat)
    requires s != [] && u > 0
    ensures Decode(s) == (u, n + 1) <==> Fits(u, n) && Form(u, n) <= s
  {
    if Fits(u, n) && Form(u, n) <= s {
      FormRead(s, u, n);
    }
    if Decode(s) == (u, n + 1) {
      LeadIs(s[0]);
      var b: nat := s[0] % Power(LeadBits(s[0]));
      ContinueGives(s, 1, b, Tails(LeadBits(s[0])), u);
      assert s[..n + 1] == [s[0]] + s[1..n + 1] == Form(u, n);
    }
  }

  /** Every value has its longer forms, and all of them are read as the value. */
  lemma OverlongRead(u: nat, n: nat, rest: seq<Byte>)
    requires u < LIMIT && CodeLength(u) <= n <= 5
    ensures Fits(u, n) && Decode(Form(u, n) + rest) == (u, n + 1) && n + 1 > |Encode(u)|
  {
    FirstByte(u);
    LongerFits(u, CodeLength(u) - 1, n);
    FormRead(Form(u, n) + rest, u, n);
  }

  lemma {:induction false} LongerFits(u: nat, m: nat, n: nat)
    requires u < LIMIT && m == CodeLength(u) - 1 <= n <= 5
    ensures Fits(u, n)
    decreases n - m
  {
    Shortest(u);
    if m < n {
      if m < n - 1 {
        LongerFits(u, m, n - 1);
      }
      HighShift(u, n - 1);
    }
  }

  // ----- The codes are the shortest forms -----

  function CodeLength(u: nat): nat {
    if u < 0x80 then 1 else if u < 0x800 then 2 else if u < 0x10000 then 3
    else if u < 0x200000 then 4 else if u < 0x4000000 then 5 else 6
  }

  lemma Powers()
    ensures Power(7) == 128 && Power(5) == 32 && Power(4) == 16 && Power(3) == 8 && Power(2) == 4 && Power(1) == 2
  {
    assert Power(3) == 2 * Power(2);
    assert Power(5) == 2 * Power(4);
    assert Power(7) == 2 * Power(6);
  }

  lemma {:induction false} OneMoreTail(u: nat, n: nat, h: nat, t: seq<Byte>)
    requires High(u, n) == h && TailsOf(u, n) == t
    ensures High(u, n + 1) == h / 64 && TailsOf(u, n + 1) == [Tail(h)] + t
  {
    HighShift(u, n);
  }

  /** Shifting by six bits at a time. */
  lemma Shifts(u: nat)
    ensures u / 64 / 64 == u / 4096 && u / 4096 / 64 == u / 0x40000
    ensures u / 0x40000 / 64 == u / 0x1000000 && u / 0x1000000 / 64 == u / 0x40000000
  {
  }

  lemma {:induction false} TailList(u: nat)
    ensures High(u, 1) == u / 64 && TailsOf(u, 1) == [Tail(u)]
    ensures High(u, 2) == u / 4096 && TailsOf(u, 2) == [Tail(u / 64), Tail(u)]
    ensures High(u, 3) == u / 0x40000 && TailsOf(u, 3) == [Tail(u / 4096), Tail(u / 64), Tail(u)]
    ensures High(u, 4) == u / 0x1000000 && TailsOf(u, 4) == [Tail(u / 0x40000), Tail(u / 4096), Tail(u / 64), Tail(u)]
    ensures High(u, 5) == u / 0x40000000
            && TailsOf(u, 5) == [Tail(u / 0x1000000), Tail(u / 0x40000), Tail(u / 4096), Tail(u / 64), Tail(u)]
  {
    var a, b, c, d := u / 64, u / 4096, u / 0x40000, u / 0x1000000;
    Shifts(u);
    OneMoreTail(u, 0, u, []);
    OneMoreTail(u, 1, a, [Tail(u)]);
    OneMoreTail(u, 2, b, [Tail(a), Tail(u)]);
    OneMoreTail(u, 3, c, [Tail(b), Tail(a), Tail(u)]);
    OneMoreTail(u, 4, d, [Tail(c), Tail(b), Tail(a), Tail(u)]);
  }

  lemma Quotients(u: nat)
    requires u < LIMIT
    ensures u < 0x800 ==> u / 64 % 32 == u / 64 < 32
    ensures u < 0x10000 ==> u / 4096 % 16 == u / 4096 < 16
    ensures u < 0x200000 ==> u / 0x40000 % 16 == u / 0x40000 < 8
    ensures u < 0x4000000 ==> u / 0x1000000 % 16 == u / 0x1000000 < 4
    ensures u / 0x40000000 % 2 == u / 0x40000000 < 2
  {
  }

  lemma TooLong(u: nat)
    ensures u >= 0x800 ==> u / 64 >= 32
    ensures u >= 0x10000 ==> u / 4096 >= 16
    ensures u >= 0x200000 ==> u / 0x40000 >= 8
    ensures u >= 0x4000000 ==> u / 0x1000000 >= 4
  {
  }

  /** encode_utf_8 writes the shortest form. */
  lemma {:induction false} Shortest(u: nat)
    requires u < LIMIT
    ensures Fits(u, CodeLength(u) - 1) && Encode(u) == Form(u, CodeLength(u) - 1)
    ensures CodeLength(u) > 1 ==> !Fits(u, CodeLength(u) - 2)
  {
    TailList(u);
    Quotients(u);
    TooLong(u);
  }

  /** The first byte alone tells the length. */
  lemma FirstByte(u: nat)
    requires u < LIMIT
    ensures |Encode(u)| == CodeLength(u)
    ensures u < 0x80 ==> Encode(u)[0] == u
    ensures u >= 0x80 ==> Encode(u)[0] >= 0xc0 && LeadBits(Encode(u)[0]) == 7 - CodeLength(u)
    ensures forall i :: 1 <= i < |Encode(u)| ==> IsTail(Encode(u)[i])
  {
    Shortest(u);
  }

  /** Every value comes back, whatever follows its code. */
  lemma RoundTrip(u: nat, rest: seq<Byte>)
    requires u < LIMIT
    ensures Decode(Encode(u) + rest) == (u, |Encode(u)|)
  {
    if u > 0 {
      Shortest(u);
      FormsRead(Encode(u) + rest, u, CodeLength(u) - 1);
    }
  }

  /** No code is the beginning of another. */
  lemma PrefixFree(u: nat, v: nat)
    requires u < LIMIT && v < LIMIT && Encode(u) <= Encode(v)
    ensures u == v
  {
    FirstByte(u);
    FirstByte(v);
    assert Encode(u)[0] == Encode(v)[0];
    assert |Encode(u)| == |Encode(v)|;
    RoundTrip(u, []);
    RoundTrip(v, []);
    assert Encode(u) + [] == Encode(u) == Encode(v) == Encode(v) + [];
  }

  /** A character is read as u in the length of u's code exactly when it is u's code. */
  lemma DecodesExactly(s: seq<Byte>, u: nat)
    requires s != [] && 0 < u < LIMIT
    ensures Decode(s) == (u, |Encode(u)|) <==> Encode(u) <= s
  {
    Shortest(u);
    FormsRead(s, u, CodeLength(u) - 1);
  }
}
