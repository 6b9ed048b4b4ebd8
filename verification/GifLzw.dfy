// The code stream of a GIF image: variable-width codes packed least significant bit first, and the
// LZW decoding of GIF89a Appendix F with a dictionary of strings.

module GifLzw {
  import Basics

  const TABLE_SIZE := 4096
  const MAX_WIDTH := 12

  function Pow2(n: nat): (p: nat)
    ensures p > 0
  {
    if n == 0 then 1 else 2 * Pow2(n - 1)
  }

  lemma {:induction false} Pow2Increases(a: nat, b: nat)
    requires a <= b
    ensures Pow2(a) <= Pow2(b)
    ensures a < b ==> 2 * Pow2(a) <= Pow2(b)
  {
    if a < b {
      Pow2Increases(a, b - 1);
    }
  }

  lemma Pow2Max()
    ensures Pow2(2) == 4 && Pow2(8) == 256 && Pow2(MAX_WIDTH) == TABLE_SIZE
  {
    assert Pow2(4) == 16 && Pow2(6) == 64 && Pow2(8) == 256 && Pow2(10) == 1024;
  }

  // ----- Bits -----

  function Num(bits: seq<bool>): (n: nat)
    ensures n < Pow2(|bits|)
  {
    if bits == [] then 0 else (if bits[0] then 1 else 0) + 2 * Num(bits[1..])
  }

  /** The n lowest bits of x, lowest first. */
  function Bits(x: nat, n: nat): (bits: seq<bool>)
    ensures |bits| == n
    decreases n
  {
    if n == 0 then [] else [x % 2 == 1] + Bits(x / 2, n - 1)
  }

  lemma {:induction false} NumBits(x: nat, n: nat)
    requires x < Pow2(n)
    ensures Num(Bits(x, n)) == x
    decreases n
  {
    if n > 0 {
      NumBits(x / 2, n - 1);
      assert Bits(x, n)[1..] == Bits(x / 2, n - 1);
    }
  }

  lemma {:induction false} NumConcat(a: seq<bool>, b: seq<bool>)
    ensures Num(a + b) == Num(a) + Pow2(|a|) * Num(b)
  {
    if a == [] {
      assert a + b == b;
    } else {
      NumConcat(a[1..], b);
      assert (a + b)[1..] == a[1..] + b;
      DoubleProduct(Pow2(|a| - 1), Num(b));
    }
  }

  lemma DoubleProduct(x: int, y: int)
    ensures 2 * (x * y) == (2 * x) * y
  {
  }

  /** Masking and shifting a number takes its bits apart. */
  lemma {:induction false} NumSplit(a: seq<bool>, b: seq<bool>)
    ensures Num(a + b) % Pow2(|a|) == Num(a)
    ensures Num(a + b) / Pow2(|a|) == Num(b)
  {
    NumConcat(a, b);
    var low, d, high := Num(a), Pow2(|a|), Num(b);
    QuotientRest(low, d, high);
  }

  lemma QuotientRest(r: nat, d: nat, q: nat)
    requires r < d
    ensures (r + d * q) % d == r && (r + d * q) / d == q
  {
    var x := r + d * q;
    var y, z := x / d, x % d;
    assert x == d * y + z;
    QuotientUnique(d, q, r, y, z);
  }

  lemma QuotientUnique(d: nat, q: int, r: int, y: int, z: int)
    requires d * q + r == d * y + z && 0 <= r < d && 0 <= z < d
    ensures q == y && r == z
  {
    MulSub(d, q, y);
    if q > y {
      MulAtLeast(d, q - y);
    } else if y > q {
      MulSub(d, y, q);
      MulAtLeast(d, y - q);
    }
  }

  lemma MulSub(d: int, q: int, y: int)
    ensures d * (q - y) == d * q - d * y
  {
  }

  lemma MulAtLeast(d: nat, k: int)
    requires k >= 1
    ensures d * k >= d
  {
  }

  lemma ProductNat(x: nat, y: nat)
    ensures x * y >= 0
  {
  }

  lemma QuotientNat(x: nat, d: nat)
    requires d > 0
    ensures x / d >= 0
  {
  }

  // ----- Decoding -----

  datatype Status = Going | Ended | Full | Invalid

  /** dict: the strings added since the last clear code; last: the string of the previous code. */
  datatype Lzw = Lzw(root: nat, dict: seq<seq<nat>>, last: Basics.Option<seq<nat>>, width: nat, status: Status) {
    function ClearCode(): nat {
      Pow2(root)
    }

    function EndCode(): nat {
      Pow2(root) + 1
    }

    /** The next free code. */
    function Top(): nat {
      Pow2(root) + 2 + |dict|
    }

    /** The code stands for a string of the dictionary. */
    predicate Known(c: nat) {
      c < Pow2(root) || (EndCode() < c < Top())
    }

    function Meaning(c: nat): (s: seq<nat>)
      requires Known(c)
    {
      if c < Pow2(root) then [c] else dict[c - EndCode() - 1]
    }

    ghost predicate Sound() {
      && 2 <= root <= 8 && root < width <= MAX_WIDTH
      && Top() <= Pow2(width) && (width < MAX_WIDTH ==> Top() < Pow2(width))
      && (width > root + 1 ==> Pow2(width - 1) <= Top())
      && (forall i :: 0 <= i < |dict| ==> InRoot(dict[i]))
      && (last.Some? ==> InRoot(last.value))
    }

    ghost predicate InRoot(s: seq<nat>) {
      s != [] && forall i :: 0 <= i < |s| ==> s[i] < Pow2(root)
    }
  }

  function Cleared(root: nat): Lzw {
    Lzw(root, [], Basics.None, root + 1, Going)
  }

  function NextWidth(width: nat, top: nat): nat {
    if top == Pow2(width) && width != MAX_WIDTH then width + 1 else width
  }

  /** One code: the new state and the indices it stands for. A full table ends the picture here. */
  function Step(st: Lzw, c: nat): (r: (Lzw, seq<nat>))
    requires st.Sound()
  {
    if c == st.ClearCode() then (Cleared(st.root), [])
    else if c == st.EndCode() then (st.(status := Ended), [])
    else if st.last.None? then
      if c < st.ClearCode() then (st.(last := Basics.Some([c])), [c]) else (st.(status := Invalid), [])
    else if c > st.Top() then (st.(status := Invalid), [])
    else if st.Top() >= TABLE_SIZE then (st.(status := Full), [])
    else
      (Learnt(st, Current(st, c)), Current(st, c))
  }

  /** The string of a code; one that is just being learnt repeats the start of the last string. */
  function Current(st: Lzw, c: nat): (s: seq<nat>)
    requires st.Sound() && st.last.Some? && c <= st.Top()
    ensures st.InRoot(s)
  {
    if st.Known(c) then st.Meaning(c) else st.last.value + [st.last.value[0]]
  }

  /** The string of the last code, lengthened by the first index of this one, enters the dictionary. */
  function Learnt(st: Lzw, cur: seq<nat>): Lzw
    requires st.last.Some? && cur != []
  {
    st.(dict := st.dict + [st.last.value + [cur[0]]], last := Basics.Some(cur), width := NextWidth(st.width, st.Top() + 1))
  }

  lemma StepSound(st: Lzw, c: nat)
    requires st.Sound()
    ensures Step(st, c).0.Sound() && Step(st, c).0.root == st.root
    ensures forall i :: 0 <= i < |Step(st, c).1| ==> Step(st, c).1[i] < Pow2(st.root)
  {
    if c == st.ClearCode() {
      ClearedSound(st.root);
    } else {
      if st.last.None? && c < st.ClearCode() {
        SameTable(st, st.(last := Basics.Some([c])));
      }
      if st.last.Some? && c <= st.Top() < TABLE_SIZE {
        LearntSound(st, Current(st, c));
      }
      SameTable(st, st.(status := Step(st, c).0.status));
    }
  }

  lemma SameTable(st: Lzw, t: Lzw)
    requires st.Sound() && t.root == st.root && t.dict == st.dict && t.width == st.width
    requires t.last == st.last || (t.last.Some? && st.InRoot(t.last.value))
    ensures t.Sound()
  {
  }

  lemma LearntSound(st: Lzw, cur: seq<nat>)
    requires st.Sound() && st.last.Some? && st.Top() < TABLE_SIZE && st.InRoot(cur)
    ensures Learnt(st, cur).Sound()
  {
    Pow2Max();
    WidthGrows(st.width, st.Top());
  }

  /** A width that just holds the codes in use just holds one more after growing as needed. */
  lemma WidthGrows(width: nat, top: nat)
    requires width <= MAX_WIDTH && top < Pow2(width)
    ensures var w := NextWidth(width, top + 1);
            && width <= w <= MAX_WIDTH && top + 1 <= Pow2(w) && (w < MAX_WIDTH ==> top + 1 < Pow2(w))
            && (w > width ==> Pow2(w - 1) <= top + 1)
  {
    if width < MAX_WIDTH {
      assert Pow2(width + 1) == 2 * Pow2(width);
    }
  }

  lemma ClearedSound(root: nat)
    requires 2 <= root <= 8
    ensures Cleared(root).Sound()
  {
    Pow2Increases(2, root);
    Pow2Max();
    assert Pow2(root + 1) == 2 * Pow2(root);
  }

  /** Where decoding stands after some bits: the bits left over, and the indices delivered on the way. */
  datatype Decoded = Decoded(st: Lzw, rest: seq<bool>, out: seq<nat>) {
    function After(out0: seq<nat>): Decoded {
      Decoded(st, rest, out0 + out)
    }
  }

  /** Decodes as many whole codes as there are. */
  function Run(st: Lzw, bits: seq<bool>): (r: Decoded)
    requires st.Sound()
    ensures r.st.Sound()
    decreases |bits|
  {
    if st.status != Going || |bits| < st.width then Decoded(st, bits, [])
    else
      StepSound(st, Num(bits[..st.width]));
      var r := Step(st, Num(bits[..st.width]));
      Run(r.0, bits[st.width..]).After(r.1)
  }

  lemma {:induction false} RunStep(st: Lzw, bits: seq<bool>, code: seq<bool>, more: seq<bool>)
    requires st.Sound() && st.status == Going && |code| == st.width && bits == code + more
    ensures Step(st, Num(code)).0.Sound()
    ensures Run(st, bits) == Run(Step(st, Num(code)).0, more).After(Step(st, Num(code)).1)
  {
    assert bits[..st.width] == code && bits[st.width..] == more;
    StepSound(st, Num(code));
  }

  /** Masking the bits collected gives the next code, shifting them what is left for later. */
  lemma {:induction false} NextCode(st: Lzw, bits: seq<bool>)
    requires st.Sound() && st.status == Going && |bits| >= st.width
    ensures Num(bits) % Pow2(st.width) == Num(bits[..st.width])
    ensures Num(bits) / Pow2(st.width) == Num(bits[st.width..])
    ensures var r := Step(st, Num(bits[..st.width]));
            r.0.Sound() && Run(st, bits) == Run(r.0, bits[st.width..]).After(r.1)
  {
    var code, more := bits[..st.width], bits[st.width..];
    assert bits == code + more;
    NumSplit(code, more);
    RunStep(st, bits, code, more);
  }

  /** However the bits come in, decoding goes on where it stopped. */
  lemma {:induction false} RunConcat(st: Lzw, a: seq<bool>, b: seq<bool>)
    requires st.Sound()
    ensures Run(st, a + b) == Run(Run(st, a).st, Run(st, a).rest + b).After(Run(st, a).out)
    decreases |a|
  {
    if st.status != Going || |a| < st.width {
      var r := Run(st, a + b);
      assert [] + r.out == r.out;
    } else {
      var code, more := a[..st.width], a[st.width..];
      var r := Step(st, Num(code));
      assert a + b == code + (more + b) && a == code + more;
      RunStep(st, a + b, code, more + b);
      RunStep(st, a, code, more);
      RunConcat(r.0, more, b);
      AfterAfter(r.1, Run(r.0, more).out, Run(Run(r.0, more).st, Run(r.0, more).rest + b));
    }
  }

  lemma AfterNothing(d: Decoded)
    ensures d.After([]) == d
  {
    assert [] + d.out == d.out;
  }

  lemma AfterAfter(a: seq<nat>, b: seq<nat>, d: Decoded)
    ensures d.After(b).After(a) == d.After(a + b)
  {
    assert a + (b + d.out) == (a + b) + d.out;
  }
}
