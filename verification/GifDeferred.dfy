// Deferred clear codes. Appendix F of GIF89a lets an encoder go on with a full table until it sends a
// clear code; this decoder (gif.c, add_table) ends the picture at the first such code instead.

module GifDeferred {
  import Basics
  import opened GifLzw

  /** One code as Appendix F has it: a full table is left as it is until the next clear code. */
  function StepDeferred(st: Lzw, c: nat): (r: (Lzw, seq<nat>))
    requires st.Sound()
  {
    if c == st.ClearCode() then (Cleared(st.root), [])
    else if c == st.EndCode() then (st.(status := Ended), [])
    else if st.last.None? then
      if c < st.ClearCode() then (st.(last := Basics.Some([c])), [c]) else (st.(status := Invalid), [])
    else if st.Known(c) then
      var s := st.Meaning(c);
      if st.Top() < TABLE_SIZE then (Learnt(st, s), s) else (st.(last := Basics.Some(s)), s)
    else if c == st.Top() < TABLE_SIZE then
      var s := st.last.value + [st.last.value[0]];
      (Learnt(st, s), s)
    else (st.(status := Invalid), [])
  }

  lemma StepDiffers(st: Lzw, c: nat)
    requires st.Sound() && st.status == Going && c < Pow2(st.width)
    ensures if Step(st, c).0.status == Full then Step(st, c).1 == [] && StepDeferred(st, c).1 != []
            else Step(st, c) == StepDeferred(st, c)
  {
    Pow2Max();
    Pow2Increases(st.width, MAX_WIDTH);
  }

  lemma StepDeferredSound(st: Lzw, c: nat)
    requires st.Sound()
    ensures StepDeferred(st, c).0.Sound()
  {
    StepSound(st, c);
  }

  function RunDeferred(st: Lzw, bits: seq<bool>): (r: Decoded)
    requires st.Sound()
    ensures r.st.Sound()
    decreases |bits|
  {
    if st.status != Going || |bits| < st.width then Decoded(st, bits, [])
    else
      StepDeferredSound(st, Num(bits[..st.width]));
      var r := StepDeferred(st, Num(bits[..st.width]));
      RunDeferred(r.0, bits[st.width..]).After(r.1)
  }

  lemma {:induction false} RunTakesCode(st: Lzw, bits: seq<bool>)
    requires st.Sound() && st.status == Going && |bits| >= st.width
    ensures var c, more := Num(bits[..st.width]), bits[st.width..];
            && Step(st, c).0.Sound() && StepDeferred(st, c).0.Sound()
            && Run(st, bits) == Run(Step(st, c).0, more).After(Step(st, c).1)
            && RunDeferred(st, bits) == RunDeferred(StepDeferred(st, c).0, more).After(StepDeferred(st, c).1)
  {
    StepSound(st, Num(bits[..st.width]));
    StepDeferredSound(st, Num(bits[..st.width]));
  }

  // ----- What the stream alone says -----

  /** How many codes between two clear codes deliver indices before the table is full. */
  function Capacity(root: nat): int {
    TABLE_SIZE - Pow2(root) - 1
  }

  /** The width of the code that follows n data codes. */
  function WidthAfter(root: nat, n: nat): (w: nat)
    ensures w > root
  {
    if n <= 1 then root + 1 else NextWidth(WidthAfter(root, n - 1), Pow2(root) + 1 + n)
  }

  /** A code in that place which means something: a colour at first, then anything up to the next code that is free. */
  predicate IsData(root: nat, n: nat, c: nat) {
    if n == 0 then c < Pow2(root) else c <= Pow2(root) + 1 + n
  }

  /** The data codes and clear codes of a stream that follows n data codes, up to its end. */
  function Codes(root: nat, n: nat, bits: seq<bool>): (codes: seq<nat>)
    decreases |bits|
  {
    var width := WidthAfter(root, n);
    if |bits| < width then []
    else
      var c, more := Num(bits[..width]), bits[width..];
      if c == Pow2(root) then [c] + Codes(root, 0, more)
      else if c != Pow2(root) + 1 && IsData(root, n, c) then [c] + Codes(root, n + 1, more)
      else []
  }

  /** Codes i to j - 1 hold no clear code. */
  predicate NoClear(root: nat, codes: seq<nat>, i: nat, j: nat) {
    j <= |codes| && forall k :: i <= k < j ==> codes[k] != Pow2(root)
  }

  /** No stretch without a clear code holds more codes than the table takes. */
  ghost predicate ShortStretches(root: nat, codes: seq<nat>) {
    forall i, j :: 0 <= i <= j && NoClear(root, codes, i, j) ==> j - i <= Capacity(root)
  }

  /** The same for codes that follow n data codes, read one by one. */
  predicate Within(root: nat, n: nat, codes: seq<nat>)
    decreases |codes|
  {
    if codes == [] then true
    else if codes[0] == Pow2(root) then Within(root, 0, codes[1..])
    else n < Capacity(root) && Within(root, n + 1, codes[1..])
  }

  /** The codes before the first clear code still find room behind n others. */
  ghost predicate FrontFits(root: nat, n: nat, codes: seq<nat>) {
    forall j :: 0 <= j && NoClear(root, codes, 0, j) ==> n + j <= Capacity(root)
  }

  lemma {:induction false} NoClearRest(root: nat, codes: seq<nat>, i: nat, j: nat)
    requires codes != [] && i <= j
    ensures NoClear(root, codes[1..], i, j) <==> NoClear(root, codes, i + 1, j + 1)
    ensures i == 0 && codes[0] != Pow2(root) ==> (NoClear(root, codes[1..], 0, j) <==> NoClear(root, codes, 0, j + 1))
  {
    if j < |codes| {
      assert forall k :: i <= k < j ==> codes[1..][k] == codes[k + 1];
      assert forall k :: i + 1 <= k < j + 1 ==> codes[1..][k - 1] == codes[k];
    }
  }

  lemma {:induction false} ShortRest(root: nat, codes: seq<nat>)
    requires codes != []
    ensures ShortStretches(root, codes) ==> ShortStretches(root, codes[1..])
    ensures ShortStretches(root, codes[1..]) && FrontFits(root, 0, codes) ==> ShortStretches(root, codes)
  {
    forall i, j | 0 <= i <= j
      ensures NoClear(root, codes[1..], i, j) <==> NoClear(root, codes, i + 1, j + 1)
    {
      NoClearRest(root, codes, i, j);
    }
    if ShortStretches(root, codes[1..]) && FrontFits(root, 0, codes) {
      forall i, j | 0 <= i <= j && NoClear(root, codes, i, j)
        ensures j - i <= Capacity(root)
      {
        if i > 0 {
          assert NoClear(root, codes[1..], i - 1, j - 1);
        }
      }
    }
  }

  lemma {:induction false} FrontRest(root: nat, n: nat, codes: seq<nat>)
    requires codes != [] && n <= Capacity(root)
    ensures codes[0] == Pow2(root) ==> FrontFits(root, n, codes)
    ensures codes[0] != Pow2(root) && n < Capacity(root) ==> (FrontFits(root, n, codes) <==> FrontFits(root, n + 1, codes[1..]))
    ensures codes[0] != Pow2(root) && n == Capacity(root) ==> !FrontFits(root, n, codes)
  {
    if codes[0] == Pow2(root) {
      assert forall j :: 0 < j ==> !NoClear(root, codes, 0, j);
    } else {
      assert NoClear(root, codes, 0, 1);
      forall j | 0 <= j
        ensures NoClear(root, codes[1..], 0, j) <==> NoClear(root, codes, 0, j + 1)
      {
        NoClearRest(root, codes, 0, j);
      }
      if FrontFits(root, n + 1, codes[1..]) && n < Capacity(root) {
        forall j | 0 <= j && NoClear(root, codes, 0, j)
          ensures n + j <= Capacity(root)
        {
          if j > 0 {
            assert NoClear(root, codes[1..], 0, j - 1);
          }
        }
      }
    }
  }

  lemma FrontFewer(root: nat, n: nat, codes: seq<nat>)
    requires FrontFits(root, n, codes)
    ensures FrontFits(root, 0, codes)
  {
  }

  lemma {:induction false} WithinStretches(root: nat, n: nat, codes: seq<nat>)
    requires n <= Capacity(root)
    ensures Within(root, n, codes) <==> ShortStretches(root, codes) && FrontFits(root, n, codes)
    decreases |codes|
  {
    if codes != [] {
      ShortRest(root, codes);
      FrontRest(root, n, codes);
      if codes[0] == Pow2(root) {
        FrontRest(root, 0, codes);
        WithinStretches(root, 0, codes[1..]);
        if ShortStretches(root, codes[1..]) {
          ShortFront(root, codes[1..]);
        }
      } else if n < Capacity(root) {
        WithinStretches(root, n + 1, codes[1..]);
        if FrontFits(root, n, codes) {
          FrontFewer(root, n, codes);
        }
      }
    }
  }

  lemma {:induction false} ShortFront(root: nat, codes: seq<nat>)
    requires ShortStretches(root, codes)
    ensures FrontFits(root, 0, codes)
  {
  }

  // ----- What the decoder does with it -----

  /** The decoder has taken n data codes since the last clear code. */
  predicate Counted(st: Lzw, n: nat) {
    && st.status == Going && (st.last.None? <==> n == 0)
    && |st.dict| == (if n == 0 then 0 else n - 1)
    && st.width == WidthAfter(st.root, n)
  }

  lemma CountedStep(st: Lzw, n: nat, c: nat)
    requires st.Sound() && Counted(st, n) && n <= Capacity(st.root) && c < Pow2(st.width)
    ensures var t := Step(st, c).0;
            if c == Pow2(st.root) then t.Sound() && Counted(t, 0) && t.root == st.root
            else if c == Pow2(st.root) + 1 || !IsData(st.root, n, c) then t.status == Ended || t.status == Invalid
            else if n == Capacity(st.root) then t.status == Full
            else t.Sound() && Counted(t, n + 1) && t.root == st.root
  {
    Pow2Max();
    Pow2Increases(st.width, MAX_WIDTH);
    StepSound(st, c);
  }

  /**
   * The decoder delivers what Appendix F asks for if, and only if, no stretch of the stream between
   * clear codes holds more data codes than the table takes.
   */
  lemma {:induction false} DeferredAgrees(root: nat, bits: seq<bool>)
    requires 2 <= root <= 8
    ensures Cleared(root).Sound()
    ensures var run, deferred := Run(Cleared(root), bits), RunDeferred(Cleared(root), bits);
            && run.out <= deferred.out
            && (run.out == deferred.out <==> ShortStretches(root, Codes(root, 0, bits)))
            && (run.st.status == Full <==> !ShortStretches(root, Codes(root, 0, bits)))
  {
    ClearedSound(root);
    Pow2Max();
    Pow2Increases(root, 8);
    DeferredFrom(Cleared(root), 0, bits);
    var codes := Codes(root, 0, bits);
    WithinStretches(root, 0, codes);
    if ShortStretches(root, codes) {
      ShortFront(root, codes);
    }
  }

  lemma {:induction false} DeferredFrom(st: Lzw, n: nat, bits: seq<bool>)
    requires st.Sound() && Counted(st, n) && n <= Capacity(st.root)
    ensures Run(st, bits).out <= RunDeferred(st, bits).out
    ensures Run(st, bits).out == RunDeferred(st, bits).out <==> Within(st.root, n, Codes(st.root, n, bits))
    ensures Run(st, bits).st.status == Full <==> !Within(st.root, n, Codes(st.root, n, bits))
    decreases |bits|
  {
    if |bits| >= st.width {
      var c, more := Num(bits[..st.width]), bits[st.width..];
      RunTakesCode(st, bits);
      StepDiffers(st, c);
      CountedStep(st, n, c);
      CodesStep(st.root, n, bits, c, more);
      var r := Step(st, c);
      if r.0.status == Going {
        DeferredFrom(r.0, if c == Pow2(st.root) then 0 else n + 1, more);
        PrefixAfter(r.1, Run(r.0, more).out, RunDeferred(r.0, more).out);
      }
    }
  }

  lemma {:induction false} CodesStep(root: nat, n: nat, bits: seq<bool>, c: nat, more: seq<bool>)
    requires |bits| >= WidthAfter(root, n) && c == Num(bits[..WidthAfter(root, n)]) && more == bits[WidthAfter(root, n)..]
    ensures Within(root, n, Codes(root, n, bits)) <==>
            if c == Pow2(root) then Within(root, 0, Codes(root, 0, more))
            else if c != Pow2(root) + 1 && IsData(root, n, c) then
              n < Capacity(root) && Within(root, n + 1, Codes(root, n + 1, more))
            else true
  {
    if c == Pow2(root) {
      assert ([c] + Codes(root, 0, more))[1..] == Codes(root, 0, more);
    } else if c != Pow2(root) + 1 && IsData(root, n, c) {
      assert ([c] + Codes(root, n + 1, more))[1..] == Codes(root, n + 1, more);
    }
  }

  lemma PrefixAfter(a: seq<nat>, b: seq<nat>, c: seq<nat>)
    requires b <= c
    ensures a + b <= a + c && (a + b == a + c <==> b == c)
  {
    assert c == b + c[|b|..];
    assert a + c == (a + b) + c[|b|..];
    if a + b == a + c {
      assert |b| == |c|;
    }
  }

  /** A stream of n+1 zero codes, all of them valid, after which n strings have been learnt. */
  lemma {:induction false} ZeroCodes(root: nat, n: nat) returns (bits: seq<bool>)
    requires 2 <= root <= 8 && Pow2(root) + 2 + n <= TABLE_SIZE
    ensures Cleared(root).Sound()
    ensures var d := Run(Cleared(root), bits);
            d.st.status == Going && d.rest == [] && d.st.root == root && d.st.last.Some? && |d.st.dict| == n
  {
    ClearedSound(root);
    var before: Decoded;
    if n == 0 {
      bits := [];
      before := Decoded(Cleared(root), [], []);
    } else {
      bits := ZeroCodes(root, n - 1);
      before := Run(Cleared(root), bits);
    }
    ZeroStep(before.st);
    OneCode(Cleared(root), bits, before, 0);
    bits := bits + Bits(0, before.st.width);
  }

  /** The code 0 is always valid, and learns a string unless it is the first. */
  lemma ZeroStep(st: Lzw)
    requires st.Sound() && st.status == Going && (st.last.Some? ==> st.Top() < TABLE_SIZE)
    ensures var t := Step(st, 0).0;
            && t.status == Going && t.root == st.root && t.last.Some?
            && |t.dict| == |st.dict| + if st.last.Some? then 1 else 0
  {
    assert 0 < st.ClearCode();
  }

  lemma {:induction false} JustOneCode(st: Lzw, c: nat, code: seq<bool>)
    requires st.Sound() && st.status == Going && |code| == st.width && Num(code) == c
    ensures Run(st, code).st == Step(st, c).0 && Run(st, code).rest == []
  {
    assert code + [] == code;
    RunStep(st, code, code, []);
    var t := Step(st, c).0;
    assert Run(t, []) == Decoded(t, [], []);
  }

  lemma {:induction false} GoOn(st: Lzw, a: seq<bool>, b: seq<bool>, d: Decoded)
    requires st.Sound() && d == Run(st, a) && d.rest == []
    ensures Run(st, a + b) == Run(d.st, b).After(d.out)
  {
    NothingBefore(b);
    RunConcat(st, a, b);
  }

  lemma NothingBefore(b: seq<bool>)
    ensures [] + b == b
  {
  }

  lemma {:induction false} OneMore(st: Lzw, bits: seq<bool>, d: Decoded, c: nat, code: seq<bool>)
    requires st.Sound() && d == Run(st, bits) && d.st.status == Going && d.rest == []
    requires |code| == d.st.width && Num(code) == c
    ensures Run(st, bits + code).st == Step(d.st, c).0
    ensures Run(st, bits + code).rest == []
  {
    GoOn(st, bits, code, d);
    JustOneCode(d.st, c, code);
  }

  /** A stream that stops between two codes, lengthened by one code. */
  lemma {:induction false} OneCode(st: Lzw, bits: seq<bool>, d: Decoded, c: nat)
    requires st.Sound() && d == Run(st, bits) && d.st.status == Going && d.rest == [] && c < Pow2(d.st.width)
    ensures Run(st, bits + Bits(c, d.st.width)).st == Step(d.st, c).0
    ensures Run(st, bits + Bits(c, d.st.width)).rest == []
  {
    NumBits(c, d.st.width);
    OneMore(st, bits, d, c, Bits(c, d.st.width));
  }

  /** The two do come apart: for every code size some stream of valid codes fills the table and goes on. */
  lemma FullReachable(root: nat) returns (bits: seq<bool>)
    requires 2 <= root <= 8
    ensures Cleared(root).Sound() && Run(Cleared(root), bits).st.status == Full
    ensures Run(Cleared(root), bits).out != RunDeferred(Cleared(root), bits).out
  {
    Pow2Increases(root, 8);
    Pow2Max();
    bits := ZeroCodes(root, TABLE_SIZE - Pow2(root) - 2);
    var d := Run(Cleared(root), bits);
    OneCode(Cleared(root), bits, d, 0);
    bits := bits + Bits(0, d.st.width);
    DeferredAgrees(root, bits);
  }
}
