// Appendices E and F of GIF89a by themselves: which width a code has, which string it stands for and
// which row a run of indices goes to, said by counting codes and rows. From that, what becomes of a file.

module GifStandard {
  import Basics
  import opened GifScreen
  import opened GifLzw
  import opened GifBlocks
  import opened GifDeferred
  import GifImage

  // ----- Bits and widths -----

  /** Bits are numbered from the lowest. */
  lemma {:induction false} BitAt(x: nat, n: nat, i: nat)
    requires i < n
    ensures Bits(x, n)[i] <==> (x / Pow2(i)) % 2 == 1
    decreases i
  {
    if i == 0 {
      assert x / Pow2(0) == x;
    } else {
      BitAt(x / 2, n - 1, i - 1);
      DivideTwice(x, Pow2(i - 1));
    }
  }

  lemma DivideTwice(x: nat, d: nat)
    requires d > 0
    ensures x / 2 / d == x / (2 * d)
  {
    var q := x / 2 / d;
    var r, b := x / 2 - d * q, x % 2;
    assert 0 <= r < d;
    DoubleProduct(d, q);
    QuotientRest(2 * r + b, 2 * d, q);
  }

  /**
   * The code behind n others is as wide as it takes to have a number for the next free code, and no
   * wider: the codes in use and the next one number 2^root + 1 + n.
   */
  lemma {:induction false} WidthNeeded(root: nat, n: nat)
    requires 2 <= root <= 8 && n >= 1
    ensures var w, top := WidthAfter(root, n), Pow2(root) + 1 + n;
            && root < w <= MAX_WIDTH
            && (w < MAX_WIDTH ==> top < Pow2(w))
            && (w > root + 1 ==> Pow2(w - 1) <= top)
    decreases n
  {
    if n == 1 {
      ClearedSound(root);
    } else {
      WidthNeeded(root, n - 1);
      var w, top := WidthAfter(root, n - 1), Pow2(root) + n;
      if w < MAX_WIDTH {
        WidthGrows(w, top);
      }
    }
  }

  // ----- Strings -----

  ghost predicate NonEmpty(hist: seq<seq<nat>>) {
    forall i :: 0 <= i < |hist| ==> hist[i] != []
  }

  /**
   * The string s of a code c that follows the strings hist. A code past the control codes stands for an
   * earlier string with the first index of the one behind it, which may be s itself.
   */
  ghost predicate Means(root: nat, hist: seq<seq<nat>>, c: nat, s: seq<nat>) {
    var e := c - Pow2(root) - 2;
    if c < Pow2(root) then s == [c]
    else
      && 0 <= e < |hist| && s != [] && NonEmpty(hist)
      && s == hist[e] + [(hist + [s])[e + 1][0]]
  }

  /** The strings of a list of data and clear codes behind the strings hist. */
  ghost predicate Reads(root: nat, hist: seq<seq<nat>>, codes: seq<nat>, outs: seq<seq<nat>>)
    decreases |codes|
  {
    && |codes| == |outs|
    && (codes == [] ||
        if codes[0] == Pow2(root) then outs[0] == [] && Reads(root, [], codes[1..], outs[1..])
        else Means(root, hist, codes[0], outs[0]) && Reads(root, hist + [outs[0]], codes[1..], outs[1..]))
  }

  lemma {:induction false} MeansUnique(root: nat, hist: seq<seq<nat>>, c: nat, s: seq<nat>, t: seq<nat>)
    requires Means(root, hist, c, s) && Means(root, hist, c, t)
    ensures s == t
  {
    var e := c - Pow2(root) - 2;
    if c >= Pow2(root) {
      if e + 1 < |hist| {
        assert (hist + [s])[e + 1] == hist[e + 1] == (hist + [t])[e + 1];
      } else {
        assert (hist + [s])[e + 1] == s && (hist + [t])[e + 1] == t;
        assert s[0] == hist[e][0] == t[0];
      }
    }
  }

  /** There is one reading. */
  lemma {:induction false} ReadsUnique(root: nat, hist: seq<seq<nat>>, codes: seq<nat>, a: seq<seq<nat>>, b: seq<seq<nat>>)
    requires Reads(root, hist, codes, a) && Reads(root, hist, codes, b)
    ensures a == b
    decreases |codes|
  {
    if codes != [] {
      if codes[0] == Pow2(root) {
        ReadsUnique(root, [], codes[1..], a[1..], b[1..]);
      } else {
        MeansUnique(root, hist, codes[0], a[0], b[0]);
        ReadsUnique(root, hist + [a[0]], codes[1..], a[1..], b[1..]);
      }
      assert a == [a[0]] + a[1..] && b == [b[0]] + b[1..];
    }
  }

  /** A code other than the control codes is data exactly if there is a string for it. */
  lemma {:induction false} DataMeans(root: nat, hist: seq<seq<nat>>, c: nat)
    requires NonEmpty(hist) && c != Pow2(root) && c != Pow2(root) + 1
    ensures IsData(root, |hist|, c) <==> exists s :: Means(root, hist, c, s)
  {
    var e := c - Pow2(root) - 2;
    if c < Pow2(root) {
      assert Means(root, hist, c, [c]);
    } else if 0 <= e < |hist| {
      var s := hist[e] + [(hist + [hist[e]])[e + 1][0]];
      assert s[0] == hist[e][0];
      if e + 1 < |hist| {
        assert (hist + [s])[e + 1] == hist[e + 1] == (hist + [hist[e]])[e + 1];
      }
      assert Means(root, hist, c, s);
    }
  }

  // ----- The dictionary is that memory -----

  /** The state st after the data codes whose strings are hist. */
  ghost predicate Remembers(st: Lzw, hist: seq<seq<nat>>) {
    && st.Sound() && st.status == Going && NonEmpty(hist)
    && st.width == WidthAfter(st.root, |hist|)
    && st.last == (if hist == [] then Basics.None else Basics.Some(hist[|hist| - 1]))
    && |st.dict| == (if hist == [] then 0 else Basics.Min(|hist|, Capacity(st.root)) - 1)
    && forall e :: 0 <= e < |st.dict| ==> st.dict[e] == hist[e] + [hist[e + 1][0]]
  }

  lemma WidthStays(root: nat, n: nat)
    requires WidthAfter(root, n) == MAX_WIDTH && n >= 1
    ensures WidthAfter(root, n + 1) == MAX_WIDTH
  {
  }

  lemma RememberLearnt(st: Lzw, hist: seq<seq<nat>>, s: seq<nat>)
    requires Remembers(st, hist) && st.last.Some? && st.Top() < TABLE_SIZE && st.InRoot(s)
    ensures Remembers(Learnt(st, s), hist + [s])
  {
    LearntSound(st, s);
    var t, more := Learnt(st, s), hist + [s];
    forall e | 0 <= e < |t.dict|
      ensures t.dict[e] == more[e] + [more[e + 1][0]]
    {
      if e < |st.dict| {
        assert more[e] == hist[e] && more[e + 1] == hist[e + 1];
      }
    }
  }

  lemma RememberFull(st: Lzw, hist: seq<seq<nat>>, s: seq<nat>)
    requires Remembers(st, hist) && st.last.Some? && st.Top() >= TABLE_SIZE && st.InRoot(s)
    ensures Remembers(st.(last := Basics.Some(s)), hist + [s])
  {
    Pow2Max();
    Pow2Increases(st.root, 8);
    Pow2Increases(st.width, MAX_WIDTH);
    SameTable(st, st.(last := Basics.Some(s)));
    WidthStays(st.root, |hist|);
    var more := hist + [s];
    forall e | 0 <= e < |st.dict|
      ensures st.dict[e] == more[e] + [more[e + 1][0]]
    {
      assert more[e] == hist[e] && more[e + 1] == hist[e + 1];
    }
  }

  /** One data code. */
  lemma {:induction false} RememberData(st: Lzw, hist: seq<seq<nat>>, c: nat) returns (s: seq<nat>)
    requires Remembers(st, hist) && c < Pow2(st.width)
    requires c != st.ClearCode() && c != st.EndCode() && IsData(st.root, |hist|, c)
    ensures s == StepDeferred(st, c).1 && Means(st.root, hist, c, s)
    ensures StepDeferred(st, c).0.root == st.root && Remembers(StepDeferred(st, c).0, hist + [s])
  {
    StepDeferredSound(st, c);
    Pow2Max();
    Pow2Increases(st.width, MAX_WIDTH);
    s := StepDeferred(st, c).1;
    DataMeaning(st, hist, c);
    if st.last.None? {
      assert hist + [s] == [s];
    } else if st.Top() < TABLE_SIZE {
      RememberLearnt(st, hist, s);
    } else {
      RememberFull(st, hist, s);
    }
  }

  lemma {:induction false} DataMeaning(st: Lzw, hist: seq<seq<nat>>, c: nat)
    requires Remembers(st, hist) && c < Pow2(st.width) <= TABLE_SIZE
    requires c != st.ClearCode() && c != st.EndCode() && IsData(st.root, |hist|, c)
    ensures var s := StepDeferred(st, c).1;
            Means(st.root, hist, c, s) && st.InRoot(s)
  {
    var e := c - Pow2(st.root) - 2;
    if c >= Pow2(st.root) {
      if e < |st.dict| {
        EarlierString(hist, st.dict[e], e);
      } else {
        NewString(hist, st.last.value + [st.last.value[0]]);
      }
    }
  }

  lemma {:induction false} EarlierString(hist: seq<seq<nat>>, s: seq<nat>, e: nat)
    requires NonEmpty(hist) && e + 1 < |hist| && s == hist[e] + [hist[e + 1][0]]
    ensures s != [] && s == hist[e] + [(hist + [s])[e + 1][0]]
  {
    assert (hist + [s])[e + 1] == hist[e + 1];
  }

  lemma {:induction false} NewString(hist: seq<seq<nat>>, s: seq<nat>)
    requires NonEmpty(hist) && hist != [] && s == hist[|hist| - 1] + [hist[|hist| - 1][0]]
    ensures s != [] && s == hist[|hist| - 1] + [(hist + [s])[|hist|][0]]
  {
    assert (hist + [s])[|hist|] == s;
    assert s[0] == hist[|hist| - 1][0];
  }

  /** Behind any codes, decoding gives the strings that the codes stand for. */
  lemma {:induction false} ReadsFrom(st: Lzw, hist: seq<seq<nat>>, bits: seq<bool>) returns (outs: seq<seq<nat>>)
    requires Remembers(st, hist)
    ensures Reads(st.root, hist, Codes(st.root, |hist|, bits), outs)
    ensures RunDeferred(st, bits).out == Joined(outs)
    decreases |bits|
  {
    outs := [];
    if |bits| >= st.width {
      var c, more := Num(bits[..st.width]), bits[st.width..];
      if c == st.ClearCode() {
        ClearedSound(st.root);
        var rest := ReadsFrom(Cleared(st.root), [], more);
        outs := ReadsClear(st, hist, bits, more, rest);
      } else if c != st.EndCode() && IsData(st.root, |hist|, c) {
        var t, s := TakeData(st, hist, c, bits, more);
        var rest := ReadsFrom(t, hist + [s], more);
        outs := ReadsData(st, hist, c, s, bits, more, t, rest);
      } else {
        Stopped(st, hist, c, bits, more);
      }
    }
  }

  lemma {:induction false} OneStep(st: Lzw, bits: seq<bool>, c: nat, more: seq<bool>)
    requires st.Sound() && st.status == Going && |bits| >= st.width && c == Num(bits[..st.width]) && more == bits[st.width..]
    ensures c < Pow2(st.width) && StepDeferred(st, c).0.Sound()
    ensures RunDeferred(st, bits).out == StepDeferred(st, c).1 + RunDeferred(StepDeferred(st, c).0, more).out
  {
    StepDeferredSound(st, c);
  }

  lemma {:induction false} CodesFirst(root: nat, n: nat, bits: seq<bool>, c: nat, more: seq<bool>)
    requires |bits| >= WidthAfter(root, n) && c == Num(bits[..WidthAfter(root, n)]) && more == bits[WidthAfter(root, n)..]
    ensures Codes(root, n, bits) ==
              if c == Pow2(root) then [c] + Codes(root, 0, more)
              else if c != Pow2(root) + 1 && IsData(root, n, c) then [c] + Codes(root, n + 1, more)
              else []
  {
  }

  lemma {:induction false} TakeData(st: Lzw, hist: seq<seq<nat>>, c: nat, bits: seq<bool>, more: seq<bool>) returns (t: Lzw, s: seq<nat>)
    requires Remembers(st, hist) && |bits| >= st.width && Num(bits[..st.width]) == c && more == bits[st.width..]
    requires c != st.ClearCode() && c != st.EndCode() && IsData(st.root, |hist|, c)
    ensures Means(st.root, hist, c, s) && t.root == st.root && Remembers(t, hist + [s])
    ensures RunDeferred(st, bits).out == s + RunDeferred(t, more).out
  {
    s := RememberData(st, hist, c);
    t := StepDeferred(st, c).0;
    OneStep(st, bits, c, more);
  }

  /** Nothing follows the end of the codes. */
  lemma {:induction false} Stopped(st: Lzw, hist: seq<seq<nat>>, c: nat, bits: seq<bool>, more: seq<bool>)
    requires Remembers(st, hist) && |bits| >= st.width && Num(bits[..st.width]) == c && more == bits[st.width..]
    requires c != st.ClearCode() && (c == st.EndCode() || !IsData(st.root, |hist|, c))
    ensures RunDeferred(st, bits).out == [] && Codes(st.root, |hist|, bits) == []
  {
    OneStep(st, bits, c, more);
    CodesFirst(st.root, |hist|, bits, c, more);
  }

  lemma {:induction false} ReadsClear(st: Lzw, hist: seq<seq<nat>>, bits: seq<bool>, more: seq<bool>, rest: seq<seq<nat>>)
    returns (outs: seq<seq<nat>>)
    requires Remembers(st, hist) && |bits| >= st.width && Num(bits[..st.width]) == st.ClearCode() && more == bits[st.width..]
    requires Cleared(st.root).Sound() && RunDeferred(Cleared(st.root), more).out == Joined(rest)
    requires Reads(st.root, [], Codes(st.root, 0, more), rest)
    ensures Reads(st.root, hist, Codes(st.root, |hist|, bits), outs) && RunDeferred(st, bits).out == Joined(outs)
  {
    outs := [[]] + rest;
    OneStep(st, bits, st.ClearCode(), more);
    CodesFirst(st.root, |hist|, bits, st.ClearCode(), more);
    var codes := [Pow2(st.root)] + Codes(st.root, 0, more);
    assert codes[1..] == Codes(st.root, 0, more) && outs[1..] == rest;
  }

  lemma {:induction false} ReadsData(st: Lzw, hist: seq<seq<nat>>, c: nat, s: seq<nat>, bits: seq<bool>, more: seq<bool>,
                                     t: Lzw, rest: seq<seq<nat>>)
    returns (outs: seq<seq<nat>>)
    requires Remembers(st, hist) && |bits| >= st.width && Num(bits[..st.width]) == c && more == bits[st.width..]
    requires c != st.ClearCode() && c != st.EndCode() && IsData(st.root, |hist|, c) && Means(st.root, hist, c, s)
    requires t.Sound() && RunDeferred(st, bits).out == s + RunDeferred(t, more).out && RunDeferred(t, more).out == Joined(rest)
    requires Reads(st.root, hist + [s], Codes(st.root, |hist + [s]|, more), rest)
    ensures Reads(st.root, hist, Codes(st.root, |hist|, bits), outs) && RunDeferred(st, bits).out == Joined(outs)
  {
    outs := [s] + rest;
    CodesFirst(st.root, |hist|, bits, c, more);
    assert |hist + [s]| == |hist| + 1;
    var codes := [c] + Codes(st.root, |hist| + 1, more);
    assert codes[1..] == Codes(st.root, |hist| + 1, more) && outs[1..] == rest;
  }

  /** Appendix F, for every stream: what decoding delivers are the strings of its codes, end to end. */
  lemma {:induction false} DeferredReads(root: nat, bits: seq<bool>, outs: seq<seq<nat>>)
    requires 2 <= root <= 8 && Reads(root, [], Codes(root, 0, bits), outs)
    ensures Cleared(root).Sound() && RunDeferred(Cleared(root), bits).out == Joined(outs)
  {
    ClearedSound(root);
    var there := ReadsFrom(Cleared(root), [], bits);
    ReadsUnique(root, [], Codes(root, 0, bits), there, outs);
  }

  // ----- Rows -----

  /** Appendix E in numbers: how many of the first n rows come before row y. */
  function Earlier(n: nat, y: nat): (k: nat) {
    var m := Basics.Min(n, y);
    if y % 8 == 0 then (m + 7) / 8
    else if y % 8 == 4 then (n + 7) / 8 + (m + 3) / 8
    else if y % 4 == 2 then (n + 3) / 4 + (m + 1) / 4
    else (n + 1) / 2 + m / 2
  }

  /**
   * In an interlaced picture of h rows, every 8th row comes first, then every 8th from row 4 on, every
   * 4th from row 2 on and every 2nd from row 1 on, each from the top; in a plain one row y is the y-th.
   */
  lemma {:induction false} TurnNumbers(h: nat, i: nat)
    ensures 8 * i < h ==> Turn(true, h, 8 * i) == i
    ensures 8 * i + 4 < h ==> Turn(true, h, 8 * i + 4) == (h + 7) / 8 + i
    ensures 4 * i + 2 < h ==> Turn(true, h, 4 * i + 2) == (h + 3) / 4 + i
    ensures 2 * i + 1 < h ==> Turn(true, h, 2 * i + 1) == (h + 1) / 2 + i
    ensures i < h ==> Turn(false, h, i) == i
  {
    TurnEarlier(h, 8 * i);
    TurnEarlier(h, 8 * i + 4);
    TurnEarlier(h, 4 * i + 2);
    TurnEarlier(h, 2 * i + 1);
    TurnPlain(h, i);
    EarlierEighths(h, i);
    EarlierOthers(h, i);
  }

  lemma EarlierEighths(h: nat, i: nat)
    ensures 8 * i < h ==> Earlier(h, 8 * i) == i
    ensures 8 * i + 4 < h ==> Earlier(h, 8 * i + 4) == (h + 7) / 8 + i
  {
    Places(i);
  }

  lemma EarlierOthers(h: nat, i: nat)
    ensures 4 * i + 2 < h ==> Earlier(h, 4 * i + 2) == (h + 3) / 4 + i
    ensures 2 * i + 1 < h ==> Earlier(h, 2 * i + 1) == (h + 1) / 2 + i
  {
    Places(i);
  }

  lemma Places(i: nat)
    ensures (8 * i) % 8 == 0 && (8 * i + 4) % 8 == 4 && (4 * i + 2) % 4 == 2 && (2 * i + 1) % 2 == 1
    ensures (4 * i + 2) % 8 != 0 && (4 * i + 2) % 8 != 4 && (2 * i + 1) % 8 != 0 && (2 * i + 1) % 8 != 4
    ensures (2 * i + 1) % 4 != 2
    ensures (8 * i + 7) / 8 == i && (4 * i + 3) / 4 == i && (2 * i + 1) / 2 == i
  {
  }

  lemma {:induction false} TurnPlain(h: nat, y: nat)
    ensures Turn(false, h, y) == Basics.Min(h, y)
  {
    if h > 0 {
      TurnPlain(h - 1, y);
    }
  }

  lemma {:induction false} TurnEarlier(h: nat, y: nat)
    ensures Turn(true, h, y) == Earlier(h, y)
  {
    if h > 0 {
      TurnEarlier(h - 1, y);
      OneRowMore(h - 1, y);
    } else {
      assert y % 8 == 0 || y % 8 == 4 || y % 4 == 2 || (0 + 1) / 2 == 0;
    }
  }

  lemma OneRowMore(n: nat, y: nat)
    ensures Earlier(n + 1, y) == Earlier(n, y) + if Before(true, n, y) then 1 else 0
  {
    StepBy8(n);
    StepBy4(n);
    StepBy2(n);
    Residues(n);
    if n < y {
      MoreAbove(n, y);
    }
  }

  lemma MoreAbove(n: nat, y: nat)
    requires n < y
    ensures Earlier(n + 1, y) == Earlier(n, y) + if Before(true, n, y) then 1 else 0
  {
    StepBy8(n);
    StepBy4(n);
    StepBy2(n);
    Residues(n);
    assert Basics.Min(n, y) == n && Basics.Min(n + 1, y) == n + 1;
  }

  lemma StepBy8(n: nat)
    ensures (n + 8) / 8 == (n + 7) / 8 + if n % 8 == 0 then 1 else 0
    ensures (n + 4) / 8 == (n + 3) / 8 + if n % 8 == 4 then 1 else 0
  {
  }

  lemma StepBy4(n: nat)
    ensures (n + 4) / 4 == (n + 3) / 4 + if n % 4 == 0 then 1 else 0
    ensures (n + 2) / 4 == (n + 1) / 4 + if n % 4 == 2 then 1 else 0
  {
  }

  lemma StepBy2(n: nat)
    ensures (n + 2) / 2 == (n + 1) / 2 + if n % 2 == 0 then 1 else 0
    ensures (n + 1) / 2 == n / 2 + n % 2
  {
  }

  lemma Residues(n: nat)
    ensures n % 4 == n % 8 % 4 && n % 2 == n % 4 % 2
    ensures n % 4 == 0 <==> n % 8 == 0 || n % 8 == 4
    ensures n % 2 == 0 <==> n % 8 == 0 || n % 8 == 4 || n % 4 == 2
  {
    RestTwice(n / 8, n % 8, 4);
    RestTwice(n / 4, n % 4, 2);
  }

  lemma RestTwice(q: nat, r: nat, d: nat)
    requires d > 0
    ensures (2 * d * q + r) % d == r % d
  {
    var k := 2 * q + r / d;
    QuotientRest(r % d, d, k);
    assert d * k == d * (2 * q) + d * (r / d) == 2 * d * q + d * (r / d);
  }

  // ----- A whole file -----

  /**
   * Every pixel: in the sub-blocks of an image, whatever their cut, a stream that needs no deferred clear
   * code and has enough indices shows, at x in row y, the colour of the index that the strings of its
   * codes, end to end, have at that place of the run whose turn the row is.
   */
  lemma {:induction false} PixelShown(s: Screen, root: nat, parts: seq<seq<nat>>, after: seq<nat>, outs: seq<seq<nat>>,
                                      b: Blocks, d: Decoded, y: nat, x: nat)
    requires Fresh(s) && 2 <= root <= 8 && y < s.height && x < s.width
    requires forall i :: 0 <= i < |parts| ==> parts[i] != []
    requires Reads(root, [], Codes(root, 0, AllBits(Joined(parts))), outs)
    requires ShortStretches(root, Codes(root, 0, AllBits(Joined(parts))))
    requires |Joined(outs)| >= s.width * s.height && InPalette(s.palette, Joined(outs))
    requires Cleared(root).Sound()
    requires b == Unblock(InBlocks(parts) + after, 0) && d == Run(Cleared(root), AllBits(b.payload))
    ensures Determined(s, d)
    ensures var t := Closed(Outcome(s, d), b.terminated);
            t.ended && PixelIs(t, Turn(s.interlDist != 1, s.height, y), y, x, Joined(outs))
  {
    UnblockInBlocks(parts, after);
    Delivers(root, AllBits(Joined(parts)), outs, d);
    PictureShown(s, root, parts, after, b, d, y, x);
  }

  lemma {:induction false} PictureShown(s: Screen, root: nat, parts: seq<seq<nat>>, after: seq<nat>, b: Blocks, d: Decoded, y: nat, x: nat)
    requires Fresh(s) && 2 <= root <= 8 && y < s.height && x < s.width
    requires forall i :: 0 <= i < |parts| ==> parts[i] != []
    requires Cleared(root).Sound()
    requires b == Unblock(InBlocks(parts) + after, 0) && d == Run(Cleared(root), AllBits(b.payload))
    requires |d.out| >= s.width * s.height && InPalette(s.palette, d.out)
    ensures Determined(s, d)
    ensures var t := Closed(Outcome(s, d), b.terminated);
            t.ended && PixelIs(t, Turn(s.interlDist != 1, s.height, y), y, x, d.out)
  {
    NothingBefore(AllBits(b.payload));
    GifImage.WholeImage(s, root, parts, after, b, d, y);
    GifImage.EnoughPixels(s, d.out, y);
    PaletteKept(s, d.out);
    InRun(s.interlDist != 1, Closed(Outcome(s, d), b.terminated), y, x, d.out);
  }

  /** The pixel at x in row y has the colour of index number k * width + x. */
  ghost predicate PixelIs(t: Screen, k: nat, y: nat, x: nat, indices: seq<nat>) {
    var i := k * t.width + x;
    && y < |t.rows| && x < |t.rows[y]| && 0 <= i < |indices| && indices[i] < |t.palette|
    && t.rows[y][x] == t.palette[indices[i]]
  }

  lemma {:induction false} Delivers(root: nat, bits: seq<bool>, outs: seq<seq<nat>>, d: Decoded)
    requires 2 <= root <= 8 && Reads(root, [], Codes(root, 0, bits), outs)
    requires ShortStretches(root, Codes(root, 0, bits))
    requires Cleared(root).Sound() && d == Run(Cleared(root), bits)
    ensures d.out == Joined(outs)
  {
    DeferredAgrees(root, bits);
    DeferredReads(root, bits, outs);
  }

  lemma {:induction false} InRun(interlaced: bool, t: Screen, y: nat, x: nat, indices: seq<nat>)
    requires InPalette(t.palette, indices) && x < t.width
    requires HoldsRun(interlaced, t, y, Colours(t.palette, indices))
    ensures PixelIs(t, Turn(interlaced, t.height, y), y, x, indices)
  {
    var k := Turn(interlaced, t.height, y);
    assert (k + 1) * t.width == k * t.width + t.width;
  }

  lemma {:induction false} PaletteKept(s: Screen, cs: seq<nat>)
    requires s.ended || Ready(s)
    ensures Feed(s, cs).palette == s.palette
    decreases |cs|
  {
    if cs != [] && !s.ended {
      PutReady(s, cs[0]);
      PutPalette(s, cs[0]);
      PaletteKept(Put(s, cs[0]), cs[1..]);
    }
  }

  lemma PutPalette(s: Screen, c: nat)
    requires Ready(s)
    ensures Put(s, c).palette == s.palette
  {
    if c < |s.palette| {
      var row := s.rows[s.line][s.xoff := s.palette[c]];
      var u := s.(rows := s.rows[s.line := row], xoff := s.xoff + 1);
      if u.xoff >= u.width {
        assert RowDone(u) == Settle(Filled(s, row));
        SettlePalette(Filled(s, row));
      }
    }
  }

  lemma {:induction false} SettlePalette(s: Screen)
    ensures Settle(s).palette == s.palette
    decreases if s.yoff >= s.height then s.interlDist else 0
  {
    if s.yoff >= s.height && s.interlDist > 2 {
      var dist := NextPass(s.interlDist);
      SettlePalette(s.(interlDist := dist, yoff := dist / 2, line := dist / 2));
    }
  }
}
