// Which frame lists can be divided in 32-bit integers (html.c, parse_frame_widths): the sums and
// products on the way, and when they stay in range.

module FrameInts {
  import opened Basics
  import opened Frames

  predicate InInt(x: int) {
    -0x8000_0000 <= x < 0x8000_0000
  }

  /** The columns between the cells. */
  function Borders(count: nat, graphics: bool): int {
    if graphics then 0 else count - 1
  }

  /**
   * All sums and products of the division of this list stay in range: a percentage of the window (line
   * 2266), the room needed, also less the window (lines 2277-2282), and then, if relative cells spread
   * (lines 2309-2313), the sum of their weights and each weight times what is left over, else (lines
   * 2283-2290) each cell times the room.
   */
  ghost predicate FitsInt(specs: seq<FrameSpec>, ww: int, www: int, graphics: bool) {
    var w := WantedAll(specs, ww, www);
    var b, v, room := AtLeastOne(w), Weights(w), Room(|specs|, ww, graphics);
    && (forall i :: 0 <= i < |specs| && specs[i].Percent? ==> InInt(Min(specs[i].n, MAX_NUMBER) * ww))
    && InInt(Sum(b) + Borders(|specs|, graphics)) && InInt(Sum(b) - room)
    && if Spreads(w, room) then InInt(Sum(v)) && forall i :: 0 <= i < |v| ==> InInt(v[i] * (room - Sum(b)))
       else forall i :: 0 <= i < |b| ==> InInt(b[i] * room)
  }

  /** The widest cell any entry can ask for. */
  function Widest(ww: int, www: int): int
    requires www >= 1
  {
    Max(Max(100 * ww, (MAX_NUMBER + (www - 1) / 2) / www), 1)
  }

  /** What a caller can check of a list's length and the window. */
  predicate FitsAll(count: nat, ww: int, www: int, graphics: bool)
    requires www >= 1
  {
    && InInt(count * Widest(ww, www) + Borders(count, graphics))
    && InInt(Widest(ww, www) * Room(count, ww, graphics))
  }

  /** All lists of a length can be divided in a window if, and only if, the longest widths can. */
  lemma {:induction false} FitsExactly(count: nat, ww: int, www: int, graphics: bool)
    requires count >= 1 && ww >= 0 && www >= 1
    ensures FitsAll(count, ww, www, graphics)
            <==> forall specs :: |specs| == count ==> FitsInt(specs, ww, www, graphics)
  {
    if FitsAll(count, ww, www, graphics) {
      forall specs: seq<FrameSpec> | |specs| == count
        ensures FitsInt(specs, ww, www, graphics)
      {
        EveryListFits(specs, ww, www, graphics);
      }
    } else {
      var specs := WidestList(count, ww, www, graphics);
      assert |specs| == count && !FitsInt(specs, ww, www, graphics);
    }
  }

  /** What any entry asks for. */
  lemma WantedRange(f: FrameSpec, ww: int, www: int)
    requires ww >= 0 && www >= 1
    ensures -MAX_NUMBER <= Wanted(f, ww, www) <= Widest(ww, www)
  {
    var n := Min(f.n, MAX_NUMBER);
    if f.Percent? {
      ProductAtMost(n, ww, MAX_NUMBER, ww);
    } else if f.Pixels? {
      DivGrows(n + (www - 1) / 2, MAX_NUMBER + (www - 1) / 2, www);
    }
  }

  lemma DivGrows(a: nat, b: nat, d: int)
    requires a <= b && d >= 1
    ensures 0 <= a / d <= b / d
  {
    var x, y := a / d, b / d;
    assert d * x <= a && b < d * y + d;
    assert d * (y + 1) == d * y + d;
    CancelFactor(d, x, y + 1);
  }

  lemma ProductAtMost(a: int, b: int, m: int, n: int)
    requires 0 <= a <= m && 0 <= b <= n
    ensures 0 <= a * b <= m * n
  {
    assert a * b <= a * n;
    assert a * n <= m * n;
  }

  lemma ListRange(specs: seq<FrameSpec>, ww: int, www: int)
    requires ww >= 0 && www >= 1
    ensures var w := WantedAll(specs, ww, www);
            && (forall i :: 0 <= i < |w| ==> 1 <= AtLeastOne(w)[i] <= Widest(ww, www))
            && (forall i :: 0 <= i < |w| ==> 0 <= Weights(w)[i] <= MAX_NUMBER)
  {
    var w := WantedAll(specs, ww, www);
    forall i | 0 <= i < |w|
      ensures -MAX_NUMBER <= w[i] <= Widest(ww, www)
    {
      WantedRange(specs[i], ww, www);
    }
  }

  lemma {:induction false} SumWithin(s: seq<int>, low: int, high: int)
    requires forall i :: 0 <= i < |s| ==> low <= s[i] <= high
    ensures low * |s| <= Sum(s) <= high * |s|
  {
    if s != [] {
      SumWithin(s[1..], low, high);
      assert high * |s| == high * (|s| - 1) + high && low * |s| == low * (|s| - 1) + low;
    }
  }

  /** In range, the window is narrow. */
  lemma NarrowWindow(count: nat, ww: int, www: int, graphics: bool)
    requires count >= 1 && ww >= 0 && www >= 1 && FitsAll(count, ww, www, graphics)
    ensures ww < 6554
  {
    var b, room := Widest(ww, www), Room(count, ww, graphics);
    if ww >= 6554 {
      assert b * room + count * b == b * (room + count);
      ProductAtMost(100 * ww, ww, b, room + count);
      ProductAtMost(655400, 6554, 100 * ww, ww);
    }
  }

  lemma CellFits(c: int, b: int, room: int)
    requires 1 <= c <= b && InInt(b * room)
    ensures InInt(c * room)
  {
    if room >= 0 {
      ProductAtMost(c, room, b, room);
    } else {
      ProductAtMost(c, -room, b, -room);
      assert c * -room == -(c * room) && b * -room == -(b * room);
    }
  }

  /** The sums of a list whose cells are at most m wide. */
  lemma {:induction false} SumsFit(b: seq<int>, m: int, ww: int, graphics: bool)
    requires b != [] && 0 <= ww < 6554 && forall i :: 0 <= i < |b| ==> 1 <= b[i] <= m
    requires InInt(|b| * m + Borders(|b|, graphics))
    ensures |b| <= Sum(b) && InInt(Sum(b) + Borders(|b|, graphics)) && InInt(Sum(b) - Room(|b|, ww, graphics))
  {
    SumWithin(b, 1, m);
    assert m * |b| == |b| * m;
  }

  /** What relative cells share in a narrow window. */
  lemma {:induction false} SharesFit(v: seq<int>, left: int)
    requires 0 <= left < 6554 && |v| < 6554 && forall i :: 0 <= i < |v| ==> 0 <= v[i] <= MAX_NUMBER
    ensures InInt(Sum(v)) && forall i :: 0 <= i < |v| ==> InInt(v[i] * left)
  {
    SumWithin(v, 0, MAX_NUMBER);
    forall i | 0 <= i < |v|
      ensures InInt(v[i] * left)
    {
      ProductAtMost(v[i], left, MAX_NUMBER, 6554);
    }
  }

  lemma {:induction false} EveryListFits(specs: seq<FrameSpec>, ww: int, www: int, graphics: bool)
    requires specs != [] && ww >= 0 && www >= 1 && FitsAll(|specs|, ww, www, graphics)
    ensures FitsInt(specs, ww, www, graphics)
  {
    var w := WantedAll(specs, ww, www);
    var b, v, room := AtLeastOne(w), Weights(w), Room(|specs|, ww, graphics);
    ListRange(specs, ww, www);
    NarrowWindow(|specs|, ww, www, graphics);
    SumsFit(b, Widest(ww, www), ww, graphics);
    forall i | 0 <= i < |specs| && specs[i].Percent?
      ensures InInt(Min(specs[i].n, MAX_NUMBER) * ww)
    {
      ProductAtMost(Min(specs[i].n, MAX_NUMBER), ww, MAX_NUMBER, 6554);
    }
    if Spreads(w, room) {
      SharesFit(v, room - Sum(b));
    } else {
      forall i | 0 <= i < |b|
        ensures InInt(b[i] * room)
      {
        CellFits(b[i], Widest(ww, www), room);
      }
    }
  }

  /** The list that asks for the widest cells only. */
  lemma WidestList(count: nat, ww: int, www: int, graphics: bool) returns (specs: seq<FrameSpec>)
    requires count >= 1 && ww >= 0 && www >= 1 && !FitsAll(count, ww, www, graphics)
    ensures |specs| == count && !FitsInt(specs, ww, www, graphics)
  {
    var f := if 100 * ww >= (MAX_NUMBER + (www - 1) / 2) / www then Percent(MAX_NUMBER) else Pixels(MAX_NUMBER);
    specs := seq(count, _ => f);
    var w := WantedAll(specs, ww, www);
    WidestWanted(f, ww, www);
    assert forall i :: 0 <= i < count ==> w[i] == Wanted(specs[i], ww, www) == Wanted(f, ww, www);
    AllWidest(w, Widest(ww, www));
    assert !Spreads(w, Room(count, ww, graphics));
  }

  lemma {:induction false} AllWidest(w: seq<int>, m: int)
    requires w != [] && forall i :: 0 <= i < |w| ==> w[i] >= 0 && Max(w[i], 1) == m
    ensures Sum(AtLeastOne(w)) == |w| * m && AtLeastOne(w)[0] == m
  {
    SumWithin(AtLeastOne(w), m, m);
    assert m * |w| == |w| * m;
  }

  lemma WidestWanted(f: FrameSpec, ww: int, www: int)
    requires ww >= 0 && www >= 1
    requires f == if 100 * ww >= (MAX_NUMBER + (www - 1) / 2) / www then Percent(MAX_NUMBER) else Pixels(MAX_NUMBER)
    ensures Wanted(f, ww, www) >= 0 && Max(Wanted(f, ww, www), 1) == Widest(ww, www)
  {
    DivGrows(0, MAX_NUMBER + (www - 1) / 2, www);
  }

  /** In graphics mode it is enough to look at the window and at the sum. */
  lemma GraphicsWindow(count: nat, ww: int, www: int)
    requires count >= 1 && ww >= 100 && www >= 1
    ensures FitsAll(count, ww, www, true) <==> ww <= 4634 && count * (100 * ww) < 0x8000_0000
  {
    WidestPercent(ww, www);
    assert (100 * ww) * ww == 100 * (ww * ww);
    if ww <= 4634 {
      ProductAtMost(ww, ww, 4634, 4634);
    } else {
      ProductAtMost(4635, 4635, ww, ww);
    }
    ProductAtMost(0, 0, count, 100 * ww);
  }

  lemma WidestPercent(ww: int, www: int)
    requires ww >= 100 && www >= 1
    ensures Widest(ww, www) == 100 * ww
  {
    var q := (MAX_NUMBER + (www - 1) / 2) / www;
    assert www * q <= MAX_NUMBER + (www - 1) / 2;
    if www > 1 {
      ProductAtMost(2, MAX_NUMBER, www, MAX_NUMBER);
    }
    assert www * (MAX_NUMBER + 1) == www * MAX_NUMBER + www;
    CancelFactor(www, q, MAX_NUMBER + 1);
  }
}
