// What the entries of a list of frame widths ask for and what the cells get, in inequalities between the
// numbers themselves: percentages of the window, pixels in columns, and shares of what is left over.

module FrameShares {
  import opened Basics
  import opened Frames

  /** Numbers count up to 10000. */
  function Counted(f: FrameSpec): nat {
    if f.n > 10000 then 10000 else f.n
  }

  /** A percentage is rounded down, pixels to the nearest column, and a weight is at least one. */
  lemma WantedMeans(f: FrameSpec, ww: int, www: int)
    ensures var w, n := Wanted(f, ww, www), Counted(f);
            match f
            case Percent(_) => (ww >= 0 ==> 100 * w <= n * ww < 100 * w + 100) && (ww <= 0 ==> 100 * w - 100 < n * ww <= 100 * w)
            case Pixels(_) => (www > 0 ==> 2 * www * w - www < 2 * n <= 2 * www * w + www) && (www == 0 ==> w == n)
            case Relative(_) => w == -(if n == 0 then 1 else n)
  {
    var n := Counted(f);
    match f
    case Percent(_) =>
      Truncated(n * ww, 100);
      Sign(n, ww);
    case Pixels(_) =>
      Truncated(www - 1, 2);
      if www > 0 {
        NearestColumn(n, www, Wanted(f, ww, www));
      }
    case Relative(_) =>
  }

  lemma Sign(n: nat, ww: int)
    ensures (ww >= 0 ==> n * ww >= 0) && (ww <= 0 ==> n * ww <= 0)
  {
  }

  lemma Truncated(a: int, b: int)
    requires b > 0
    ensures a >= 0 ==> b * TruncDiv(a, b) <= a < b * TruncDiv(a, b) + b
    ensures a <= 0 ==> b * TruncDiv(a, b) - b < a <= b * TruncDiv(a, b)
  {
    var q := Abs(a) / b;
    assert b * q <= Abs(a) < b * q + b;
    assert b * -q == -(b * q);
  }

  lemma NearestColumn(n: nat, www: int, w: int)
    requires www > 0 && w == TruncDiv(n + TruncDiv(www - 1, 2), www)
    ensures 2 * www * w - www < 2 * n <= 2 * www * w + www
  {
    var half := TruncDiv(www - 1, 2);
    Truncated(www - 1, 2);
    Truncated(n + half, www);
    assert 2 * www * w == 2 * (www * w);
  }

  /** In text mode one column is left between neighbours; cells and borders together are the window. */
  lemma {:induction false} WindowFilled(o: seq<int>, ww: int, graphics: bool)
    requires o != [] && Divides(o, Room(|o|, ww, graphics))
    requires if graphics then ww >= 0 else ww >= |o| - 1
    ensures Sum(o) + (if graphics then 0 else |o| - 1) == ww
  {
  }

  /** x is the share of `total` that goes to b out of d, rounded down, or one more. */
  predicate IsShare(x: int, b: int, total: int, d: int) {
    d * (x - 1) <= b * total < d * (x + 1)
  }

  lemma {:induction false} ShareBetween(x: int, b: int, total: int, d: int)
    requires b >= 0 && total >= 0 && d > 0 && Share(b, total, d) <= x <= Share(b, total, d) + 1
    ensures IsShare(x, b, total, d)
  {
    var f := Share(b, total, d);
    ShareBounds(b, total, d);
    assert d * (f - 1) == d * f - d && d * (f + 1) == d * f + d && d * (f + 2) == d * f + d + d;
  }

  /**
   * Where no relative entry has anything to share and no cell's share is less than one, every cell has its
   * share of the room by what it asked for, zero counting as one, up to the one unit that rounding may add.
   */
  lemma {:induction false} ShareOfRoom(o: seq<int>, w: seq<int>, room: int, k: nat)
    requires k < |o| == |w| && room >= 0 && !Spreads(w, room) && FollowsTarget(o, w, room)
    requires forall j :: 0 <= j < |w| ==> Max(w[j], 1) * room >= Sum(AtLeastOne(w))
    ensures IsShare(o[k], Max(w[k], 1), room, Sum(AtLeastOne(w)))
  {
    var b := AtLeastOne(w);
    var t := Shares(b, room, Sum(b));
    SumPositive(b);
    SharesAt(b, room, Sum(b), k);
    forall j | 0 <= j < |b|
      ensures t[j] >= 1
    {
      SharesAt(b, room, Sum(b), j);
      ShareBounds(b[j], room, Sum(b));
      assert b[j] * room == Max(w[j], 1) * room;
      CancelFactor(Sum(b), 1, t[j] + 1);
      assert Sum(b) * (t[j] + 1) == Sum(b) * t[j] + Sum(b);
    }
    var n :| MoreBefore(o, t, b, n);
    ShareBetween(o[k], b[k], room, Sum(b));
  }

  /**
   * Where they do, a width asked for outright is granted, a zero becomes one, and a weight gets one and its
   * share of what that leaves over, again up to one unit.
   */
  lemma {:induction false} ShareOfRest(o: seq<int>, w: seq<int>, room: int, k: nat)
    requires k < |o| == |w| && Spreads(w, room) && FollowsTarget(o, w, room)
    ensures w[k] > 0 ==> o[k] == w[k]
    ensures w[k] == 0 ==> o[k] == 1
    ensures w[k] < 0 ==> IsShare(o[k] - 1, -w[k], room - Sum(AtLeastOne(w)), Sum(Weights(w)))
  {
    var b, v := AtLeastOne(w), Weights(w);
    var rest := room - Sum(b);
    var t := AddEach(b, Shares(v, rest, Sum(v)));
    SumPositive(b);
    SharesAt(v, rest, Sum(v), k);
    var n :| MoreBefore(o, t, v, n);
    if w[k] < 0 {
      SumNonNegative(v);
      ShareBetween(o[k] - 1, v[k], rest, Sum(v));
    } else {
      ShareOfNothing(rest, Sum(v));
    }
  }
}
