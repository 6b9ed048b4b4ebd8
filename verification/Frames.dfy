// Dividing a window among frames (html.c, parse_frame_widths): percentages, pixels and relative
// widths are turned into cells that add up to the room available, whatever was asked for.

module Frames {
  import opened Basics

  /** One entry of a cols= or rows= list: the number in front of '%', of '*', or of neither. */
  datatype FrameSpec = Percent(n: nat) | Relative(n: nat) | Pixels(n: nat)

  const MAX_NUMBER := 10000

  /** C's division, which drops the fraction towards zero. */
  function TruncDiv(a: int, b: int): int
    requires b != 0
  {
    if (a >= 0) == (b > 0) then Abs(a) / Abs(b) else -(Abs(a) / Abs(b))
  }

  function Abs(a: int): nat {
    if a < 0 then -a else a
  }

  /** What the list asks for: a width, or minus the weight of a relative entry. */
  function Wanted(f: FrameSpec, ww: int, www: int): int {
    var n := if f.n > MAX_NUMBER then MAX_NUMBER else f.n;
    match f
    case Percent(_) => TruncDiv(n * ww, 100)
    case Pixels(_) => TruncDiv(n + TruncDiv(www - 1, 2), if www == 0 then 1 else www)
    case Relative(_) => if n == 0 then -1 else -n
  }

  /** The room left for the cells: text mode keeps one column between neighbours for the border. */
  function Room(count: nat, ww: int, graphics: bool): int {
    if graphics then ww else ww - (count - 1)
  }

  ghost predicate AllAtLeast(s: seq<int>, m: int) {
    forall k :: 0 <= k < |s| ==> s[k] >= m
  }

  ghost predicate AllAtMost(s: seq<int>, m: int) {
    forall k :: 0 <= k < |s| ==> s[k] <= m
  }

  function AtLeastOne(s: seq<int>): (t: seq<int>)
    ensures |t| == |s| && forall k :: 0 <= k < |s| ==> t[k] == Max(s[k], 1)
  {
    seq(|s|, k requires 0 <= k < |s| => Max(s[k], 1))
  }

  lemma {:induction false} SumPositive(s: seq<int>)
    requires forall k :: 0 <= k < |s| ==> s[k] >= 1
    ensures Sum(s) >= |s|
  {
    if s != [] {
      SumPositive(s[..|s| - 1]);
      SumLast(s);
    }
  }

  lemma {:induction false} SumBounds(s: seq<int>, m: int)
    requires forall k :: 0 <= k < |s| ==> s[k] <= m
    ensures Sum(s) <= m * |s|
  {
    if s != [] {
      SumBounds(s[..|s| - 1], m);
      SumLast(s);
    }
  }

  /** The share of a total that goes to weight w out of d. */
  function Share(w: int, total: int, d: int): int {
    TruncDiv(w * total, if d == 0 then 1 else d)
  }

  lemma DivBounds(a: int, d: int)
    requires a >= 0 && d > 0
    ensures a / d >= 0 && d * (a / d) <= a < d * (a / d) + d
  {
  }

  lemma ShareBounds(w: int, total: int, d: int)
    requires w >= 0 && total >= 0 && d > 0
    ensures Share(w, total, d) >= 0
    ensures d * Share(w, total, d) <= w * total < d * Share(w, total, d) + d
  {
    var a := w * total;
    assert a >= 0;
    assert Share(w, total, d) == a / d;
    DivBounds(a, d);
  }

  lemma NegativeShare(w: int, total: int, d: int)
    requires w >= 0 && total < 0 && d > 0
    ensures Share(w, total, d) <= 0
    ensures d * Share(w, total, d) >= w * total
  {
    var a := w * -total;
    assert w * total == -a <= 0;
    assert Share(w, total, d) == -(a / d);
    DivBounds(a, d);
    assert d * -(a / d) == -(d * (a / d));
  }

  lemma ShareOfNothing(total: int, d: int)
    ensures Share(0, total, d) == 0
  {
    assert 0 * total == 0;
  }

  /** Every weight of w replaced by its share. */
  function Shares(w: seq<int>, total: int, d: int): (t: seq<int>)
    ensures |t| == |w|
  {
    if w == [] then [] else Shares(w[..|w| - 1], total, d) + [Share(w[|w| - 1], total, d)]
  }

  lemma {:induction false} SharesAt(w: seq<int>, total: int, d: int, k: nat)
    requires k < |w|
    ensures Shares(w, total, d)[k] == Share(w[k], total, d)
  {
    if k < |w| - 1 {
      SharesAt(w[..|w| - 1], total, d, k);
    }
  }

  /** d times the rounded total never overshoots the exact one, and stays within d per positive weight. */
  ghost predicate NearExact(dShares: int, exact: int, dPositives: int, total: int) {
    if total >= 0 then
      dShares <= exact <= dShares + dPositives && (dPositives > 0 ==> exact < dShares + dPositives)
    else
      dShares >= exact
  }

  lemma {:induction false} SharesLoss(w: seq<int>, total: int, d: int)
    requires d > 0 && AllAtLeast(w, 0)
    ensures NearExact(d * Sum(Shares(w, total, d)), Sum(w) * total, d * Positives(w), total)
  {
    if w != [] {
      var n := |w| - 1;
      SharesLoss(w[..n], total, d);
      SumLast(w);
      SumLast(Shares(w, total, d));
      assert Shares(w, total, d)[..n] == Shares(w[..n], total, d);
      SharesLossStep(w[n], total, d, Sum(w[..n]), Sum(Shares(w[..n], total, d)), Positives(w[..n]));
    }
  }

  lemma SharesLossStep(w: int, total: int, d: int, weight: int, shares: int, n: nat)
    requires d > 0 && w >= 0
    requires NearExact(d * shares, weight * total, d * n, total)
    ensures NearExact(d * (shares + Share(w, total, d)), (weight + w) * total, d * (n + if w > 0 then 1 else 0), total)
  {
    var f := Share(w, total, d);
    assert d * (shares + f) == d * shares + d * f;
    assert (weight + w) * total == weight * total + w * total;
    assert d * (n + 1) == d * n + d;
    assert d * n >= 0;
    if total >= 0 {
      ShareBounds(w, total, d);
      if w == 0 {
        CancelFactor(d, f, 0);
        CancelFactor(d, 0, f + 1);
        assert d * (f + 1) == d * f + d;
      }
    } else {
      NegativeShare(w, total, d);
    }
  }

  /** How many weights are positive. */
  ghost function Positives(w: seq<int>): nat {
    if w == [] then 0 else Positives(w[..|w| - 1]) + if w[|w| - 1] > 0 then 1 else 0
  }

  lemma {:induction false} PositivesAtMost(w: seq<int>)
    ensures Positives(w) <= |w|
    ensures (exists k :: 0 <= k < |w| && w[k] > 0) ==> Positives(w) > 0
  {
    if w != [] {
      PositivesAtMost(w[..|w| - 1]);
    }
  }

  lemma PositivesPrefix(w: seq<int>, i: nat)
    requires i < |w|
    ensures Positives(w[..i + 1]) == Positives(w[..i]) + if w[i] > 0 then 1 else 0
  {
    assert w[..i + 1][..i] == w[..i];
  }

  lemma {:induction false} PositivesMonotone(w: seq<int>, i: nat)
    requires i <= |w|
    ensures Positives(w[..i]) <= Positives(w)
    decreases |w| - i
  {
    if i == |w| {
      assert w[..i] == w;
    } else {
      PositivesMonotone(w, i + 1);
      PositivesPrefix(w, i);
    }
  }

  /** When the weights add up to d, the shares miss the total by less than one unit per positive weight. */
  lemma {:induction false} SharesNearTotal(w: seq<int>, total: int, d: int)
    requires d == Sum(w) > 0 && AllAtLeast(w, 0)
    requires Positives(w) > 0
    ensures total >= 0 ==> total - Positives(w) < Sum(Shares(w, total, d)) <= total
    ensures total < 0 ==> Sum(Shares(w, total, d)) >= total
    ensures if total >= 0 then AllAtLeast(Shares(w, total, d), 0) else AllAtMost(Shares(w, total, d), 0)
  {
    SharesLoss(w, total, d);
    NearExactCancel(d, Sum(Shares(w, total, d)), total, Positives(w));
    forall k | 0 <= k < |w|
      ensures if total >= 0 then Shares(w, total, d)[k] >= 0 else Shares(w, total, d)[k] <= 0
    {
      SharesAt(w, total, d, k);
      if total >= 0 {
        ShareBounds(w[k], total, d);
      } else {
        NegativeShare(w[k], total, d);
      }
    }
  }

  lemma NearExactCancel(d: int, shares: int, total: int, n: int)
    requires d > 0 && n > 0 && NearExact(d * shares, d * total, d * n, total)
    ensures total >= 0 ==> total - n < shares <= total
    ensures total < 0 ==> shares >= total
  {
    CancelFactor(d, shares, total);
    CancelFactor(d, total, shares);
    CancelFactor(d, total, shares + n);
    assert d * (shares + n) == d * shares + d * n;
    assert d * n > 0;
  }

  lemma CancelFactor(d: int, a: int, b: int)
    requires d > 0
    ensures d * a <= d * b ==> a <= b
    ensures d * a < d * b ==> a < b
  {
    assert d * (b - a) == d * b - d * a;
    if a > b {
      assert d * (a - b) > 0;
    }
  }

  /** o is t, except that the first n cells with a positive weight, if there are any, have one more. */
  ghost predicate MoreBefore(o: seq<int>, t: seq<int>, v: seq<int>, n: int) {
    && |o| == |t| == |v|
    && forall k :: 0 <= k < |o| ==> o[k] == t[k] + if k < n && v[k] > 0 then 1 else 0
  }

  /** What is missing from the shares t goes to the leftmost cells with a weight, one unit each. */
  ghost predicate LeftmostMore(o: seq<int>, t: seq<int>, v: seq<int>) {
    exists n :: MoreBefore(o, t, v, n)
  }

  /** Scales cells whose widths were given outright so that they fill the room (lines 2280-2300). */
  method Distribute(o: array<int>, q0: int, ww: int, ghost room: int, ghost w: seq<int>, ghost t: seq<int>)
    requires o.Length >= 1
    requires w == AtLeastOne(o[..]) && t == Shares(w, room, Sum(w))
    requires q0 - ww == Sum(w) - room
    modifies o
    ensures room >= 0 ==> Sum(o[..]) == room && LeftmostMore(o[..], t, w) && AllAtLeast(t, 0)
    ensures room < 0 ==> o[..] == t && AllAtMost(t, 0)
  {
    ClampToOne(o);
    SumPositive(w);
    PositivesAtMost(w);
    var q := q0 - ww;
    var d := 0;
    for i := 0 to o.Length
      invariant o[..] == w && d == Sum(w[..i])
    {
      d := d + o[i];
      SumPrefix(w, i);
    }
    assert w[..o.Length] == w;
    assert Positives(w) > 0 by {
      assert w[0] > 0;
    }
    SharesNearTotal(w, room, d);
    q := ScaleAll(o, q, d, room);
    Correct(o, q);
    assert room >= 0 ==> MoreBefore(o[..], t, w, -q);
  }

  /** Raises every cell below one to one. */
  method ClampToOne(o: array<int>)
    modifies o
    ensures o[..] == AtLeastOne(old(o[..]))
  {
    for i := 0 to o.Length
      invariant forall k :: 0 <= k < i ==> o[k] == Max(old(o[k]), 1)
      invariant forall k :: i <= k < o.Length ==> o[k] == old(o[k])
    {
      if o[i] < 1 {
        o[i] := 1;
      }
    }
  }

  /** Replaces each cell by its share; q ends as the error still to be corrected. */
  method ScaleAll(o: array<int>, q0: int, d: int, ghost room: int) returns (q: int)
    requires q0 == d - room && d == Sum(o[..])
    modifies o
    ensures o[..] == Shares(old(o[..]), room, d)
    ensures q == Sum(o[..]) - room
  {
    var qq := q0;
    ghost var w := o[..];
    ghost var t := Shares(w, room, d);
    q := q0;
    for i := 0 to o.Length
      invariant forall k :: 0 <= k < i ==> o[k] == t[k]
      invariant forall k :: i <= k < o.Length ==> o[k] == w[k]
      invariant q == qq - Sum(w[..i]) + Sum(t[..i])
    {
      assert d - qq == room && o[i] == w[i];
      q := q - (o[i] - TruncDiv(o[i] * (d - qq), if d == 0 then 1 else d));
      o[i] := TruncDiv(o[i] * (d - qq), if d == 0 then 1 else d);
      SharesAt(w, room, d, i);
      SumPrefix(w, i);
      SumPrefix(t, i);
    }
    assert o[..] == t && t[..o.Length] == t && w[..o.Length] == w;
  }

  /**
   * Hands the rounding error out one unit at a time, from the left (lines 2292-2300). The loop
   * stops with no error left, or with an excess that no cell can give back.
   */
  method Correct(o: array<int>, q0: int)
    requires o.Length >= 1
    modifies o
    ensures q0 == 0 ==> o[..] == old(o[..])
    ensures q0 <= 0 ==> Sum(o[..]) == old(Sum(o[..])) - q0
    ensures -o.Length < q0 <= 0 ==> forall k :: 0 <= k < o.Length ==> o[k] == old(o[k]) + if k < -q0 then 1 else 0
    ensures q0 > 0 ==> old(Sum(o[..])) - q0 <= Sum(o[..])
    ensures q0 > 0 && Sum(o[..]) != old(Sum(o[..])) - q0 ==> AllAtMost(o[..], 1)
    ensures q0 > 0 && AllAtMost(old(o[..]), 1) ==> o[..] == old(o[..])
  {
    ghost var was := o[..];
    var q := q0;
    while q != 0
      invariant Sum(o[..]) - q == Sum(was) - q0
      invariant q0 > 0 ==> q >= 0
      invariant q0 <= 0 ==> q <= 0
      invariant -o.Length < q0 && q < 0 ==> q == q0
      invariant q == q0 ==> o[..] == was
      invariant -o.Length < q0 <= 0 && q == 0 ==> forall k :: 0 <= k < o.Length ==> o[k] == was[k] + if k < -q0 then 1 else 0
      invariant q0 > 0 && AllAtMost(was, 1) ==> o[..] == was
      decreases if q < 0 then -q else q
    {
      var nn := false;
      ghost var before, start := q, o[..];
      var i := 0;
      while i < o.Length
        invariant 0 <= i <= o.Length
        invariant Sum(o[..]) - q == Sum(was) - q0
        invariant before > 0 ==> 0 <= q <= before && (nn <==> q < before)
        invariant before > 0 && !nn ==> o[..] == start && forall k :: 0 <= k < i ==> o[k] <= 1
        invariant before > 0 && AllAtMost(start, 1) ==> o[..] == start && !nn
        invariant before < 0 ==> q == before + i <= 0 && (nn <==> i > 0)
        invariant before < 0 ==> forall k :: 0 <= k < o.Length ==> o[k] == start[k] + if k < i then 1 else 0
      {
        if q < 0 {
          SumUpdate(o[..], i, o[i] + 1);
          ghost var s := o[..];
          o[i], q, nn := o[i] + 1, q + 1, true;
          assert o[..] == s[i := s[i] + 1];
        }
        if q > 0 && o[i] > 1 {
          SumUpdate(o[..], i, o[i] - 1);
          ghost var s := o[..];
          o[i], q, nn := o[i] - 1, q - 1, true;
          assert o[..] == s[i := s[i] - 1];
        }
        if q == 0 {
          i := i + 1;
          break;
        }
        i := i + 1;
      }
      if !nn {
        break;
      }
    }
  }

  /** The weights of the relative cells, zero elsewhere. */
  function Weights(w: seq<int>): (t: seq<int>)
    ensures |t| == |w| && forall k :: 0 <= k < |w| ==> t[k] == if w[k] < 0 then -w[k] else 0
  {
    seq(|w|, k requires 0 <= k < |w| => if w[k] < 0 then -w[k] else 0)
  }

  function AddEach(s: seq<int>, t: seq<int>): (u: seq<int>)
    requires |s| == |t|
    ensures |u| == |s| && forall k :: 0 <= k < |s| ==> u[k] == s[k] + t[k]
  {
    seq(|s|, k requires 0 <= k < |s| => s[k] + t[k])
  }

  lemma {:induction false} SumAddEach(s: seq<int>, t: seq<int>)
    requires |s| == |t|
    ensures Sum(AddEach(s, t)) == Sum(s) + Sum(t)
  {
    if s != [] {
      var n := |s| - 1;
      SumAddEach(s[..n], t[..n]);
      SumLast(s);
      SumLast(t);
      SumLast(AddEach(s, t));
      assert AddEach(s, t)[..n] == AddEach(s[..n], t[..n]);
    }
  }

  /** Gives the room left over to the relative cells, in proportion (lines 2302-2328). */
  method FillRelative(o: array<int>, q0: int, ww: int, ghost room: int, ghost b: seq<int>, ghost v: seq<int>,
                      ghost t: seq<int>)
    requires exists k :: 0 <= k < o.Length && o[k] < 0
    requires b == AtLeastOne(o[..]) && v == Weights(o[..]) && t == Shares(v, room - Sum(b), Sum(v))
    requires q0 - ww == Sum(b) - room && q0 < ww
    modifies o
    ensures Sum(o[..]) == room
    ensures AllAtLeast(t, 0) && LeftmostMore(o[..], AddEach(b, t), v)
    ensures forall k :: 0 <= k < o.Length && v[k] == 0 ==> o[k] == b[k]
  {
    ghost var w := o[..];
    RelativeShares(w, v, ww - q0);
    var oo := new int[o.Length](k requires 0 <= k < o.Length reads o => o[k]);
    assert oo[..] == w;
    ClampToOne(o);
    var q := ww - q0;
    ghost var spare := q;
    var d := SumRelative(oo, v);
    q := AddShares(oo, o, q, d, v, t);
    SumAddEach(b, t);
    NothingForNothing(v, spare, d, t);
    HandOut(oo, o, q, v);
  }

  lemma {:induction false} NothingForNothing(v: seq<int>, total: int, d: int, t: seq<int>)
    requires t == Shares(v, total, d)
    ensures forall k :: 0 <= k < |v| && v[k] == 0 ==> t[k] == 0
  {
    forall k | 0 <= k < |v| && v[k] == 0
      ensures t[k] == 0
    {
      SharesAt(v, total, d, k);
      ShareOfNothing(total, d);
    }
  }

  /** The relative cells' shares of a spare amount leave less than one unit each to hand out. */
  lemma {:induction false} RelativeShares(w: seq<int>, v: seq<int>, spare: int)
    requires v == Weights(w) && spare > 0 && exists k :: 0 <= k < |w| && w[k] < 0
    ensures spare - Positives(v) < Sum(Shares(v, spare, Sum(v))) <= spare
    ensures AllAtLeast(Shares(v, spare, Sum(v)), 0)
  {
    var k :| 0 <= k < |w| && w[k] < 0;
    assert v[k] > 0;
    PositivesAtMost(v);
    PositiveSum(v);
    SharesNearTotal(v, spare, Sum(v));
  }

  lemma {:induction false} PositiveSum(v: seq<int>)
    requires forall k :: 0 <= k < |v| ==> v[k] >= 0
    ensures Sum(v) >= Positives(v)
  {
    if v != [] {
      PositiveSum(v[..|v| - 1]);
      SumLast(v);
    }
  }

  method SumRelative(oo: array<int>, ghost v: seq<int>) returns (d: int)
    requires v == Weights(oo[..])
    ensures d == Sum(v)
  {
    d := 0;
    for i := 0 to oo.Length
      invariant d == Sum(v[..i])
    {
      if oo[i] < 0 {
        d := d + -oo[i];
      }
      SumPrefix(v, i);
    }
    assert v[..oo.Length] == v;
  }

  method AddShares(oo: array<int>, o: array<int>, q0: int, d: int, ghost v: seq<int>, ghost t: seq<int>)
    returns (q: int)
    requires oo != o && oo.Length == o.Length
    requires v == Weights(oo[..]) && t == Shares(v, q0, d)
    modifies o
    ensures o[..] == AddEach(old(o[..]), t)
    ensures q == q0 - Sum(t)
  {
    ghost var b := o[..];
    var qq := q0;
    q := q0;
    for i := 0 to o.Length
      invariant forall k :: 0 <= k < i ==> o[k] == b[k] + t[k]
      invariant forall k :: i <= k < o.Length ==> o[k] == b[k]
      invariant q == q0 - Sum(t[..i])
    {
      SharesAt(v, q0, d, i);
      ShareOfNothing(q0, d);
      if oo[i] < 0 {
        o[i] := o[i] + TruncDiv(-oo[i] * qq, if d == 0 then 1 else d);
        q := q - TruncDiv(-oo[i] * qq, if d == 0 then 1 else d);
      }
      SumPrefix(t, i);
    }
    assert t[..o.Length] == t;
  }

  /** The rounding error goes to the relative cells, one unit each, from the left (lines 2317-2327). */
  method HandOut(oo: array<int>, o: array<int>, q0: int, ghost v: seq<int>)
    requires oo != o && oo.Length == o.Length
    requires v == Weights(oo[..]) && q0 <= Positives(v)
    modifies o
    ensures Sum(o[..]) == old(Sum(o[..])) + Max(q0, 0)
    ensures LeftmostMore(o[..], old(o[..]), v)
  {
    ghost var b := o[..];
    var q := q0;
    if q < 0 {
      q := 0;
    }
    ghost var left, n := q, 0;
    for i := 0 to o.Length
      invariant 0 <= n <= i && (q > 0 ==> n == i)
      invariant 0 <= q && (q + Positives(v[..i]) <= Positives(v) || q == 0)
      invariant Sum(o[..]) + q == Sum(b) + left
      invariant forall k :: i <= k < o.Length ==> o[k] == b[k]
      invariant forall k :: 0 <= k < i ==> o[k] == b[k] + if k < n && v[k] > 0 then 1 else 0
    {
      PositivesPrefix(v, i);
      if q > 0 {
        n := i + 1;
      }
      if oo[i] < 0 {
        if q != 0 {
          SumUpdate(o[..], i, o[i] + 1);
          ghost var s := o[..];
          o[i], q := o[i] + 1, q - 1;
          assert o[..] == s[i := s[i] + 1];
        }
      }
    }
    assert v[..o.Length] == v;
    assert MoreBefore(o[..], b, v, n);
    if q > 0 {
      q := 0;
    }
  }

  /** The widest cell and its width, or zero if no cell is wider than nothing. */
  method WidestCell(o: array<int>) returns (m: int, mj: nat)
    requires o.Length > 0
    ensures 0 <= mj < o.Length && m >= 0 && (m > 0 ==> o[mj] == m)
    ensures forall k :: 0 <= k < o.Length ==> o[k] <= m
  {
    m, mj := 0, 0;
    for j := 0 to o.Length
      invariant 0 <= mj < o.Length && m >= 0 && (m > 0 ==> o[mj] == m)
      invariant forall k :: 0 <= k < j ==> o[k] <= m
    {
      if o[j] > m {
        m, mj := o[j], j;
      }
    }
  }

  /** While some cell is empty and there is room for all, some cell can spare a unit. */
  lemma {:induction false} WidestCanSpare(s: seq<int>, i: nat, m: int)
    requires i < |s| && s[i] == 0 && m >= 0
    requires forall k :: 0 <= k < |s| ==> s[k] <= m
    requires Sum(s) >= |s|
    ensures m >= 2
  {
    if m <= 1 {
      SumUpdate(s, i, 1);
      SumUpdate(s[i := 1], i, 0);
      SumBounds(s[i := 1], 1);
    }
  }

  /** Takes one unit from the widest cell for every empty one (lines 2330-2336). */
  method FillEmpty(o: array<int>)
    modifies o
    ensures Sum(o[..]) == old(Sum(o[..]))
    ensures AllAtMost(old(o[..]), 0) || AllAtLeast(old(o[..]), 1) ==> o[..] == old(o[..])
    ensures AllAtLeast(old(o[..]), 0) ==> AllAtLeast(o[..], 0)
    ensures AllAtLeast(old(o[..]), 0) && old(Sum(o[..])) >= o.Length ==> AllAtLeast(o[..], 1)
  {
    ghost var start := o[..];
    for i := 0 to o.Length
      invariant Sum(o[..]) == Sum(start)
      invariant AllAtMost(start, 0) || AllAtLeast(start, 1) ==> o[..] == start
      invariant AllAtLeast(start, 0) ==> AllAtLeast(o[..], 0)
      invariant AllAtLeast(start, 0) && Sum(start) >= o.Length ==> AllAtLeast(o[..i], 1)
    {
      if o[i] == 0 {
        ghost var s := o[..];
        var m, mj := WidestCell(o);
        if Sum(start) >= o.Length {
          WidestCanSpare(s, i, m);
        }
        if m != 0 {
          SumUpdate(s, i, 1);
          SumUpdate(s[i := 1], mj, s[mj] - 1);
          o[i] := 1;
          o[mj] := o[mj] - 1;
          assert o[..] == s[i := 1][mj := s[mj] - 1];
          assert s[mj] > 0;
        }
      }
    }
    assert o[..o.Length] == o[..];
  }

  /** What a finished division looks like. */
  ghost predicate Divides(o: seq<int>, room: int) {
    && (room >= 0 ==> Sum(o) == room && AllAtLeast(o, 0))
    && (room >= |o| ==> AllAtLeast(o, 1))
    && (room < 0 ==> AllAtMost(o, 0))
  }

  /** And what it decides: the cells fill the room exactly when there is room at all. */
  lemma {:induction false} FillsExactly(o: seq<int>, room: int)
    requires Divides(o, room)
    ensures room >= 0 <==> Sum(o) == room && AllAtLeast(o, 0)
    ensures room >= |o| <==> Sum(o) == room && AllAtLeast(o, 1)
  {
    if AllAtLeast(o, 0) {
      NonNegativeSum(o);
    }
    if AllAtLeast(o, 1) {
      SumPositive(o);
    }
  }

  /** The exact proportional division, fractions dropped: what a list of wants w aims at. */
  ghost function Target(w: seq<int>, room: int, spread: bool): (t: seq<int>)
    ensures |t| == |w|
  {
    var b := AtLeastOne(w);
    if spread then AddEach(b, Shares(Weights(w), room - Sum(b), Sum(Weights(w)))) else Shares(b, room, Sum(b))
  }

  /** The relative cells share what the others leave over, if there are any and something is left. */
  ghost predicate Spreads(w: seq<int>, room: int) {
    Sum(AtLeastOne(w)) < room && exists k :: 0 <= k < |w| && w[k] < 0
  }

  ghost function WantedAll(specs: seq<FrameSpec>, ww: int, www: int): (w: seq<int>)
    ensures |w| == |specs|
  {
    seq(|specs|, k requires 0 <= k < |specs| => Wanted(specs[k], ww, www))
  }

  method ReadWants(specs: seq<FrameSpec>, ww: int, www: int) returns (o: array<int>)
    ensures fresh(o) && o[..] == WantedAll(specs, ww, www)
  {
    o := new int[|specs|];
    for i := 0 to |specs|
      invariant forall k :: 0 <= k < i ==> o[k] == Wanted(specs[k], ww, www)
    {
      o[i] := Wanted(specs[i], ww, www);
    }
  }

  /** The least room the cells need, borders included (lines 2277-2278). */
  method Needed(o: array<int>, graphics: bool) returns (q: int)
    ensures q == Sum(AtLeastOne(o[..])) + if graphics then 0 else o.Length - 1
  {
    var ol := o.Length;
    q := if graphics then ol else 2 * ol - 1;
    ghost var b, q0 := AtLeastOne(o[..]), q;
    for i := 0 to ol
      invariant q == q0 - i + Sum(b[..i])
    {
      if o[i] > 0 {
        q := q + o[i] - 1;
      }
      SumPrefix(b, i);
    }
    assert b[..ol] == b;
  }

  method AnyRelative(o: array<int>) returns (relative: bool)
    ensures relative <==> exists k :: 0 <= k < o.Length && o[k] < 0
  {
    relative := false;
    for i := 0 to o.Length
      invariant relative <==> exists k :: 0 <= k < i && o[k] < 0
    {
      if o[i] < 0 {
        relative := true;
      }
    }
  }

  /** The cells o follow what the wants w aim at. */
  ghost predicate FollowsTarget(o: seq<int>, w: seq<int>, room: int) {
    var t := Target(w, room, Spreads(w, room));
    && |o| == |w|
    && (room >= 0 && AllAtLeast(t, 1) ==> LeftmostMore(o, t, if Spreads(w, room) then Weights(w) else AtLeastOne(w)))
    && (Spreads(w, room) ==> AllAtLeast(t, 1) && forall k :: 0 <= k < |w| && w[k] > 0 ==> o[k] == w[k])
  }

  lemma {:induction false} FollowsAlone(o: seq<int>, w: seq<int>, room: int)
    requires |o| == |w| && !Spreads(w, room)
    requires room >= 0 ==> LeftmostMore(o, Shares(AtLeastOne(w), room, Sum(AtLeastOne(w))), AtLeastOne(w))
    ensures FollowsTarget(o, w, room)
  {
  }

  lemma {:induction false} FollowsSpread(o: seq<int>, w: seq<int>, room: int, b: seq<int>, v: seq<int>, t: seq<int>)
    requires |o| == |w| && Spreads(w, room) && b == AtLeastOne(w) && v == Weights(w)
    requires t == Shares(v, room - Sum(b), Sum(v)) && AllAtLeast(t, 0) && LeftmostMore(o, AddEach(b, t), v)
    requires forall k :: 0 <= k < |w| && v[k] == 0 ==> o[k] == b[k]
    ensures FollowsTarget(o, w, room) && AllAtLeast(o, 0)
  {
    assert AllAtLeast(AddEach(b, t), 1);
    MoreIsAtLeast(o, AddEach(b, t), v);
  }

  lemma {:induction false} MoreIsAtLeast(o: seq<int>, t: seq<int>, v: seq<int>)
    requires LeftmostMore(o, t, v) && AllAtLeast(t, 1)
    ensures AllAtLeast(o, 1)
  {
    var n :| MoreBefore(o, t, v, n);
  }

  /** Fills the room before empty cells are looked at: the two arms of the function's main test. */
  method Fill(o: array<int>, ww: int, graphics: bool, ghost room: int)
    requires o.Length >= 1 && room == Room(o.Length, ww, graphics)
    modifies o
    ensures room >= 0 ==> Sum(o[..]) == room && AllAtLeast(o[..], 0)
    ensures room < 0 ==> AllAtMost(o[..], 0)
    ensures FollowsTarget(o[..], old(o[..]), room)
  {
    ghost var w := o[..];
    ghost var b, v := AtLeastOne(w), Weights(w);
    var q := Needed(o, graphics);
    var relative := AnyRelative(o);
    if q >= ww || !relative {
      Distribute(o, q, ww, room, b, Shares(b, room, Sum(b)));
      FollowsAlone(o[..], w, room);
    } else {
      SumPositive(b);
      ghost var t := Shares(v, room - Sum(b), Sum(v));
      FillRelative(o, q, ww, room, b, v, t);
      FollowsSpread(o[..], w, room, b, v, t);
    }
  }

  /**
   * The whole division. When there is any room at all the cells are non-negative and fill it
   * exactly, and none is empty if there is room for all; without room nothing is positive. The
   * cells follow the proportional target, and a width that fits is granted exactly.
   */
  method ParseFrameWidths(specs: seq<FrameSpec>, ww: int, www: int, graphics: bool) returns (o: array<int>)
    requires specs != []
    ensures fresh(o) && o.Length == |specs|
    ensures Divides(o[..], Room(|specs|, ww, graphics))
    ensures FollowsTarget(o[..], WantedAll(specs, ww, www), Room(|specs|, ww, graphics))
  {
    o := ReadWants(specs, ww, www);
    ghost var w, room := o[..], Room(|specs|, ww, graphics);
    Fill(o, ww, graphics, room);
    ghost var filled := o[..];
    FillEmpty(o);
    KeepsTarget(filled, o[..], w, room);
  }

  lemma KeepsTarget(filled: seq<int>, o: seq<int>, w: seq<int>, room: int)
    requires FollowsTarget(filled, w, room) && |o| == |w|
    requires AllAtMost(filled, 0) || AllAtLeast(filled, 1) ==> o == filled
    ensures FollowsTarget(o, w, room)
  {
    SumPositive(AtLeastOne(w));
    var t := Target(w, room, Spreads(w, room));
    if room >= 0 && AllAtLeast(t, 1) {
      assert AllAtLeast(filled, 1);
    }
  }

  lemma {:induction false} NonNegativeSum(s: seq<int>)
    requires AllAtLeast(s, 0)
    ensures Sum(s) >= 0
  {
    if s != [] {
      NonNegativeSum(s[..|s| - 1]);
      SumLast(s);
    }
  }
}
