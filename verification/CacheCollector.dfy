// Garbage collection of the document cache (cache.c, shrink_file_cache). Index 0 is the newest entry;
// sizes[i] is what entry i holds, and it is locked or not, and marked for deletion or not.

module CacheCollector {
  import opened Basics

  lemma {:induction false} SumWithout(s: seq<int>, n: nat)
    requires n < |s|
    ensures Sum(Without(s, n)) == Sum(s) - s[n]
  {
    var a, b := s[..n], s[n + 1..];
    assert s == a + ([s[n]] + b);
    SumConcat(a, [s[n]] + b);
    SumCons(s[n], b);
    SumConcat(a, b);
  }

  /** Sizes of the entries that count, zero for the others. */
  function Counted(sizes: seq<int>, skip: seq<bool>): (c: seq<int>)
    requires |sizes| == |skip|
    ensures |c| == |sizes| && forall i :: 0 <= i < |c| ==> c[i] == if skip[i] then 0 else sizes[i]
  {
    seq(|sizes|, i requires 0 <= i < |sizes| => if skip[i] then 0 else sizes[i])
  }

  function Either(a: seq<bool>, b: seq<bool>): (c: seq<bool>)
    requires |a| == |b|
    ensures |c| == |a| && forall i :: 0 <= i < |c| ==> c[i] == (a[i] || b[i])
  {
    seq(|a|, i requires 0 <= i < |a| => a[i] || b[i])
  }

  /** Bytes held by entries that are neither locked nor marked. */
  function Remaining(sizes: seq<int>, locked: seq<bool>, marks: seq<bool>): int
    requires |sizes| == |locked| == |marks|
  {
    Sum(Counted(sizes, Either(locked, marks)))
  }

  function Unlocked(sizes: seq<int>, locked: seq<bool>): int
    requires |sizes| == |locked|
  {
    Sum(Counted(sizes, locked))
  }

  /**
   * What a quota collection decides: the newest entries, as many as fit the target, are out of
   * danger; those past the cut are what TakeBack makes of them. Cut, marks and count are determined.
   */
  ghost predicate QuotaPlan(sizes: seq<int>, locked: seq<bool>, target: int, marks: seq<bool>, cut: nat, ncs: int) {
    && |sizes| == |locked| == |marks| && cut <= |sizes|
    && Unlocked(sizes[..cut], locked[..cut]) <= target
    && (cut < |sizes| ==> Unlocked(sizes[..cut + 1], locked[..cut + 1]) > target)
    && (forall i :: 0 <= i < cut ==> !marks[i])
    && TakeBack(sizes[cut..], locked[cut..], target, Unlocked(sizes[..cut], locked[..cut])) == (marks[cut..], ncs)
  }

  /** The second phase on the entries past the cut, given the bytes still counted: marks, and bytes counted at the end. */
  function TakeBack(sizes: seq<int>, locked: seq<bool>, target: int, ncs: int): (r: (seq<bool>, int))
    requires |sizes| == |locked|
    ensures |r.0| == |sizes|
  {
    if sizes == [] then ([], ncs)
    else
      var fits := ncs + sizes[0] <= target;
      var (marks, last) := TakeBack(sizes[1..], locked[1..], target, if fits then ncs + sizes[0] else ncs);
      ([!fits && !locked[0]] + marks, last)
  }

  /** Bytes of locked entries that the second phase counts as well. */
  function LocksCounted(sizes: seq<int>, locked: seq<bool>, target: int, ncs: int): int
    requires |sizes| == |locked|
  {
    if sizes == [] then 0
    else
      var fits := ncs + sizes[0] <= target;
      (if fits && locked[0] then sizes[0] else 0)
      + LocksCounted(sizes[1..], locked[1..], target, if fits then ncs + sizes[0] else ncs)
  }

  /** The size of the smallest entry that the second phase gives up. */
  function SmallestGone(sizes: seq<int>, locked: seq<bool>, target: int, ncs: int): Option<int>
    requires |sizes| == |locked|
  {
    if sizes == [] then None
    else
      var fits := ncs + sizes[0] <= target;
      var rest := SmallestGone(sizes[1..], locked[1..], target, if fits then ncs + sizes[0] else ncs);
      if fits || locked[0] then rest
      else if rest.None? then Some(sizes[0])
      else Some(Min(sizes[0], rest.value))
  }

  /** What is given up is unlocked and does not fit the final count; what stays, locked or not, is what was counted. */
  lemma {:induction false} TakeBackFits(sizes: seq<int>, locked: seq<bool>, target: int, ncs: int)
    requires |sizes| == |locked| && ncs <= target && forall i :: 0 <= i < |sizes| ==> sizes[i] >= 0
    ensures var (marks, last) := TakeBack(sizes, locked, target, ncs);
            && ncs <= last <= target
            && (forall i :: 0 <= i < |marks| && marks[i] ==> !locked[i] && last + sizes[i] > target)
            && ncs + Remaining(sizes, locked, marks) + LocksCounted(sizes, locked, target, ncs) == last
  {
    var (marks, last) := TakeBack(sizes, locked, target, ncs);
    if sizes != [] {
      var next := if ncs + sizes[0] <= target then ncs + sizes[0] else ncs;
      TakeBackFits(sizes[1..], locked[1..], target, next);
      assert marks[1..] == TakeBack(sizes[1..], locked[1..], target, next).0;
      assert Counted(sizes, Either(locked, marks))[1..] == Counted(sizes[1..], Either(locked[1..], marks[1..]));
      forall i | 0 <= i < |marks| && marks[i]
        ensures !locked[i] && last + sizes[i] > target
      {
        assert i > 0 ==> marks[i] == marks[1..][i - 1];
      }
    }
  }

  /** The smallest entry given up is as large as the bound if, and only if, all are. */
  lemma {:induction false} SmallestDecides(sizes: seq<int>, locked: seq<bool>, target: int, ncs: int, bound: int)
    requires |sizes| == |locked|
    ensures var (marks, d) := (TakeBack(sizes, locked, target, ncs).0, SmallestGone(sizes, locked, target, ncs));
            (d.None? || d.value > bound) <==> forall i :: 0 <= i < |marks| && marks[i] ==> sizes[i] > bound
  {
    var marks := TakeBack(sizes, locked, target, ncs).0;
    if sizes != [] {
      var next := if ncs + sizes[0] <= target then ncs + sizes[0] else ncs;
      SmallestDecides(sizes[1..], locked[1..], target, next, bound);
      var rest := TakeBack(sizes[1..], locked[1..], target, next).0;
      assert forall i :: 0 <= i < |rest| ==> rest[i] == marks[i + 1] && sizes[1..][i] == sizes[i + 1];
      assert forall i :: 1 <= i < |marks| ==> rest[i - 1] == marks[i] && sizes[1..][i - 1] == sizes[i];
    }
  }

  /** One entry further back in the second phase. */
  lemma {:induction false} TakeBackStep(sizes: seq<int>, locked: seq<bool>, target: int, n: nat, ncs: int, marks: seq<bool>, last: int)
    requires n < |sizes| == |locked| == |marks|
    requires var fits := ncs + sizes[n] <= target;
             && marks[n] == (!fits && !locked[n])
             && TakeBack(sizes[n + 1..], locked[n + 1..], target, if fits then ncs + sizes[n] else ncs) == (marks[n + 1..], last)
    ensures TakeBack(sizes[n..], locked[n..], target, ncs) == (marks[n..], last)
  {
    assert sizes[n..][1..] == sizes[n + 1..] && locked[n..][1..] == locked[n + 1..];
    assert marks[n..] == [marks[n]] + marks[n + 1..];
  }

  lemma UnlockedOf(sizes: seq<int>, locked: seq<bool>, marks: seq<bool>, cut: nat)
    requires cut <= |sizes| == |locked| == |marks| && forall i :: 0 <= i < cut ==> !marks[i]
    ensures Remaining(sizes, locked, marks)
            == Unlocked(sizes[..cut], locked[..cut]) + Remaining(sizes[cut..], locked[cut..], marks[cut..])
  {
    var c := Counted(sizes, Either(locked, marks));
    var front, back := Counted(sizes[..cut], locked[..cut]), Counted(sizes[cut..], Either(locked[cut..], marks[cut..]));
    assert c == front + back;
    SumConcat(front, back);
  }

  /**
   * What a plan is good for: only unlocked entries past the cut are given up, each of them too large
   * for the final count, and the unlocked bytes that stay are that count less the locked bytes in it.
   */
  lemma PlanMade(sizes: seq<int>, locked: seq<bool>, target: int, marks: seq<bool>, cut: nat, ncs: int)
    requires QuotaPlan(sizes, locked, target, marks, cut, ncs) && forall i :: 0 <= i < |sizes| ==> sizes[i] >= 0
    ensures forall i :: 0 <= i < |marks| && marks[i] ==> cut <= i && !locked[i] && ncs + sizes[i] > target
    ensures Remaining(sizes, locked, marks) == ncs - LocksPast(sizes, locked, target, cut)
    ensures Remaining(sizes, locked, marks) <= ncs <= target
  {
    PlanSpares(sizes, locked, target, marks, cut, ncs);
    TakeBackFits(sizes[cut..], locked[cut..], target, Unlocked(sizes[..cut], locked[..cut]));
    UnlockedOf(sizes, locked, marks, cut);
    LocksNonNegative(sizes[cut..], locked[cut..], target, Unlocked(sizes[..cut], locked[..cut]));
  }

  lemma PlanSpares(sizes: seq<int>, locked: seq<bool>, target: int, marks: seq<bool>, cut: nat, ncs: int)
    requires QuotaPlan(sizes, locked, target, marks, cut, ncs) && forall i :: 0 <= i < |sizes| ==> sizes[i] >= 0
    ensures forall i :: 0 <= i < |marks| && marks[i] ==> cut <= i && !locked[i] && ncs + sizes[i] > target
  {
    TakeBackFits(sizes[cut..], locked[cut..], target, Unlocked(sizes[..cut], locked[..cut]));
    forall i | 0 <= i < |marks| && marks[i]
      ensures cut <= i && !locked[i] && ncs + sizes[i] > target
    {
      assert marks[cut..][i - cut];
    }
  }

  lemma {:induction false} LocksNonNegative(sizes: seq<int>, locked: seq<bool>, target: int, ncs: int)
    requires |sizes| == |locked| && forall i :: 0 <= i < |sizes| ==> sizes[i] >= 0
    ensures LocksCounted(sizes, locked, target, ncs) >= 0
  {
    if sizes != [] {
      LocksNonNegative(sizes[1..], locked[1..], target, if ncs + sizes[0] <= target then ncs + sizes[0] else ncs);
    }
  }

  /** There is one plan for a cache. */
  lemma {:induction false} PlanUnique(sizes: seq<int>, locked: seq<bool>, target: int,
                                      marks0: seq<bool>, cut0: nat, ncs0: int, marks1: seq<bool>, cut1: nat, ncs1: int)
    requires QuotaPlan(sizes, locked, target, marks0, cut0, ncs0) && QuotaPlan(sizes, locked, target, marks1, cut1, ncs1)
    requires forall i :: 0 <= i < |sizes| ==> sizes[i] >= 0
    ensures marks0 == marks1 && cut0 == cut1 && ncs0 == ncs1
  {
    if cut0 < cut1 {
      UnlockedGrows(sizes, locked, cut0 + 1, cut1);
    } else if cut1 < cut0 {
      UnlockedGrows(sizes, locked, cut1 + 1, cut0);
    }
    assert marks0 == marks0[..cut0] + marks0[cut0..] && marks1 == marks1[..cut0] + marks1[cut0..];
  }

  lemma {:induction false} UnlockedGrows(sizes: seq<int>, locked: seq<bool>, a: nat, b: nat)
    requires a <= b <= |sizes| == |locked| && forall i :: 0 <= i < |sizes| ==> sizes[i] >= 0
    ensures Unlocked(sizes[..a], locked[..a]) <= Unlocked(sizes[..b], locked[..b])
  {
    var c := Counted(sizes, locked);
    assert Counted(sizes[..a], locked[..a]) == c[..a] && Counted(sizes[..b], locked[..b]) == c[..b];
    assert c[..b] == c[..a] + c[a..b];
    SumConcat(c[..a], c[a..b]);
    SumNonNegative(c[a..b]);
  }

  /** How many of the newest entries fit the target without the locked ones. */
  function Fitting(sizes: seq<int>, locked: seq<bool>, target: int, n: nat): (cut: nat)
    requires n <= |sizes| == |locked|
    ensures cut <= n && (cut == 0 || Unlocked(sizes[..cut], locked[..cut]) <= target)
    ensures cut < n ==> Unlocked(sizes[..cut + 1], locked[..cut + 1]) > target
  {
    if n == 0 || Unlocked(sizes[..n], locked[..n]) <= target then n else Fitting(sizes, locked, target, n - 1)
  }

  lemma {:induction false} PlanCut(sizes: seq<int>, locked: seq<bool>, target: int, marks: seq<bool>, cut: nat, ncs: int)
    requires QuotaPlan(sizes, locked, target, marks, cut, ncs) && forall i :: 0 <= i < |sizes| ==> sizes[i] >= 0
    ensures cut == Fitting(sizes, locked, target, |sizes|)
  {
    var c := Fitting(sizes, locked, target, |sizes|);
    if c < cut {
      UnlockedGrows(sizes, locked, c + 1, cut);
    } else if cut < c {
      UnlockedGrows(sizes, locked, cut + 1, c);
    }
  }

  /** Locked bytes that the second phase counts against the unlocked entries behind `cut`. */
  function LocksPast(sizes: seq<int>, locked: seq<bool>, target: int, cut: nat): int
    requires cut <= |sizes| == |locked|
  {
    LocksCounted(sizes[cut..], locked[cut..], target, Unlocked(sizes[..cut], locked[..cut]))
  }

  /**
   * Known before a collection: the locked bytes it will count past the cut leave no room for the
   * smallest entry it will give up, though that would fit without them.
   */
  predicate LocksCrowd(sizes: seq<int>, locked: seq<bool>, target: int)
    requires |sizes| == |locked|
  {
    var cut := Fitting(sizes, locked, target, |sizes|);
    var before := Unlocked(sizes[..cut], locked[..cut]);
    var ncs := TakeBack(sizes[cut..], locked[cut..], target, before).1;
    var smallest := SmallestGone(sizes[cut..], locked[cut..], target, before);
    smallest.Some? && ncs - LocksPast(sizes, locked, target, cut) + smallest.value <= target
  }

  /** No entry given up could have stayed beside the unlocked ones that do. */
  ghost predicate AllNeeded(sizes: seq<int>, locked: seq<bool>, target: int, marks: seq<bool>)
    requires |sizes| == |locked| == |marks|
  {
    forall i :: 0 <= i < |marks| && marks[i] ==> Remaining(sizes, locked, marks[i := false]) > target
  }

  /** Every deletion is needed if, and only if, the locked entries do not crowd out the smallest one. */
  lemma NothingDeletedNeedlessly(sizes: seq<int>, locked: seq<bool>, target: int, marks: seq<bool>, cut: nat, ncs: int)
    requires QuotaPlan(sizes, locked, target, marks, cut, ncs) && forall i :: 0 <= i < |sizes| ==> sizes[i] >= 0
    ensures AllNeeded(sizes, locked, target, marks) <==> !LocksCrowd(sizes, locked, target)
  {
    PlanCut(sizes, locked, target, marks, cut, ncs);
    PlanMade(sizes, locked, target, marks, cut, ncs);
    var bound := target - Remaining(sizes, locked, marks);
    SmallestDecides(sizes[cut..], locked[cut..], target, Unlocked(sizes[..cut], locked[..cut]), bound);
    NeededBySize(sizes, locked, target, marks, cut);
  }

  lemma NeededBySize(sizes: seq<int>, locked: seq<bool>, target: int, marks: seq<bool>, cut: nat)
    requires cut <= |sizes| == |locked| == |marks| && forall i :: 0 <= i < |marks| && marks[i] ==> cut <= i && !locked[i]
    ensures AllNeeded(sizes, locked, target, marks)
            <==> forall i :: 0 <= i < |marks[cut..]| && marks[cut..][i] ==> sizes[cut..][i] > target - Remaining(sizes, locked, marks)
  {
    forall i | 0 <= i < |marks| && marks[i]
      ensures Remaining(sizes, locked, marks[i := false]) == Remaining(sizes, locked, marks) + sizes[i]
      ensures marks[cut..][i - cut] && sizes[cut..][i - cut] == sizes[i]
    {
      OneMoreStays(sizes, locked, marks, i);
    }
    assert forall i :: 0 <= i < |marks[cut..]| ==> marks[cut..][i] == marks[i + cut] && sizes[cut..][i] == sizes[i + cut];
  }

  lemma {:induction false} LargeLocksUncounted(sizes: seq<int>, locked: seq<bool>, target: int, ncs: int)
    requires |sizes| == |locked| && forall i :: 0 <= i < |sizes| ==> sizes[i] >= 0
    requires forall i :: 0 <= i < |sizes| && locked[i] ==> ncs + sizes[i] > target
    ensures LocksCounted(sizes, locked, target, ncs) == 0
  {
    if sizes != [] {
      LargeLocksUncounted(sizes[1..], locked[1..], target, if ncs + sizes[0] <= target then ncs + sizes[0] else ncs);
    }
  }

  /**
   * In particular, without following the plan: nothing is deleted needlessly if no locked entry behind
   * the newest ones that fit would fit beside them.
   */
  lemma {:induction false} LargeLocksHarmless(sizes: seq<int>, locked: seq<bool>, target: int, marks: seq<bool>, cut: nat, ncs: int)
    requires QuotaPlan(sizes, locked, target, marks, cut, ncs) && forall i :: 0 <= i < |sizes| ==> sizes[i] >= 0
    requires var c := Fitting(sizes, locked, target, |sizes|);
             forall i :: c <= i < |sizes| && locked[i] ==> Unlocked(sizes[..c], locked[..c]) + sizes[i] > target
    ensures AllNeeded(sizes, locked, target, marks)
  {
    PlanCut(sizes, locked, target, marks, cut, ncs);
    PlanMade(sizes, locked, target, marks, cut, ncs);
    LargeLocksUncounted(sizes[cut..], locked[cut..], target, Unlocked(sizes[..cut], locked[..cut]));
    forall i | 0 <= i < |marks| && marks[i]
      ensures Remaining(sizes, locked, marks[i := false]) > target
    {
      OneMoreStays(sizes, locked, marks, i);
    }
  }

  lemma OneMoreStays(sizes: seq<int>, locked: seq<bool>, marks: seq<bool>, i: nat)
    requires i < |sizes| == |locked| == |marks| && marks[i] && !locked[i]
    ensures Remaining(sizes, locked, marks[i := false]) == Remaining(sizes, locked, marks) + sizes[i]
  {
    var r := Counted(sizes, Either(locked, marks));
    SumUpdate(r, i, sizes[i]);
    assert Counted(sizes, Either(locked, marks[i := false])) == r[i := sizes[i]];
  }

  /** The entries that stay, in order. */
  function Keep<T>(s: seq<T>, marks: seq<bool>): (k: seq<T>)
    requires |s| == |marks|
    ensures |k| <= |s|
  {
    if s == [] then [] else (if marks[0] then [] else [s[0]]) + Keep(s[1..], marks[1..])
  }

  /** What the list becomes when the deletion pass goes on from position p. */
  function Onward<T>(s: seq<T>, p: nat, marks: seq<bool>): seq<T>
    requires p + |marks| == |s|
  {
    s[..p] + Keep(s[p..], marks)
  }

  lemma OnwardStep<T>(s: seq<T>, p: nat, marks: seq<bool>)
    requires p + |marks| == |s| && marks != []
    ensures if marks[0] then Onward(s, p, marks) == Onward(Without(s, p), p, marks[1..])
            else Onward(s, p, marks) == Onward(s, p + 1, marks[1..])
  {
    assert s[p..][1..] == s[p + 1..];
    if marks[0] {
      assert Without(s, p)[..p] == s[..p] && Without(s, p)[p..] == s[p + 1..];
    } else {
      assert s[..p + 1] == s[..p] + [s[p]];
      assert Onward(s, p, marks) == s[..p] + ([s[p]] + Keep(s[p + 1..], marks[1..]));
    }
  }

  lemma {:induction false} OnwardFrom<T>(s: seq<T>, cut: nat, marks: seq<bool>)
    requires cut <= |s| == |marks| && forall n :: 0 <= n < cut ==> !marks[n]
    ensures Onward(s, cut, marks[cut..]) == Keep(s, marks)
  {
    if cut == 0 {
      assert s[0..] == s && marks[0..] == marks;
    } else {
      OnwardFrom(s[1..], cut - 1, marks[1..]);
      assert s[1..][cut - 1..] == s[cut..] && marks[1..][cut - 1..] == marks[cut..];
      assert s[..cut] == [s[0]] + s[1..][..cut - 1];
    }
  }

  lemma {:induction false} KeepAll<T>(s: seq<T>, marks: seq<bool>)
    requires |s| == |marks| && forall n :: 0 <= n < |marks| ==> !marks[n]
    ensures Keep(s, marks) == s
  {
    if s != [] {
      KeepAll(s[1..], marks[1..]);
    }
  }

  lemma {:induction false} KeepMembers<T>(s: seq<T>, marks: seq<bool>, x: T)
    requires |s| == |marks|
    ensures x in Keep(s, marks) <==> exists i :: 0 <= i < |s| && s[i] == x && !marks[i]
  {
    if s != [] {
      KeepMembers(s[1..], marks[1..], x);
      if x in Keep(s[1..], marks[1..]) {
        var i :| 0 <= i < |s[1..]| && s[1..][i] == x && !marks[1..][i];
        assert s[i + 1] == x && !marks[i + 1];
      }
      if exists i :: 0 <= i < |s| && s[i] == x && !marks[i] {
        var i :| 0 <= i < |s| && s[i] == x && !marks[i];
        if i > 0 {
          assert s[1..][i - 1] == x && !marks[1..][i - 1];
        }
      }
    }
  }

  lemma SumOfFour(a: int, b: int, c: int, d: int)
    ensures Sum([a, b, c, d]) == a + b + c + d
  {
    assert [a, b, c, d] == [a] + [b, c, d] && [b, c, d] == [b] + [c, d] && [c, d] == [c] + [d] && [d] == [d] + [];
    SumCons(a, [b, c, d]);
    SumCons(b, [c, d]);
    SumCons(c, [d]);
    SumCons(d, []);
  }

  // ----- The collector -----

  datatype Shrink = CheckQuota | FreeSomething | FreeAll

  /** A cache entry as the collector sees it: `id` stands for the rest of it. */
  datatype Item = Item(id: int, size: nat, locked: bool, tgc: bool)

  function Sizes(items: seq<Item>): (s: seq<int>)
    ensures |s| == |items| && forall i :: 0 <= i < |items| ==> s[i] == items[i].size
  {
    seq(|items|, i requires 0 <= i < |items| => items[i].size)
  }

  function Locks(items: seq<Item>): (s: seq<bool>)
    ensures |s| == |items| && forall i :: 0 <= i < |items| ==> s[i] == items[i].locked
  {
    seq(|items|, i requires 0 <= i < |items| => items[i].locked)
  }

  /** The flags that count: those from the cut on. */
  function Marks(items: seq<Item>, cut: nat): (s: seq<bool>)
    ensures |s| == |items| && forall i :: 0 <= i < |items| ==> s[i] == (cut <= i && items[i].tgc)
  {
    seq(|items|, i requires 0 <= i < |items| => cut <= i && items[i].tgc)
  }

  function Unflagged(items: seq<Item>): (s: seq<Item>)
    ensures |s| == |items| && forall i :: 0 <= i < |items| ==> s[i] == items[i].(tgc := false)
  {
    seq(|items|, i requires 0 <= i < |items| => items[i].(tgc := false))
  }

  /** Nothing but flags has changed. */
  ghost predicate Reflagged(items: seq<Item>, was: seq<Item>) {
    Unflagged(items) == Unflagged(was) && Sizes(items) == Sizes(was) && Locks(items) == Locks(was)
  }

  lemma FlagSet(items: seq<Item>, cut: nat, n: nat, flag: bool)
    requires cut <= n < |items|
    ensures var new_ := items[n := items[n].(tgc := flag)];
            Reflagged(new_, items) && Marks(new_, cut) == Marks(items, cut)[n := flag]
  {
  }

  /** The first phase: from the oldest entry on, every unlocked one is flagged until the target is met. */
  ghost predicate Swept(items: seq<Item>, cut: nat, ncs: int) {
    && cut <= |items| && ncs == Unlocked(Sizes(items)[..cut], Locks(items)[..cut])
    && forall i :: cut <= i < |items| ==> items[i].tgc == !items[i].locked
  }

  lemma {:induction false} UnlockedStep(items: seq<Item>, n: nat, flag: bool)
    requires n < |items|
    ensures var new_ := items[n := items[n].(tgc := flag)];
            && Unlocked(Sizes(new_)[..n], Locks(new_)[..n]) >= 0
            && Unlocked(Sizes(items)[..n + 1], Locks(items)[..n + 1])
               == Unlocked(Sizes(new_)[..n], Locks(new_)[..n]) + if items[n].locked then 0 else items[n].size
  {
    var c := Counted(Sizes(items), Locks(items));
    var new_ := items[n := items[n].(tgc := flag)];
    assert Counted(Sizes(items)[..n + 1], Locks(items)[..n + 1]) == c[..n + 1];
    assert Counted(Sizes(new_)[..n], Locks(new_)[..n]) == c[..n];
    SumPrefix(c, n);
    SumNonNegative(c[..n]);
  }

  /** What is left of the first phase at position `cut`: flags, position and count at its end. */
  ghost function Sweep(items: seq<Item>, cut: nat, u: Shrink, target: int, ncs: int): (r: (seq<Item>, nat, int))
    requires cut <= |items|
    decreases cut
  {
    if cut == 0 || (u == CheckQuota && ncs <= target) then (items, cut, ncs)
    else
      var e := items[cut - 1];
      Sweep(items[cut - 1 := e.(tgc := !e.locked)], cut - 1, u, target, if e.locked then ncs else ncs - e.size)
  }

  /** It leaves the flags of the first phase. */
  lemma {:induction false} SweepSweeps(items: seq<Item>, cut: nat, u: Shrink, target: int, ncs: int)
    requires Swept(items, cut, ncs)
    ensures var (r, end, last) := Sweep(items, cut, u, target, ncs);
            && Reflagged(r, items) && Swept(r, end, last)
            && (if u == CheckQuota then last <= target || end == 0 else end == 0)
    decreases cut
  {
    if cut > 0 && !(u == CheckQuota && ncs <= target) {
      var e := items[cut - 1];
      UnlockedStep(items, cut - 1, !e.locked);
      FlagSet(items, cut - 1, cut - 1, !e.locked);
      SweepSweeps(items[cut - 1 := e.(tgc := !e.locked)], cut - 1, u, target, if e.locked then ncs else ncs - e.size);
    }
  }

  /** A quota collection sweeps no further than it must. */
  lemma {:induction false} SweepStops(items: seq<Item>, cut: nat, target: int, ncs: int)
    requires cut <= |items| && ncs == Unlocked(Sizes(items)[..cut], Locks(items)[..cut])
    requires cut < |items| ==> Unlocked(Sizes(items)[..cut + 1], Locks(items)[..cut + 1]) > target
    ensures var (r, end, last) := Sweep(items, cut, CheckQuota, target, ncs);
            && Reflagged(r, items) && end <= |items|
            && (end < |items| ==> Unlocked(Sizes(items)[..end + 1], Locks(items)[..end + 1]) > target)
    decreases cut
  {
    if cut > 0 && ncs > target {
      var e := items[cut - 1];
      UnlockedStep(items, cut - 1, !e.locked);
      FlagSet(items, 0, cut - 1, !e.locked);
      SweepStops(items[cut - 1 := e.(tgc := !e.locked)], cut - 1, target, if e.locked then ncs else ncs - e.size);
    }
  }

  /** The whole first phase. */
  lemma {:induction false} SweepDoes(items: seq<Item>, u: Shrink, target: int, ncs: int)
    requires ncs == Unlocked(Sizes(items), Locks(items))
    ensures var (r, cut, last) := Sweep(items, |items|, u, target, ncs);
            && Reflagged(r, items) && Swept(r, cut, last) && (u != CheckQuota ==> cut == 0)
            && (u == CheckQuota ==> last <= target || cut == 0)
            && (u == CheckQuota && cut < |r| ==> Unlocked(Sizes(r)[..cut + 1], Locks(r)[..cut + 1]) > target)
  {
    assert Sizes(items)[..|items|] == Sizes(items) && Locks(items)[..|items|] == Locks(items);
    SweepSweeps(items, |items|, u, target, ncs);
    SweepStops(items, |items|, target, ncs);
  }

  /** What is left of the second phase at position n. */
  ghost function Retake(items: seq<Item>, n: nat, target: int, ncs: int): (r: (seq<Item>, int))
    requires n <= |items|
    decreases |items| - n
  {
    if n == |items| then (items, ncs)
    else
      var e := items[n];
      if ncs + e.size <= target then Retake(items[n := e.(tgc := false)], n + 1, target, ncs + e.size)
      else Retake(items, n + 1, target, ncs)
  }

  lemma {:induction false} RetakeReflags(items: seq<Item>, n: nat, target: int, ncs: int)
    requires n <= |items|
    ensures Reflagged(Retake(items, n, target, ncs).0, items)
    decreases |items| - n
  {
    if n < |items| {
      var e := items[n];
      if ncs + e.size <= target {
        FlagSet(items, 0, n, false);
        RetakeReflags(items[n := e.(tgc := false)], n + 1, target, ncs + e.size);
      } else {
        RetakeReflags(items, n + 1, target, ncs);
      }
    }
  }

  /** It gives the flags of TakeBack to the entries from n on, if they had those of the first phase. */
  lemma {:induction false} RetakeTakesBack(items: seq<Item>, cut: nat, n: nat, target: int, ncs: int)
    requires cut <= n <= |items| && forall i :: n <= i < |items| ==> items[i].tgc == !items[i].locked
    ensures var (r, last) := Retake(items, n, target, ncs);
            |r| == |items| && TakeBack(Sizes(items)[n..], Locks(items)[n..], target, ncs) == (Marks(r, cut)[n..], last)
    decreases |items| - n
  {
    if n < |items| {
      var e := items[n];
      var fits := ncs + e.size <= target;
      var next := if fits then items[n := e.(tgc := false)] else items;
      var ncs1 := if fits then ncs + e.size else ncs;
      var (r, last) := Retake(next, n + 1, target, ncs1);
      RetakeSpares(next, n + 1, target, ncs1, n);
      RetakeTakesBack(next, cut, n + 1, target, ncs1);
      assert Sizes(next) == Sizes(items) && Locks(next) == Locks(items);
      TakeBackStep(Sizes(items), Locks(items), target, n, ncs, Marks(r, cut), last);
    } else {
      assert Sizes(items)[n..] == [] && Marks(items, cut)[n..] == [];
    }
  }

  lemma {:induction false} RetakeSpares(items: seq<Item>, n: nat, target: int, ncs: int, k: nat)
    requires k < n <= |items|
    ensures var r := Retake(items, n, target, ncs).0; |r| == |items| && r[k] == items[k]
    decreases |items| - n
  {
    if n < |items| {
      var e := items[n];
      if ncs + e.size <= target {
        RetakeSpares(items[n := e.(tgc := false)], n + 1, target, ncs + e.size, k);
      } else {
        RetakeSpares(items, n + 1, target, ncs, k);
      }
    }
  }

  /** One entry further in the deletion pass. */
  lemma {:induction false} OnwardNext(items: seq<Item>, p: nat)
    requires p < |items|
    ensures Onward(items, p, Marks(items, p)[p..])
            == if items[p].tgc then Onward(Without(items, p), p, Marks(Without(items, p), p)[p..])
               else Onward(items, p + 1, Marks(items, p + 1)[p + 1..])
  {
    OnwardStep(items, p, Marks(items, p)[p..]);
    if items[p].tgc {
      assert Marks(items, p)[p..][1..] == Marks(Without(items, p), p)[p..];
    } else {
      assert Marks(items, p)[p..][1..] == Marks(items, p + 1)[p + 1..];
    }
  }

  ghost predicate NoneMarked(marks: seq<bool>) {
    forall n :: 0 <= n < |marks| ==> !marks[n]
  }

  /** Which entries a collection gives up, by what it was asked for. */
  ghost predicate Collected(u: Shrink, quota: nat, cacheSize: int, sizes: seq<int>, locks: seq<bool>,
                            marks: seq<bool>, cut: nat, ncs: int)
    requires |sizes| == |locks|
  {
    match u
    case FreeSomething => NoneMarked(marks)
    case FreeAll => |marks| == |locks| && forall n :: 0 <= n < |marks| ==> marks[n] == !locks[n]
    case CheckQuota =>
      if cacheSize <= quota || Unlocked(sizes, locks) <= quota then NoneMarked(marks)
      else QuotaPlan(sizes, locks, quota * 9 / 10, marks, cut, ncs)
  }

  class Collector {
    var items: seq<Item>
    var cacheSize: int

    ghost predicate Valid()
      reads this
    {
      cacheSize == Sum(Sizes(items))
    }

    /** The bytes held by entries that may go (lines 343-356); the ledger is checked on the way. */
    method CountUnlocked() returns (ncs: int)
      requires Valid()
      ensures ncs == Unlocked(Sizes(items), Locks(items))
    {
      ghost var sizes := Sizes(items);
      ghost var c := Counted(sizes, Locks(items));
      ncs := cacheSize;
      var ccs := 0;
      for n := 0 to |items|
        invariant ccs == Sum(sizes[..n]) && ncs == cacheSize - ccs + Sum(c[..n])
      {
        SumPrefix(sizes, n);
        SumPrefix(c, n);
        if items[n].locked {
          ncs := ncs - items[n].size;
          // No underflow: the later entries and the unlocked earlier ones are in it.
          SumSplit(sizes, n + 1);
          SumNonNegative(sizes[n + 1..]);
          SumNonNegative(c[..n + 1]);
          assert ncs >= 0;
        }
        ccs := ccs + items[n].size;
      }
      assert sizes[..|items|] == sizes && c[..|items|] == c;
      assert ccs == cacheSize;
    }

    /** Marks unlocked entries from the oldest on, for a quota until the target is met (lines 358-370). */
    method SweepFromOldest(u: Shrink, target: int, ncs0: int) returns (cut: nat, ncs: int)
      requires ncs0 == Unlocked(Sizes(items), Locks(items))
      modifies this`items
      ensures Reflagged(items, old(items))
      ensures Swept(items, cut, ncs)
      ensures u == CheckQuota ==> ncs <= target || cut == 0
      ensures u == CheckQuota && cut < |items| ==> Unlocked(Sizes(items)[..cut + 1], Locks(items)[..cut + 1]) > target
      ensures u != CheckQuota ==> cut == 0
    {
      SweepDoes(items, u, target, ncs0);
      cut, ncs := SweepLoop(u, target, ncs0);
    }

    method SweepLoop(u: Shrink, target: int, ncs0: int) returns (cut: nat, ncs: int)
      requires ncs0 == Unlocked(Sizes(items), Locks(items))
      modifies this`items
      ensures (items, cut, ncs) == Sweep(old(items), |old(items)|, u, target, ncs0)
    {
      cut, ncs := |items|, ncs0;
      assert Sizes(items)[..cut] == Sizes(items) && Locks(items)[..cut] == Locks(items);
      while cut > 0
        invariant cut <= |items| && Sweep(items, cut, u, target, ncs) == Sweep(old(items), |old(items)|, u, target, ncs0)
        invariant ncs == Unlocked(Sizes(items)[..cut], Locks(items)[..cut])
      {
        if u == CheckQuota && ncs <= target {
          break;
        }
        cut := cut - 1;
        var e := items[cut];
        UnlockedStep(items, cut, !e.locked);
        items := items[cut := e.(tgc := !e.locked)];
        if !e.locked {
          ncs := ncs - e.size;
          assert ncs >= 0;
        }
      }
    }

    /** Takes back marked entries that still fit (lines 374-379). */
    method TakeBackFitting(target: int, cut: nat, ncs0: int) returns (ncs: int)
      requires Swept(items, cut, ncs0)
      modifies this`items
      ensures Reflagged(items, old(items))
      ensures forall i :: 0 <= i < cut ==> !Marks(items, cut)[i]
      ensures TakeBack(Sizes(items)[cut..], Locks(items)[cut..], target, ncs0) == (Marks(items, cut)[cut..], ncs)
    {
      RetakeTakesBack(items, cut, cut, target, ncs0);
      RetakeReflags(items, cut, target, ncs0);
      ncs := TakeBackLoop(target, cut, ncs0);
    }

    method TakeBackLoop(target: int, cut: nat, ncs0: int) returns (ncs: int)
      requires cut <= |items|
      modifies this`items
      ensures (items, ncs) == Retake(old(items), cut, target, ncs0)
    {
      ncs := ncs0;
      var n: nat := cut;
      while n < |items|
        invariant n <= |items| && Retake(items, n, target, ncs) == Retake(old(items), cut, target, ncs0)
      {
        var e := items[n];
        if ncs + e.size <= target {
          ncs := ncs + e.size;
          items := items[n := e.(tgc := false)];
        }
        n := n + 1;
      }
    }

    /** Takes entry p off the list and its bytes off the ledger (lines 314-330). */
    method DeleteCacheEntry(p: nat)
      requires Valid() && p < |items| && !items[p].locked
      modifies this
      ensures Valid() && items == Without(old(items), p)
      ensures cacheSize == old(cacheSize) - old(items)[p].size
    {
      SumWithout(Sizes(items), p);
      ghost var sizes := Without(Sizes(items), p);
      cacheSize := cacheSize - items[p].size;
      SumNonNegative(sizes);
      assert cacheSize >= 0;
      items := Without(items, p);
      assert Sizes(items) == sizes;
    }

    /** Deletes the flagged entries from cut on (lines 380-386). */
    method DeleteFlagged(cut: nat) returns (freed: bool)
      requires Valid() && cut <= |items|
      requires forall n :: cut <= n < |items| ==> !(items[n].tgc && items[n].locked)
      modifies this
      ensures Valid() && items == Keep(old(items), Marks(old(items), cut))
      ensures freed <==> |items| < |old(items)|
    {
      ghost var goal := Onward(items, cut, Marks(items, cut)[cut..]);
      OnwardFrom(items, cut, Marks(items, cut));
      var p: nat := cut;
      freed := false;
      while p < |items|
        invariant Valid() && p <= |items| <= |old(items)| && Onward(items, p, Marks(items, p)[p..]) == goal
        invariant forall n :: p <= n < |items| ==> !(items[n].tgc && items[n].locked)
        invariant freed <==> |items| < |old(items)|
      {
        OnwardNext(items, p);
        if items[p].tgc {
          DeleteCacheEntry(p);
          freed := true;
        } else {
          p := p + 1;
        }
      }
      assert Onward(items, p, Marks(items, p)[p..]) == items;
    }

    /** Decides what goes: flags it, unless one of the early exits is taken (lines 334-379). */
    method Select(u: Shrink, quota: nat) returns (any: bool, cut: nat, ghost ncs: int)
      requires Valid()
      modifies this`items
      ensures Valid() && Reflagged(items, old(items)) && cut <= |items|
      ensures any || cut == |items|
      ensures Collected(u, quota, cacheSize, Sizes(items), Locks(items), Marks(items, cut), cut, ncs)
    {
      any, cut, ncs := false, |items|, 0;
      if u == FreeSomething || (u == CheckQuota && cacheSize <= quota) {
        return;
      }
      var left := CountUnlocked();
      if u == CheckQuota && left <= quota {
        return;
      }
      any := true;
      var target := quota * 9 / 10;
      cut, left := SweepFromOldest(u, target, left);
      if cut == 0 {
        assert Counted(Sizes(items)[..0], Locks(items)[..0]) == [];
        assert left == 0;
      }
      if u == CheckQuota {
        left := TakeBackFitting(target, cut, left);
      }
      ncs := left;
    }

    /**
     * The collector. It deletes only unlocked entries; to free everything it deletes all of those, and
     * over quota it follows the plan with nine tenths of the quota as its target.
     */
    method ShrinkFileCache(u: Shrink, quota: nat)
      returns (freed: bool, empty: bool, ghost flagged: seq<Item>, ghost cut: nat, ghost ncs: int)
      requires Valid()
      modifies this
      ensures Valid() && Reflagged(flagged, old(items)) && items == Keep(flagged, Marks(flagged, cut))
      ensures Collected(u, quota, old(cacheSize), Sizes(flagged), Locks(flagged), Marks(flagged, cut), cut, ncs)
      ensures freed <==> |items| < |old(items)|
      ensures empty <==> items == []
    {
      var any, from;
      any, from, ncs := Select(u, quota);
      cut, flagged, freed := from, items, false;
      if any {
        forall n | cut <= n < |items|
          ensures !(items[n].tgc && items[n].locked)
        {
          if items[n].locked {
            LockedNotMarked(u, quota, cacheSize, items, cut, ncs, n);
            assert Marks(items, cut)[n] == items[n].tgc;
          }
        }
        freed := DeleteFlagged(from);
      } else {
        KeepAll(items, Marks(items, cut));
      }
      empty := items == [];
    }
  }

  lemma LockedNotMarked(u: Shrink, quota: nat, cacheSize: int, flagged: seq<Item>, cut: nat, ncs: int, n: nat)
    requires Collected(u, quota, cacheSize, Sizes(flagged), Locks(flagged), Marks(flagged, cut), cut, ncs)
    requires n < |flagged| && flagged[n].locked
    ensures !Marks(flagged, cut)[n]
  {
    assert Locks(flagged)[n];
    if u == CheckQuota && cacheSize > quota && Unlocked(Sizes(flagged), Locks(flagged)) > quota {
      PlanMade(Sizes(flagged), Locks(flagged), quota * 9 / 10, Marks(flagged, cut), cut, ncs);
    }
  }

  /** No collection gives up an entry that is referenced or still loading: every locked entry stays. */
  lemma {:induction false} LockedEntriesStay(u: Shrink, quota: nat, cacheSize: int, flagged: seq<Item>, cut: nat, ncs: int, e: Item)
    requires Collected(u, quota, cacheSize, Sizes(flagged), Locks(flagged), Marks(flagged, cut), cut, ncs)
    requires e in flagged && e.locked
    ensures e in Keep(flagged, Marks(flagged, cut))
  {
    var n :| 0 <= n < |flagged| && flagged[n] == e;
    LockedNotMarked(u, quota, cacheSize, flagged, cut, ncs, n);
    KeepMembers(flagged, Marks(flagged, cut), e);
  }

  /**
   * A collection that does give up an entry needlessly. Four entries, the third of them locked, and a
   * quota of 112 bytes: whatever satisfies the collector's contract keeps the first and the third,
   * although the last would have fitted the target beside the 60 unlocked bytes that stay.
   */
  lemma {:induction false} LockedEntriesCrowdOut(flagged: seq<Item>, cut: nat, ncs: int)
    requires Sizes(flagged) == [60, 50, 40, 30] && Locks(flagged) == [false, false, true, false]
    requires Collected(CheckQuota, 112, 180, Sizes(flagged), Locks(flagged), Marks(flagged, cut), cut, ncs)
    ensures cut == 1 && Keep(flagged, Marks(flagged, cut)) == [flagged[0], flagged[2]]
    ensures !AllNeeded(Sizes(flagged), Locks(flagged), 100, Marks(flagged, cut))
  {
    var sizes, locked, marks := Sizes(flagged), Locks(flagged), Marks(flagged, cut);
    CrowdedPlan();
    assert Counted(sizes, locked) == [60, 50, 0, 30];
    SumOfFour(60, 50, 0, 30);
    PlanUnique(sizes, locked, 100, marks, cut, ncs, [false, true, false, true], 1, 100);
    assert Counted(sizes, Either(locked, marks[3 := false])) == [60, 0, 0, 30];
    SumOfFour(60, 0, 0, 30);
    KeepFirstAndThird(flagged, marks);
  }

  lemma {:induction false} KeepFirstAndThird<T>(s: seq<T>, marks: seq<bool>)
    requires |s| == 4 && marks == [false, true, false, true]
    ensures Keep(s, marks) == [s[0], s[2]]
  {
    assert s == [s[0]] + ([s[1]] + ([s[2]] + ([s[3]] + [])));
    assert marks == [false] + ([true] + ([false] + ([true] + [])));
    KeepCons(s[3], true, [], []);
    KeepCons(s[2], false, [s[3]] + [], [true] + []);
    KeepCons(s[1], true, [s[2]] + ([s[3]] + []), [false] + ([true] + []));
    KeepCons(s[0], false, [s[1]] + ([s[2]] + ([s[3]] + [])), [true] + ([false] + ([true] + [])));
  }

  lemma {:induction false} KeepCons<T>(x: T, mark: bool, s: seq<T>, marks: seq<bool>)
    requires |s| == |marks|
    ensures Keep([x] + s, [mark] + marks) == (if mark then [] else [x]) + Keep(s, marks)
  {
    assert ([x] + s)[1..] == s && ([mark] + marks)[1..] == marks;
  }

  lemma CrowdedPlan()
    ensures QuotaPlan([60, 50, 40, 30], [false, false, true, false], 100, [false, true, false, true], 1, 100)
  {
    var sizes, locked := [60, 50, 40, 30], [false, false, true, false];
    assert Counted(sizes[..1], locked[..1]) == [60] + [] && Counted(sizes[..2], locked[..2]) == [60] + ([50] + []);
    SumCons(50, []);
    SumCons(60, []);
    SumCons(60, [50] + []);
    var marks := [false, true, false, true];
    assert sizes[4..] == [] && marks[4..] == [];
    TakeBackStep(sizes, locked, 100, 3, 100, marks, 100);
    TakeBackStep(sizes, locked, 100, 2, 60, marks, 100);
    TakeBackStep(sizes, locked, 100, 1, 60, marks, 100);
  }

  /** How many of the entries before n stay. */
  function StayBefore(marks: seq<bool>, n: nat): (k: nat)
    requires n <= |marks|
    ensures k <= n
  {
    if n == 0 then 0 else StayBefore(marks, n - 1) + if marks[n - 1] then 0 else 1
  }

  lemma {:induction false} StayBeforeRest(marks: seq<bool>, n: nat)
    requires 0 < n <= |marks|
    ensures StayBefore(marks, n) == (if marks[0] then 0 else 1) + StayBefore(marks[1..], n - 1)
  {
    if n > 1 {
      StayBeforeRest(marks, n - 1);
    }
  }

  /** What stays are the entries not marked, and no others, in their order. */
  lemma {:induction false} StaysAt<T>(s: seq<T>, marks: seq<bool>, n: nat)
    requires |s| == |marks| && n < |s|
    ensures |Keep(s, marks)| == StayBefore(marks, |marks|)
    ensures !marks[n] ==> StayBefore(marks, n) < |Keep(s, marks)| && Keep(s, marks)[StayBefore(marks, n)] == s[n]
  {
    StayBeforeRest(marks, |marks|);
    if n > 0 {
      StayBeforeRest(marks, n);
    }
    if |s| > 1 {
      StaysAt(s[1..], marks[1..], if n > 0 then n - 1 else 0);
    }
  }

  /**
   * Over quota with more unlocked bytes than the quota, a collection leaves at most nine tenths of the quota
   * unlocked; within the quota it deletes nothing.
   */
  lemma {:induction false} QuotaReached(quota: nat, cacheSize: int, flagged: seq<Item>, cut: nat, ncs: int)
    requires Collected(CheckQuota, quota, cacheSize, Sizes(flagged), Locks(flagged), Marks(flagged, cut), cut, ncs)
    ensures cacheSize > quota && Unlocked(Sizes(flagged), Locks(flagged)) > quota ==>
              10 * Remaining(Sizes(flagged), Locks(flagged), Marks(flagged, cut)) <= 9 * quota
    ensures cacheSize <= quota || Unlocked(Sizes(flagged), Locks(flagged)) <= quota ==>
              forall i :: 0 <= i < |flagged| ==> !Marks(flagged, cut)[i]
  {
    if cacheSize > quota && Unlocked(Sizes(flagged), Locks(flagged)) > quota {
      PlanMade(Sizes(flagged), Locks(flagged), quota * 9 / 10, Marks(flagged, cut), cut, ncs);
    }
  }
}
