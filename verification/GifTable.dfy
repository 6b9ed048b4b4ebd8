// The decoder's code table (gif.c): each code is the previous string's code plus one index, so a
// string is a chain of links read backwards. The chains represent the dictionary of strings.

module GifTable {
  import Basics
  import opened GifLzw

  const ROOT := -1
  const UNUSED := -2

  /** The links of a table whose codes below top (but not the two control codes) are in use. */
  ghost predicate Linked(ptr: seq<int>, end: seq<int>, cc: nat, top: nat) {
    && |ptr| == |end| == TABLE_SIZE && cc + 2 <= top <= TABLE_SIZE
    && (forall c :: 0 <= c < cc ==> ptr[c] == ROOT && end[c] == c)
    && (forall c :: cc + 2 <= c < top ==>
          0 <= ptr[c] < c && InUse(ptr[c], cc, top) && 0 <= end[c] < cc)
  }

  predicate InUse(c: int, cc: nat, top: nat) {
    0 <= c < cc || cc + 2 <= c < top
  }

  /** The string a code stands for. */
  function Str(ptr: seq<int>, end: seq<int>, cc: nat, top: nat, c: int): (s: seq<nat>)
    requires Linked(ptr, end, cc, top) && InUse(c, cc, top)
    ensures 1 <= |s| <= c + 1
    ensures forall i :: 0 <= i < |s| ==> s[i] < cc
    ensures s[|s| - 1] == end[c]
    decreases c
  {
    if c < cc then [end[c]] else Str(ptr, end, cc, top, ptr[c]) + [end[c]]
  }

  /** A later table that agrees on the codes in use gives them the same strings. */
  lemma {:induction false} StrSame(ptr: seq<int>, end: seq<int>, cc: nat, top: nat,
                                   ptr': seq<int>, end': seq<int>, top': nat, c: int)
    requires Linked(ptr, end, cc, top) && Linked(ptr', end', cc, top') && top <= top'
    requires forall i :: 0 <= i < top ==> ptr'[i] == ptr[i] && end'[i] == end[i]
    requires InUse(c, cc, top)
    ensures Str(ptr', end', cc, top', c) == Str(ptr, end, cc, top, c)
    decreases c
  {
    if c >= cc {
      StrSame(ptr, end, cc, top, ptr', end', top', ptr[c]);
    }
  }

  /** The table represents the dictionary, and `last` the previous code. */
  ghost predicate Represents(ptr: seq<int>, end: seq<int>, st: Lzw, last: int) {
    && Linked(ptr, end, st.ClearCode(), st.Top())
    && (forall i :: 0 <= i < |st.dict| ==>
          Str(ptr, end, st.ClearCode(), st.Top(), st.EndCode() + 1 + i) == st.dict[i])
    && (st.last.Some? ==> InUse(last, st.ClearCode(), st.Top()) && Str(ptr, end, st.ClearCode(), st.Top(), last) == st.last.value)
  }

  lemma {:induction false} MeaningIsStr(ptr: seq<int>, end: seq<int>, st: Lzw, last: int, c: nat)
    requires Represents(ptr, end, st, last) && st.Known(c)
    ensures InUse(c, st.ClearCode(), st.Top()) && st.Meaning(c) == Str(ptr, end, st.ClearCode(), st.Top(), c)
  {
    if c >= st.ClearCode() {
      var i := c - st.EndCode() - 1;
      assert st.EndCode() + 1 + i == c;
    }
  }

  /** The table right after init_table. */
  lemma {:induction false} FreshTable(ptr: seq<int>, end: seq<int>, root: nat, last: int)
    requires |ptr| == |end| == TABLE_SIZE && root <= 8
    requires forall c :: 0 <= c < Pow2(root) ==> c < TABLE_SIZE && ptr[c] == ROOT && end[c] == c
    ensures Represents(ptr, end, Cleared(root), last)
  {
    Pow2Increases(root, 8);
    Pow2Max();
  }

  /** The first code after a clear code is its own string. */
  lemma FirstEntry(ptr: seq<int>, end: seq<int>, st: Lzw, last: int, c: nat)
    requires Represents(ptr, end, st, last) && c < st.ClearCode()
    ensures Represents(ptr, end, st.(last := Basics.Some([c])), c)
  {
    var t := st.(last := Basics.Some([c]));
    assert t.Top() == st.Top() && t.EndCode() == st.EndCode();
  }

  lemma AddedLinks(ptr: seq<int>, end: seq<int>, cc: nat, top: nat, last: int, first: int)
    requires Linked(ptr, end, cc, top) && top < TABLE_SIZE && InUse(last, cc, top) && 0 <= first < cc
    ensures Linked(ptr[top := last], end[top := first], cc, top + 1)
    ensures Str(ptr[top := last], end[top := first], cc, top + 1, top) == Str(ptr, end, cc, top, last) + [first]
  {
    StrSame(ptr, end, cc, top, ptr[top := last], end[top := first], top + 1, last);
  }

  /** Adding (pointer, end_char) = (last code, first index of the current string) learns a string. */
  lemma {:induction false} AddedEntry(ptr: seq<int>, end: seq<int>, st: Lzw, last: int, first: nat, i: nat)
    requires Represents(ptr, end, st, last) && st.last.Some? && st.Top() < TABLE_SIZE && first < st.ClearCode()
    requires Linked(ptr[st.Top() := last], end[st.Top() := first], st.ClearCode(), st.Top() + 1)
    requires i < |st.dict|
    ensures Str(ptr[st.Top() := last], end[st.Top() := first], st.ClearCode(), st.Top() + 1, st.EndCode() + 1 + i) == st.dict[i]
  {
    var t := st.Top();
    StrSame(ptr, end, st.ClearCode(), t, ptr[t := last], end[t := first], t + 1, st.EndCode() + 1 + i);
  }

  lemma {:induction false} LearntDict(ptr: seq<int>, end: seq<int>, st: Lzw, last: int, cur: seq<nat>, i: nat)
    requires Represents(ptr, end, st, last) && st.last.Some? && st.Top() < TABLE_SIZE
    requires cur != [] && cur[0] < st.ClearCode() && i <= |st.dict|
    ensures var t := st.Top();
            && Linked(ptr[t := last], end[t := cur[0]], st.ClearCode(), t + 1)
            && Str(ptr[t := last], end[t := cur[0]], st.ClearCode(), t + 1, st.EndCode() + 1 + i)
               == (st.dict + [st.last.value + [cur[0]]])[i]
  {
    AddedLinks(ptr, end, st.ClearCode(), st.Top(), last, cur[0]);
    if i == |st.dict| {
      assert st.EndCode() + 1 + i == st.Top();
    } else {
      AddedEntry(ptr, end, st, last, cur[0], i);
    }
  }

  lemma {:induction false} LearntCode(ptr: seq<int>, end: seq<int>, st: Lzw, last: int, c: nat, cur: seq<nat>)
    requires Represents(ptr, end, st, last) && st.last.Some? && st.Top() < TABLE_SIZE
    requires st.last.value != []
    requires if st.Known(c) then cur == st.Meaning(c) else c == st.Top() && cur == st.last.value + [st.last.value[0]]
    requires cur != [] && cur[0] < st.ClearCode()
    ensures var t := st.Top();
            && Linked(ptr[t := last], end[t := cur[0]], st.ClearCode(), t + 1) && InUse(c, st.ClearCode(), t + 1)
            && Str(ptr[t := last], end[t := cur[0]], st.ClearCode(), t + 1, c) == cur
  {
    var t, cc := st.Top(), st.ClearCode();
    AddedLinks(ptr, end, cc, t, last, cur[0]);
    if st.Known(c) {
      MeaningIsStr(ptr, end, st, last, c);
      StrSame(ptr, end, cc, t, ptr[t := last], end[t := cur[0]], t + 1, c);
    }
  }

  lemma {:induction false} LearntAll(ptr: seq<int>, end: seq<int>, st: Lzw, last: int, c: nat, cur: seq<nat>)
    requires Represents(ptr, end, st, last) && st.last.Some? && st.Top() < TABLE_SIZE
    requires st.last.value != [] && cur != [] && cur[0] < st.ClearCode()
    requires Linked(ptr[st.Top() := last], end[st.Top() := cur[0]], st.ClearCode(), st.Top() + 1)
    ensures var u := Learnt(st, cur);
            forall i :: 0 <= i < |u.dict| ==>
              Str(ptr[st.Top() := last], end[st.Top() := cur[0]], st.ClearCode(), st.Top() + 1, st.EndCode() + 1 + i) == u.dict[i]
  {
    var u, t := Learnt(st, cur), st.Top();
    forall i | 0 <= i < |u.dict|
      ensures Str(ptr[t := last], end[t := cur[0]], st.ClearCode(), t + 1, st.EndCode() + 1 + i) == u.dict[i]
    {
      LearntDict(ptr, end, st, last, cur, i);
    }
  }

  /** After that the current code, even one that was not yet in the table, stands for the current string. */
  lemma LearntEntry(ptr: seq<int>, end: seq<int>, st: Lzw, last: int, c: nat, cur: seq<nat>)
    requires Represents(ptr, end, st, last) && st.last.Some? && st.Top() < TABLE_SIZE
    requires st.last.value != []
    requires if st.Known(c) then cur == st.Meaning(c) else c == st.Top() && cur == st.last.value + [st.last.value[0]]
    requires cur != [] && cur[0] < st.ClearCode()
    ensures Represents(ptr[st.Top() := last], end[st.Top() := cur[0]], Learnt(st, cur), c)
  {
    var u := Learnt(st, cur);
    assert u.ClearCode() == st.ClearCode() && u.EndCode() == st.EndCode() && u.Top() == st.Top() + 1;
    LearntCode(ptr, end, st, last, c, cur);
    LearntAll(ptr, end, st, last, c, cur);
  }

  function Reverse(s: seq<nat>): (r: seq<nat>)
    ensures |r| == |s|
  {
    if s == [] then [] else [s[|s| - 1]] + Reverse(s[..|s| - 1])
  }

  /** While a string is unwound: the code reached and the indices put aside make up the string. */
  ghost predicate Unwinding(ptr: seq<int>, end: seq<int>, cc: nat, top: nat, c0: int, c: int, aside: seq<nat>) {
    && Linked(ptr, end, cc, top) && InUse(c0, cc, top) && InUse(c, cc, top) && c + |aside| <= c0
    && Str(ptr, end, cc, top, c) + Reverse(aside) == Str(ptr, end, cc, top, c0)
  }

  lemma UnwindStart(ptr: seq<int>, end: seq<int>, cc: nat, top: nat, c: int)
    requires Linked(ptr, end, cc, top) && InUse(c, cc, top)
    ensures Unwinding(ptr, end, cc, top, c, c, [])
  {
    assert Str(ptr, end, cc, top, c) + [] == Str(ptr, end, cc, top, c);
  }

  lemma {:induction false} UnwindStep(ptr: seq<int>, end: seq<int>, cc: nat, top: nat, c0: int, c: int, aside: seq<nat>)
    requires Unwinding(ptr, end, cc, top, c0, c, aside)
    ensures 0 <= end[c]
    ensures if ptr[c] < 0 then Reverse(aside + [end[c]]) == Str(ptr, end, cc, top, c0)
            else Unwinding(ptr, end, cc, top, c0, ptr[c], aside + [end[c]])
  {
    var more := aside + [end[c]];
    assert more[..|aside|] == aside;
    assert Reverse(more) == [end[c]] + Reverse(aside);
    if ptr[c] >= 0 {
      assert Str(ptr, end, cc, top, ptr[c]) + ([end[c]] + Reverse(aside))
          == (Str(ptr, end, cc, top, ptr[c]) + [end[c]]) + Reverse(aside);
    }
  }
}
