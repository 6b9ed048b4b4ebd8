// The lists of associations, extensions and blocked images (types.c, block.c): what a configuration file
// makes of them when it is read, and what is left of them when they are written and read again.

module ConfigLists {
  import opened Basics
  import opened Config
  import opened ConfigFile
  import Glob

  /** The lists in memory, front first. Files are written from the back. */
  datatype Stored = Stored(assocs: seq<Assoc>, exts: seq<Ext>, blocks: seq<string>)

  const NOTHING := Stored([], [], [])

  // ----- How an entry gets into its list -----

  function RemoveFirst<T(==)>(s: seq<T>, x: T): seq<T> {
    if s == [] then [] else if s[0] == x then s[1..] else [s[0]] + RemoveFirst(s[1..], x)
  }

  /** An entry without empty fields moves to the front, or comes in there. */
  function Updated<T(==)>(s: seq<T>, x: T, full: bool): seq<T> {
    if full then [x] + RemoveFirst(s, x) else s
  }

  predicate FullAssoc(a: Assoc) {
    a.name != "" && a.ct != "" && a.prog != ""
  }

  predicate FullExt(e: Ext) {
    e.ext != "" && e.ct != ""
  }

  /** A blocked image comes in behind the first. */
  function WithUrl(blocks: seq<string>, url: string): seq<string> {
    if blocks == [] then [url] else [blocks[0], url] + blocks[1..]
  }

  lemma {:induction false} RemoveAt<T>(s: seq<T>, i: nat, x: T)
    requires i < |s| && s[i] == x && x !in s[..i]
    ensures RemoveFirst(s, x) == Without(s, i)
  {
    if i > 0 {
      assert s[0] == s[..i][0];
      assert s[1..][..i - 1] == s[..i][1..];
      RemoveAt(s[1..], i - 1, x);
    }
  }

  lemma {:induction false} RemoveNone<T>(s: seq<T>, x: T)
    requires x !in s
    ensures RemoveFirst(s, x) == s
  {
    if s != [] {
      assert s[0] in s;
      RemoveNone(s[1..], x);
    }
  }

  // ----- Reading a file -----

  function LowerCase(c: char): char {
    if 'A' <= c <= 'Z' then c - 'A' + 'a' else c
  }

  predicate SameName(s: string, t: string) {
    |s| == |t| && forall i :: 0 <= i < |s| ==> LowerCase(s[i]) == LowerCase(t[i])
  }

  function LoadOne(d: Stored, s: Setting): Option<Stored> {
    if SameName(s.name, "association") then
      var a := ReadAssoc(s.value);
      if a.None? then None else Some(d.(assocs := Updated(d.assocs, a.value, FullAssoc(a.value))))
    else if SameName(s.name, "extension") then
      var e := ReadExt(s.value);
      if e.None? then None else Some(d.(exts := Updated(d.exts, e.value, FullExt(e.value))))
    else if SameName(s.name, "imageblock") then
      var b := ReadBlock(s.value);
      if b.None? then None else Some(d.(blocks := WithUrl(d.blocks, b.value)))
    else None
  }

  /** A line that is an error is passed over. */
  function LoadNext(d: Stored, s: Setting): Stored {
    var next := LoadOne(d, s);
    if next.None? then d else next.value
  }

  /** Each line goes to the reader of its option. */
  function Load(d: Stored, settings: seq<Setting>): Stored
    decreases |settings|
  {
    if settings == [] then d else Load(LoadNext(d, settings[0]), settings[1..])
  }

  lemma {:induction false} LoadConcat(d: Stored, s: seq<Setting>, t: seq<Setting>)
    ensures Load(d, s + t) == Load(Load(d, s), t)
    decreases |s|
  {
    if s == [] {
      assert s + t == t;
    } else {
      assert (s + t)[1..] == s[1..] + t;
      LoadConcat(LoadNext(d, s[0]), s[1..], t);
    }
  }

  lemma {:induction false} LoadSnoc(d: Stored, s: seq<Setting>, x: Setting)
    ensures Load(d, s + [x]) == LoadNext(Load(d, s), x)
  {
    LoadConcat(d, s, [x]);
    var e := Load(d, s);
    assert [x][1..] == [];
    assert Load(e, [x]) == Load(LoadNext(e, x), []);
  }

  /** The lists as the program holds them. */
  class Lists {
    var assocs: seq<Assoc>
    var exts: seq<Ext>
    var blocks: seq<string>

    constructor ()
      ensures View() == NOTHING
    {
      assocs, exts, blocks := [], [], [];
    }

    ghost function View(): Stored
      reads this
    {
      Stored(assocs, exts, blocks)
    }

    /** update_assoc (types.c, lines 426-447). */
    method UpdateAssoc(a: Assoc)
      modifies this`assocs
      ensures assocs == Updated(old(assocs), a, FullAssoc(a))
    {
      if a.name == "" || a.ct == "" || a.prog == "" {
        return;
      }
      var i := 0;
      while i < |assocs|
        invariant 0 <= i <= |assocs| && assocs == old(assocs) && a !in assocs[..i]
      {
        if assocs[i] == a {
          RemoveAt(assocs, i, a);
          assocs := Without(assocs, i);
          assocs := [a] + assocs;
          return;
        }
        OneMoreTaken(assocs, i);
        i := i + 1;
      }
      assert assocs[..i] == assocs;
      RemoveNone(assocs, a);
      assocs := [a] + assocs;
    }

    /** update_ext (types.c, lines 735-749). */
    method UpdateExt(e: Ext)
      modifies this`exts
      ensures exts == Updated(old(exts), e, FullExt(e))
    {
      if e.ext == "" || e.ct == "" {
        return;
      }
      var i := 0;
      while i < |exts|
        invariant 0 <= i <= |exts| && exts == old(exts) && e !in exts[..i]
      {
        if exts[i] == e {
          RemoveAt(exts, i, e);
          exts := Without(exts, i);
          exts := [e] + exts;
          return;
        }
        OneMoreTaken(exts, i);
        i := i + 1;
      }
      assert exts[..i] == exts;
      RemoveNone(exts, e);
      exts := [e] + exts;
    }

    /** block_add_URL_fn (block.c, lines 313-332): the item that follows the list's head is the first one, if any. */
    method BlockAddUrl(url: string)
      modifies this`blocks
      ensures blocks == WithUrl(old(blocks), url)
    {
      var here := if blocks == [] then 0 else 1;
      blocks := blocks[..here] + [url] + blocks[here..];
    }

    /** The readers of the three options (default.c, lines 649-697 and 728-741). */
    method Read(s: Setting) returns (err: bool)
      modifies this
      ensures View() == LoadNext(old(View()), s) && err == LoadOne(old(View()), s).None?
    {
      err := false;
      if SameName(s.name, "association") {
        var a := ReadAssoc(s.value);
        if a.Some? {
          UpdateAssoc(a.value);
        } else {
          err := true;
        }
      } else if SameName(s.name, "extension") {
        var e := ReadExt(s.value);
        if e.Some? {
          UpdateExt(e.value);
        } else {
          err := true;
        }
      } else if SameName(s.name, "imageblock") {
        var b := ReadBlock(s.value);
        if b.Some? {
          BlockAddUrl(b.value);
        } else {
          err := true;
        }
      } else {
        err := true;
      }
    }

    /** A whole file (default.c, lines 213-261). */
    method ReadFile(file: string)
      modifies this
      ensures View() == Load(old(View()), ReadConfig(file))
    {
      var settings := ParseConfigFile(file);
      var n := 0;
      while n < |settings|
        invariant 0 <= n <= |settings| && Load(View(), settings[n..]) == Load(old(View()), settings)
      {
        var _ := Read(settings[n]);
        assert settings[n..][1..] == settings[n + 1..];
        n := n + 1;
      }
    }
  }

  // ----- Writing the lists -----

  /** The lines of a list, from the back. */
  function AssocLines(assocs: seq<Assoc>): (r: seq<Setting>)
    ensures |r| == |assocs|
    ensures forall i :: 0 <= i < |r| ==> r[i] == Setting("association", WriteAssoc(assocs[|assocs| - 1 - i]))
  {
    seq(|assocs|, i requires 0 <= i < |assocs| => Setting("association", WriteAssoc(assocs[|assocs| - 1 - i])))
  }

  function ExtLines(exts: seq<Ext>): (r: seq<Setting>)
    ensures |r| == |exts|
    ensures forall i :: 0 <= i < |r| ==> r[i] == Setting("extension", WriteExt(exts[|exts| - 1 - i]))
  {
    seq(|exts|, i requires 0 <= i < |exts| => Setting("extension", WriteExt(exts[|exts| - 1 - i])))
  }

  function BlockLines(blocks: seq<string>): (r: seq<Setting>)
    ensures |r| == |blocks|
    ensures forall i :: 0 <= i < |r| ==> r[i] == Setting("imageblock", Quoted(blocks[|blocks| - 1 - i]))
  {
    seq(|blocks|, i requires 0 <= i < |blocks| => Setting("imageblock", Quoted(blocks[|blocks| - 1 - i])))
  }

  function StoredLines(d: Stored): seq<Setting> {
    AssocLines(d.assocs) + ExtLines(d.exts) + BlockLines(d.blocks)
  }

  // ----- What comes back -----

  /** The entries that pass, each where it stands first, without those in `seen`. */
  function Kept<T(==)>(s: seq<T>, ok: T -> bool, seen: set<T>): seq<T> {
    if s == [] then []
    else if ok(s[0]) && s[0] !in seen then [s[0]] + Kept(s[1..], ok, seen + {s[0]})
    else Kept(s[1..], ok, seen)
  }

  lemma {:induction false} RemoveKept<T>(s: seq<T>, ok: T -> bool, seen: set<T>, x: T)
    ensures RemoveFirst(Kept(s, ok, seen), x) == Kept(s, ok, seen + {x})
    decreases |s|
  {
    if s != [] {
      if ok(s[0]) && s[0] !in seen {
        var rest := Kept(s[1..], ok, seen + {s[0]});
        assert ([s[0]] + rest)[1..] == rest;
        if s[0] != x {
          RemoveKept(s[1..], ok, seen + {s[0]}, x);
          assert seen + {s[0]} + {x} == seen + {x} + {s[0]};
        }
      } else {
        RemoveKept(s[1..], ok, seen, x);
      }
    }
  }

  /** Adding one by one, from the back, keeps what Kept says. */
  lemma {:induction false} UpdatedKept<T>(s: seq<T>, ok: T -> bool)
    requires s != []
    ensures Kept(s, ok, {}) == Updated(Kept(s[1..], ok, {}), s[0], ok(s[0]))
  {
    RemoveKept(s[1..], ok, {}, s[0]);
    assert {} + {s[0]} == {s[0]};
  }

  ghost predicate Distinct<T>(s: seq<T>) {
    forall i, j :: 0 <= i < j < |s| ==> s[i] != s[j]
  }

  ghost predicate AllPass<T>(s: seq<T>, ok: T -> bool) {
    forall i :: 0 <= i < |s| ==> ok(s[i])
  }

  /** Exactly the entries that pass are kept, each once. */
  lemma {:induction false} KeptMembers<T>(s: seq<T>, ok: T -> bool, seen: set<T>, x: T)
    ensures x in Kept(s, ok, seen) <==> x in s && ok(x) && x !in seen
    decreases |s|
  {
    if s != [] {
      var pass := ok(s[0]) && s[0] !in seen;
      KeptMembers(s[1..], ok, if pass then seen + {s[0]} else seen, x);
      assert x in s <==> x == s[0] || x in s[1..];
    }
  }

  /** x comes first in s at position i. */
  ghost predicate ComesFirst<T>(s: seq<T>, x: T, i: nat) {
    i < |s| && s[i] == x && x !in s[..i]
  }

  /** They are kept in the order in which they stand first. */
  lemma {:induction false} KeptInOrder<T>(s: seq<T>, ok: T -> bool, seen: set<T>, m: nat, n: nat) returns (i: nat, j: nat)
    requires m < n < |Kept(s, ok, seen)|
    ensures ComesFirst(s, Kept(s, ok, seen)[m], i) && ComesFirst(s, Kept(s, ok, seen)[n], j) && i < j
    decreases |s|
  {
    var pass := ok(s[0]) && s[0] !in seen;
    var rest := Kept(s[1..], ok, if pass then seen + {s[0]} else seen);
    if pass && m == 0 {
      i := 0;
      j := FirstOf(s[1..], ok, seen + {s[0]}, n - 1);
      FirstLater(s, rest[n - 1], j);
      j := j + 1;
    } else {
      i, j := KeptInOrder(s[1..], ok, if pass then seen + {s[0]} else seen, if pass then m - 1 else m, if pass then n - 1 else n);
      KeptIsNot(s, ok, seen, if pass then m - 1 else m);
      KeptIsNot(s, ok, seen, if pass then n - 1 else n);
      FirstLater(s, Kept(s, ok, seen)[m], i);
      FirstLater(s, Kept(s, ok, seen)[n], j);
      i, j := i + 1, j + 1;
    }
  }

  lemma {:induction false} FirstOf<T>(s: seq<T>, ok: T -> bool, seen: set<T>, n: nat) returns (j: nat)
    requires n < |Kept(s, ok, seen)|
    ensures ComesFirst(s, Kept(s, ok, seen)[n], j) && Kept(s, ok, seen)[n] !in seen
    decreases |s|
  {
    var pass := ok(s[0]) && s[0] !in seen;
    if pass && n == 0 {
      j := 0;
    } else {
      j := FirstOf(s[1..], ok, if pass then seen + {s[0]} else seen, if pass then n - 1 else n);
      KeptIsNot(s, ok, seen, if pass then n - 1 else n);
      FirstLater(s, Kept(s, ok, seen)[n], j);
      j := j + 1;
    }
  }

  /** What is kept of the rest is another entry than the first. */
  lemma {:induction false} KeptIsNot<T>(s: seq<T>, ok: T -> bool, seen: set<T>, n: nat)
    requires s != []
    requires n < |Kept(s[1..], ok, if ok(s[0]) && s[0] !in seen then seen + {s[0]} else seen)|
    ensures Kept(s[1..], ok, if ok(s[0]) && s[0] !in seen then seen + {s[0]} else seen)[n] != s[0]
  {
    var more := if ok(s[0]) && s[0] !in seen then seen + {s[0]} else seen;
    KeptMembers(s[1..], ok, more, Kept(s[1..], ok, more)[n]);
  }

  lemma FirstLater<T>(s: seq<T>, x: T, i: nat)
    requires s != [] && x != s[0] && ComesFirst(s[1..], x, i)
    ensures ComesFirst(s, x, i + 1)
  {
    assert s[..i + 1] == [s[0]] + s[1..][..i];
  }

  lemma {:induction false} KeptDistinct<T>(s: seq<T>, ok: T -> bool, seen: set<T>)
    ensures Distinct(Kept(s, ok, seen)) && AllPass(Kept(s, ok, seen), ok) && |Kept(s, ok, seen)| <= |s|
    decreases |s|
  {
    if s != [] {
      var pass := ok(s[0]) && s[0] !in seen;
      var more := if pass then seen + {s[0]} else seen;
      var rest := Kept(s[1..], ok, more);
      KeptDistinct(s[1..], ok, more);
      if pass {
        KeptMembers(s[1..], ok, more, s[0]);
        forall i | 0 <= i < |rest|
          ensures rest[i] != s[0]
        {
          assert rest[i] in rest;
        }
      }
    }
  }

  /** All entries are kept exactly if they pass, are new and differ from each other. */
  lemma {:induction false} KeptAll<T>(s: seq<T>, ok: T -> bool, seen: set<T>)
    ensures Kept(s, ok, seen) == s <==> AllPass(s, ok) && Distinct(s) && forall x :: x in s ==> x !in seen
    decreases |s|
  {
    if s != [] {
      assert s == [s[0]] + s[1..];
      assert s[0] in s && forall x :: x in s <==> x == s[0] || x in s[1..];
      if ok(s[0]) && s[0] !in seen {
        KeptAll(s[1..], ok, seen + {s[0]});
        DistinctFirst(s);
        AllPassFirst(s, ok);
        KeptFirst(s[0], Kept(s[1..], ok, seen + {s[0]}), s[1..]);
      } else {
        KeptDistinct(s[1..], ok, seen);
        assert |Kept(s, ok, seen)| < |s|;
      }
    }
  }

  lemma KeptFirst<T>(x: T, a: seq<T>, b: seq<T>)
    ensures [x] + a == [x] + b <==> a == b
  {
    if [x] + a == [x] + b {
      assert a == ([x] + a)[1..] == ([x] + b)[1..] == b;
    }
  }

  lemma {:induction false} AllPassFirst<T>(s: seq<T>, ok: T -> bool)
    requires s != []
    ensures AllPass(s, ok) <==> ok(s[0]) && AllPass(s[1..], ok)
  {
    assert forall i :: 1 <= i < |s| ==> s[i] == s[1..][i - 1];
  }

  lemma {:induction false} DistinctFirst<T>(s: seq<T>)
    requires s != []
    ensures Distinct(s) <==> s[0] !in s[1..] && Distinct(s[1..])
  {
    var t := s[1..];
    assert forall i :: 0 <= i < |t| ==> t[i] == s[i + 1];
    if s[0] !in t && Distinct(t) {
      forall i, j | 0 <= i < j < |s|
        ensures s[i] != s[j]
      {
        assert t[j - 1] == s[j] && t[j - 1] in t;
        if i > 0 {
          assert t[i - 1] == s[i];
        }
      }
    }
    if Distinct(s) {
      forall i, j | 0 <= i < j < |t|
        ensures t[i] != t[j]
      {
        assert s[i + 1] != s[j + 1];
      }
      forall j | 0 <= j < |t|
        ensures t[j] != s[0]
      {
        assert s[0] != s[j + 1];
      }
    }
  }

  /** The last entry comes to the front. */
  function Rotated<T>(s: seq<T>): seq<T> {
    if s == [] then [] else [s[|s| - 1]] + s[..|s| - 1]
  }

  lemma RotatedMore(s: seq<string>)
    requires s != []
    ensures Rotated(s) == WithUrl(Rotated(s[1..]), s[0])
  {
    if |s| > 1 {
      var r := Rotated(s[1..]);
      assert r[0] == s[|s| - 1] && r[1..] == s[1..][..|s| - 2] == s[1..|s| - 1];
      assert s[..|s| - 1] == [s[0]] + s[1..|s| - 1];
    }
  }

  ghost predicate AllEqual<T>(s: seq<T>) {
    forall i :: 0 <= i < |s| ==> s[i] == s[0]
  }

  lemma {:induction false} EqualTo<T>(s: seq<T>, i: nat)
    requires Rotated(s) == s && i < |s|
    ensures s[i] == s[0]
  {
    if i > 0 {
      assert Rotated(s)[i] == s[i - 1];
      EqualTo(s, i - 1);
    }
  }

  lemma {:induction false} RotatedSame<T>(s: seq<T>)
    ensures Rotated(s) == s <==> AllEqual(s)
  {
    if Rotated(s) == s {
      forall i | 0 <= i < |s|
        ensures s[i] == s[0]
      {
        EqualTo(s, i);
      }
    }
  }

  /** The program numbers its systems with one digit (os_dep.h, lines 45-53). */
  predicate Storable(a: Assoc) {
    0 <= a.system <= 9 && FullAssoc(a)
  }

  /** What is left of the lists when they are written and read. */
  function Reloaded(d: Stored): Stored {
    Stored(Kept(d.assocs, Storable, {}), Kept(d.exts, FullExt, {}), Rotated(d.blocks))
  }

  /** No association or extension has an empty field or a twin, and all blocked images are the same. */
  ghost predicate Survives(d: Stored) {
    && (forall i :: 0 <= i < |d.assocs| ==> d.assocs[i].name != "" && d.assocs[i].ct != "" && d.assocs[i].prog != "")
    && (forall i :: 0 <= i < |d.assocs| ==> 0 <= d.assocs[i].system <= 9)
    && (forall i :: 0 <= i < |d.exts| ==> d.exts[i].ext != "" && d.exts[i].ct != "")
    && Distinct(d.assocs) && Distinct(d.exts) && AllEqual(d.blocks)
  }

  /** The lists survive exactly if no entry has an empty field or a twin and all blocked images are the same. */
  lemma ReloadedSame(d: Stored)
    ensures Reloaded(d) == d <==> Survives(d)
  {
    KeptAll(d.assocs, Storable, {});
    KeptAll(d.exts, FullExt, {});
    RotatedSame(d.blocks);
  }

  /** Associations and extensions that were read from a file stay as they are from then on. */
  lemma ReloadedTwice(d: Stored)
    ensures Reloaded(Reloaded(d)) == Reloaded(d).(blocks := Rotated(Rotated(d.blocks)))
  {
    var e := Reloaded(d);
    KeptDistinct(d.assocs, Storable, {});
    KeptDistinct(d.exts, FullExt, {});
    KeptAll(e.assocs, Storable, {});
    KeptAll(e.exts, FullExt, {});
  }

  /** The order of the blocked images changes, but not what they block. */
  lemma {:induction false} SameUrlsBlocked(url: string, blocks: seq<string>)
    ensures (exists b :: b in Rotated(blocks) && Glob.Matches(url, b)) <==> (exists b :: b in blocks && Glob.Matches(url, b))
  {
    forall b
      ensures b in Rotated(blocks) <==> b in blocks
    {
      if blocks != [] {
        var n := |blocks| - 1;
        assert blocks == blocks[..n] + [blocks[n]];
      }
    }
  }

  ghost predicate Numbered(assocs: seq<Assoc>) {
    forall i :: 0 <= i < |assocs| ==> 0 <= assocs[i].system <= 9
  }

  lemma {:induction false} RemovedIn<T>(s: seq<T>, x: T, y: T)
    ensures y in RemoveFirst(s, x) ==> y in s
  {
    if s != [] && s[0] != x {
      RemovedIn(s[1..], x, y);
    }
  }

  /** Whatever is in a file, the associations read from it have numbers that can be written. */
  lemma {:induction false} LoadNumbered(d: Stored, settings: seq<Setting>)
    requires Numbered(d.assocs)
    ensures Numbered(Load(d, settings).assocs)
    decreases |settings|
  {
    if settings != [] {
      var next := LoadNext(d, settings[0]);
      var a := ReadAssoc(settings[0].value);
      forall i | 0 <= i < |next.assocs|
        ensures 0 <= next.assocs[i].system <= 9
      {
        if next.assocs != d.assocs && i > 0 {
          assert next.assocs[i] in RemoveFirst(d.assocs, a.value);
          RemovedIn(d.assocs, a.value, next.assocs[i]);
        }
      }
      LoadNumbered(next, settings[1..]);
    }
  }

  // ----- Writing and reading -----

  /** Letters of the names of options may be large or small. */
  lemma LetterCase(i: nat, c: char)
    ensures i < 26 ==> LowerCase("ABCDEFGHIJKLMNOPQRSTUVWXYZ"[i]) == "abcdefghijklmnopqrstuvwxyz"[i]
    ensures !('A' <= c <= 'Z') ==> LowerCase(c) == c
  {
  }

  lemma NamesDiffer()
    ensures SameName("association", "association") && SameName("extension", "extension") && SameName("imageblock", "imageblock")
    ensures !SameName("extension", "association") && !SameName("imageblock", "association") && !SameName("imageblock", "extension")
  {
    assert |"extension"| == 9 && |"association"| == 11 && |"imageblock"| == 10;
  }

  lemma LoadAssoc(d: Stored, a: Assoc)
    ensures LoadNext(d, Setting("association", WriteAssoc(a))) == d.(assocs := Updated(d.assocs, a, Storable(a)))
  {
    NamesDiffer();
    AssocBack(a);
  }

  lemma LoadExt(d: Stored, e: Ext)
    ensures LoadNext(d, Setting("extension", WriteExt(e))) == d.(exts := Updated(d.exts, e, FullExt(e)))
  {
    NamesDiffer();
    ExtBack(e);
  }

  lemma LoadBlock(d: Stored, url: string)
    ensures LoadNext(d, Setting("imageblock", Quoted(url))) == d.(blocks := WithUrl(d.blocks, url))
  {
    NamesDiffer();
    BlockBack(url);
  }

  lemma AssocLinesMore(assocs: seq<Assoc>)
    requires assocs != []
    ensures AssocLines(assocs) == AssocLines(assocs[1..]) + [Setting("association", WriteAssoc(assocs[0]))]
  {
  }

  lemma ExtLinesMore(exts: seq<Ext>)
    requires exts != []
    ensures ExtLines(exts) == ExtLines(exts[1..]) + [Setting("extension", WriteExt(exts[0]))]
  {
  }

  lemma BlockLinesMore(blocks: seq<string>)
    requires blocks != []
    ensures BlockLines(blocks) == BlockLines(blocks[1..]) + [Setting("imageblock", Quoted(blocks[0]))]
  {
  }

  lemma {:induction false} LoadAssocs(d: Stored, assocs: seq<Assoc>)
    requires d.assocs == []
    ensures Load(d, AssocLines(assocs)) == d.(assocs := Kept(assocs, Storable, {}))
    decreases |assocs|
  {
    if assocs != [] {
      AssocLinesMore(assocs);
      LoadSnoc(d, AssocLines(assocs[1..]), Setting("association", WriteAssoc(assocs[0])));
      LoadAssocs(d, assocs[1..]);
      LoadAssoc(d.(assocs := Kept(assocs[1..], Storable, {})), assocs[0]);
      UpdatedKept(assocs, Storable);
    }
  }

  lemma {:induction false} LoadExts(d: Stored, exts: seq<Ext>)
    requires d.exts == []
    ensures Load(d, ExtLines(exts)) == d.(exts := Kept(exts, FullExt, {}))
    decreases |exts|
  {
    if exts != [] {
      ExtLinesMore(exts);
      LoadSnoc(d, ExtLines(exts[1..]), Setting("extension", WriteExt(exts[0])));
      LoadExts(d, exts[1..]);
      LoadExt(d.(exts := Kept(exts[1..], FullExt, {})), exts[0]);
      UpdatedKept(exts, FullExt);
    }
  }

  lemma {:induction false} LoadBlocks(d: Stored, blocks: seq<string>)
    requires d.blocks == []
    ensures Load(d, BlockLines(blocks)) == d.(blocks := Rotated(blocks))
    decreases |blocks|
  {
    if blocks != [] {
      BlockLinesMore(blocks);
      LoadSnoc(d, BlockLines(blocks[1..]), Setting("imageblock", Quoted(blocks[0])));
      LoadBlocks(d, blocks[1..]);
      LoadBlock(d.(blocks := Rotated(blocks[1..])), blocks[0]);
      RotatedMore(blocks);
    }
  }

  /** The lines of the three lists are loaded as what is left of them. */
  lemma LoadStored(d: Stored)
    ensures Load(NOTHING, StoredLines(d)) == Reloaded(d)
  {
    var e := Reloaded(d);
    LoadConcat(NOTHING, AssocLines(d.assocs) + ExtLines(d.exts), BlockLines(d.blocks));
    LoadConcat(NOTHING, AssocLines(d.assocs), ExtLines(d.exts));
    LoadAssocs(NOTHING, d.assocs);
    LoadExts(NOTHING.(assocs := e.assocs), d.exts);
    LoadBlocks(NOTHING.(assocs := e.assocs, exts := e.exts), d.blocks);
  }

  predicate OneLine(s: string) {
    forall i :: 0 <= i < |s| ==> !IsNewline(s[i])
  }

  lemma {:induction false} EscapedOneLine(q: string)
    requires OneLine(q)
    ensures OneLine(Escaped(q))
  {
    if q != "" {
      EscapedOneLine(q[1..]);
    }
  }

  lemma QuotedOneLine(q: string)
    requires OneLine(q)
    ensures OneLine(Quoted(q))
  {
    EscapedOneLine(q);
  }

  lemma OneLineConcat(s: string, t: string)
    requires OneLine(s) && OneLine(t)
    ensures OneLine(s + t)
  {
  }

  /** No field of the lists has a newline. */
  ghost predicate Plain(d: Stored) {
    && (forall i :: 0 <= i < |d.assocs| ==> OneLine(d.assocs[i].name) && OneLine(d.assocs[i].ct) && OneLine(d.assocs[i].prog))
    && (forall i :: 0 <= i < |d.exts| ==> OneLine(d.exts[i].ext) && OneLine(d.exts[i].ct))
    && (forall i :: 0 <= i < |d.blocks| ==> OneLine(d.blocks[i]))
  }

  lemma AssocOneLine(a: Assoc)
    requires OneLine(a.name) && OneLine(a.ct) && OneLine(a.prog)
    ensures OneLine(WriteAssoc(a)) && WriteAssoc(a)[0] == '"'
  {
    QuotedOneLine(a.name);
    QuotedOneLine(a.ct);
    QuotedOneLine(a.prog);
    DecimalBare(Flags(a));
    DecimalBare(a.system);
    var r1 := Decimal(Flags(a)) + (" " + Decimal(a.system));
    OneLineConcat(Decimal(Flags(a)), " " + Decimal(a.system));
    OneLineConcat(Quoted(a.prog), " " + r1);
    OneLineConcat(Quoted(a.ct), " " + (Quoted(a.prog) + (" " + r1)));
    OneLineConcat(Quoted(a.name), " " + (Quoted(a.ct) + (" " + (Quoted(a.prog) + (" " + r1)))));
  }

  lemma NamesBare()
    ensures Bare("association") && Bare("extension") && Bare("imageblock")
    ensures forall i :: 0 <= i < 11 ==> "association"[i] > ' '
    ensures forall i :: 0 <= i < 9 ==> "extension"[i] > ' '
    ensures forall i :: 0 <= i < 10 ==> "imageblock"[i] > ' '
  {
  }

  lemma AssocWritable(a: Assoc)
    requires OneLine(a.name) && OneLine(a.ct) && OneLine(a.prog)
    ensures Writable(Setting("association", WriteAssoc(a)))
  {
    NamesBare();
    AssocOneLine(a);
  }

  lemma ExtWritable(e: Ext)
    requires OneLine(e.ext) && OneLine(e.ct)
    ensures Writable(Setting("extension", WriteExt(e)))
  {
    NamesBare();
    QuotedOneLine(e.ext);
    QuotedOneLine(e.ct);
    OneLineConcat(Quoted(e.ext), " " + Quoted(e.ct));
  }

  lemma BlockWritable(url: string)
    requires OneLine(url)
    ensures Writable(Setting("imageblock", Quoted(url)))
  {
    NamesBare();
    QuotedOneLine(url);
  }

  ghost predicate AllWritable(settings: seq<Setting>) {
    forall i :: 0 <= i < |settings| ==> Writable(settings[i])
  }

  lemma AssocsWritable(d: Stored)
    requires Plain(d)
    ensures AllWritable(AssocLines(d.assocs))
  {
    forall i | 0 <= i < |d.assocs|
      ensures Writable(AssocLines(d.assocs)[i])
    {
      AssocWritable(d.assocs[|d.assocs| - 1 - i]);
    }
  }

  lemma ExtsWritable(d: Stored)
    requires Plain(d)
    ensures AllWritable(ExtLines(d.exts))
  {
    forall i | 0 <= i < |d.exts|
      ensures Writable(ExtLines(d.exts)[i])
    {
      ExtWritable(d.exts[|d.exts| - 1 - i]);
    }
  }

  lemma BlocksWritable(d: Stored)
    requires Plain(d)
    ensures AllWritable(BlockLines(d.blocks))
  {
    forall i | 0 <= i < |d.blocks|
      ensures Writable(BlockLines(d.blocks)[i])
    {
      BlockWritable(d.blocks[|d.blocks| - 1 - i]);
    }
  }

  lemma AllWritableConcat(s: seq<Setting>, t: seq<Setting>)
    requires AllWritable(s) && AllWritable(t)
    ensures AllWritable(s + t)
  {
  }

  lemma StoredWritable(d: Stored)
    requires Plain(d)
    ensures AllWritable(StoredLines(d))
  {
    AssocsWritable(d);
    ExtsWritable(d);
    BlocksWritable(d);
    AllWritableConcat(AssocLines(d.assocs), ExtLines(d.exts));
    AllWritableConcat(AssocLines(d.assocs) + ExtLines(d.exts), BlockLines(d.blocks));
  }

  /** The lists after they were written to a file and read from it, by a program that had none. */
  function AfterFile(notice: string, d: Stored, nl: string): Stored {
    Load(NOTHING, ReadConfig(Written(notice, StoredLines(d), nl)))
  }

  /**
   * Of lists whose fields have no newline, associations and extensions come back without those that have
   * an empty field and without repetitions, and blocked images with the last one in front. So the lists
   * are unchanged exactly if there is nothing of this to do.
   */
  lemma FileBack(notice: string, d: Stored, nl: string)
    requires IsNl(nl) && IsNotice(notice) && Plain(d)
    ensures AfterFile(notice, d, nl) == Reloaded(d)
    ensures AfterFile(notice, d, nl) == d <==> Survives(d)
  {
    StoredWritable(d);
    ConfigRead(notice, StoredLines(d), nl);
    LoadStored(d);
    ReloadedSame(d);
  }

  /** Two blocked images change places with every start of the program. */
  lemma TwoUrlsSwapped(notice: string, u: string, v: string, nl: string)
    requires IsNl(nl) && IsNotice(notice) && OneLine(u) && OneLine(v)
    ensures AfterFile(notice, Stored([], [], [u, v]), nl) == Stored([], [], [v, u])
  {
    FileBack(notice, Stored([], [], [u, v]), nl);
    assert [u, v][..1] == [u];
  }
}
