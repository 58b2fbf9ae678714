/** The sorted map of physical memory (kernel/src/memory/memmap.c) as sequences of
    entries: what a list of entries means, what one definition should make of it, and
    the shortest list of a meaning.  Module MemoryMapCode ties the code to this. */
module MemoryMap {
  import opened Basics

  /** memmap_region_type_t */
  datatype Kind = Dead | Reserved | Hardware | Bios | Acpi | Software | Allocatable | Free

  newtype u64 = x: int | 0 <= x < 0x1_0000_0000_0000_0000

  datatype Entry = Entry(base: u64, size: u64, kind: Kind) {
    function End(): int {
      base as int + size as int
    }

    predicate Covers(a: int) {
      base as int <= a < End()
    }

    /** Not empty, and its end is still a 64-bit number. */
    predicate Proper() {
      0 < size && End() < 0x1_0000_0000_0000_0000
    }
  }

  /** The invariant of the map: ascending, disjoint, proper entries. */
  ghost predicate Sorted(s: seq<Entry>) {
    && (forall i :: 0 <= i < |s| ==> s[i].Proper())
    && (forall i, j :: 0 <= i < j < |s| ==> s[i].End() <= s[j].base as int)
  }

  /** What a map says about an address. */
  function TypeAt(s: seq<Entry>, a: int): Option<Kind> {
    if s == [] then None else if s[0].Covers(a) then Some(s[0].kind) else TypeAt(s[1..], a)
  }

  lemma {:induction false} TypeAtIndex(s: seq<Entry>, a: int, i: nat)
    requires Sorted(s) && i < |s| && s[i].Covers(a)
    ensures TypeAt(s, a) == Some(s[i].kind)
  {
    if i > 0 {
      assert s[0].End() <= s[i].base as int;
      TypeAtIndex(s[1..], a, i - 1);
    }
  }

  lemma {:induction false} TypeAtNowhere(s: seq<Entry>, a: int)
    ensures TypeAt(s, a) == None <==> forall i :: 0 <= i < |s| ==> !s[i].Covers(a)
  {
    if s != [] {
      TypeAtNowhere(s[1..], a);
      assert forall i :: 0 < i < |s| ==> s[i] == s[1..][i - 1];
    }
  }

  lemma {:induction false} TypeAtConcat(s: seq<Entry>, t: seq<Entry>, a: int)
    ensures TypeAt(s + t, a) == if TypeAt(s, a).Some? then TypeAt(s, a) else TypeAt(t, a)
  {
    if s == [] {
      assert s + t == t;
    } else {
      assert (s + t)[1..] == s[1..] + t;
      TypeAtConcat(s[1..], t, a);
    }
  }

  // ----- one definition: keep what lies below, then the new entry, then what lies above

  function CutAbove(e: Entry, at: u64): Entry
    requires e.base < at
  {
    if e.End() <= at as int then e else Entry(e.base, at - e.base, e.kind)
  }

  function CutBelow(e: Entry, at: u64): Entry
    requires at as int < e.End() && e.Proper()
  {
    if at <= e.base then e else Entry(at, (e.End() - at as int) as u64, e.kind)
  }

  /** The parts of the entries that lie below an address. */
  function Below(s: seq<Entry>, at: u64): seq<Entry> {
    if s == [] then []
    else (if s[0].base < at then [CutAbove(s[0], at)] else []) + Below(s[1..], at)
  }

  /** The parts of the entries that lie at an address or above it. */
  function From(s: seq<Entry>, at: u64): seq<Entry>
    requires forall i :: 0 <= i < |s| ==> s[i].Proper()
  {
    if s == [] then []
    else (if at as int < s[0].End() then [CutBelow(s[0], at)] else []) + From(s[1..], at)
  }

  /** What defining the entry e should make of the map. */
  function Redefine(s: seq<Entry>, e: Entry): seq<Entry>
    requires Sorted(s) && e.Proper()
  {
    Below(s, e.base) + [e] + From(s, e.End() as u64)
  }

  lemma {:induction false} BelowTypes(s: seq<Entry>, at: u64, a: int)
    ensures TypeAt(Below(s, at), a) == if a < at as int then TypeAt(s, a) else None
  {
    if s != [] {
      BelowTypes(s[1..], at, a);
      TypeAtConcat(if s[0].base < at then [CutAbove(s[0], at)] else [], Below(s[1..], at), a);
    }
  }

  lemma {:induction false} FromTypes(s: seq<Entry>, at: u64, a: int)
    requires forall i :: 0 <= i < |s| ==> s[i].Proper()
    ensures TypeAt(From(s, at), a) == if a < at as int then None else TypeAt(s, a)
  {
    if s != [] {
      FromTypes(s[1..], at, a);
      TypeAtConcat(if at as int < s[0].End() then [CutBelow(s[0], at)] else [], From(s[1..], at), a);
    }
  }

  /** A definition gives its range the new type and leaves every other address alone. */
  lemma RedefineTypes(s: seq<Entry>, e: Entry, a: int)
    requires Sorted(s) && e.Proper()
    ensures TypeAt(Redefine(s, e), a) == if e.Covers(a) then Some(e.kind) else TypeAt(s, a)
  {
    var low, high := Below(s, e.base), From(s, e.End() as u64);
    BelowTypes(s, e.base, a);
    FromTypes(s, e.End() as u64, a);
    TypeAtConcat(low + [e], high, a);
    TypeAtConcat(low, [e], a);
  }

  lemma {:induction false} BelowSorted(s: seq<Entry>, at: u64, low: int)
    requires Sorted(s) && forall i :: 0 <= i < |s| ==> low <= s[i].base as int
    ensures Sorted(Below(s, at))
    ensures forall i :: 0 <= i < |Below(s, at)| ==>
              low <= Below(s, at)[i].base as int && Below(s, at)[i].End() <= at as int
  {
    if s != [] {
      BelowSorted(s[1..], at, s[0].End());
    }
  }

  lemma {:induction false} FromSorted(s: seq<Entry>, at: u64, low: int)
    requires Sorted(s) && forall i :: 0 <= i < |s| ==> low <= s[i].base as int
    ensures Sorted(From(s, at))
    ensures forall i :: 0 <= i < |From(s, at)| ==> low <= From(s, at)[i].base as int && at <= From(s, at)[i].base
  {
    if s != [] {
      FromSorted(s[1..], at, s[0].End());
    }
  }

  /** A definition keeps the map sorted and makes it at most two entries longer. */
  lemma RedefineSorted(s: seq<Entry>, e: Entry)
    requires Sorted(s) && e.Proper()
    ensures Sorted(Redefine(s, e))
    ensures |Redefine(s, e)| <= |s| + 2
  {
    BelowSorted(s, e.base, 0);
    FromSorted(s, e.End() as u64, 0);
    PartsBound(s, e.base, e.End() as u64);
  }

  /** Only one entry can have parts on both sides. */
  lemma {:induction false} PartsBound(s: seq<Entry>, at: u64, to: u64)
    requires Sorted(s) && at < to
    ensures |Below(s, at)| + |From(s, to)| <= |s| + 1
    ensures (forall i :: 0 <= i < |s| ==> at <= s[i].base || s[i].End() <= to as int) ==>
              |Below(s, at)| + |From(s, to)| <= |s|
  {
    if s != [] {
      PartsBound(s[1..], at, to);
      if s[0].base < at && (to as int) < s[0].End() {
        assert forall i :: 0 <= i < |s[1..]| ==> at <= s[1..][i].base;
      }
    }
  }

  // ----- the parts as slices

  lemma {:induction false} BelowSlice(s: seq<Entry>, at: u64, k: nat)
    requires k <= |s|
    requires forall i :: 0 <= i < k ==> s[i].base < at && s[i].End() <= at as int
    requires forall i :: k <= i < |s| ==> at <= s[i].base
    ensures Below(s, at) == s[..k]
  {
    if s != [] {
      BelowSlice(s[1..], at, if k > 0 then k - 1 else 0);
      if k > 0 {
        assert s[..k] == [s[0]] + s[1..][..k - 1];
      }
    }
  }

  lemma {:induction false} BelowSliceCut(s: seq<Entry>, at: u64, k: nat)
    requires k < |s| && s[k].base < at
    requires forall i :: 0 <= i < k ==> s[i].base < at && s[i].End() <= at as int
    requires forall i :: k < i < |s| ==> at <= s[i].base
    ensures Below(s, at) == s[..k] + [CutAbove(s[k], at)]
  {
    if k == 0 {
      BelowSlice(s[1..], at, 0);
    } else {
      BelowSliceCut(s[1..], at, k - 1);
      assert s[..k] == [s[0]] + s[1..][..k - 1];
    }
  }

  lemma {:induction false} FromSlice(s: seq<Entry>, at: u64, k: nat)
    requires forall i :: 0 <= i < |s| ==> s[i].Proper()
    requires k <= |s|
    requires forall i :: 0 <= i < k ==> s[i].End() <= at as int
    requires forall i :: k <= i < |s| ==> at <= s[i].base
    ensures From(s, at) == s[k..]
  {
    if s != [] {
      FromSlice(s[1..], at, if k > 0 then k - 1 else 0);
      if k > 0 {
        assert s[k..] == s[1..][k - 1..];
      } else {
        assert s[k..] == [s[0]] + s[1..];
      }
    }
  }

  lemma {:induction false} FromSliceCut(s: seq<Entry>, at: u64, k: nat)
    requires forall i :: 0 <= i < |s| ==> s[i].Proper()
    requires k < |s| && at as int < s[k].End()
    requires forall i :: 0 <= i < k ==> s[i].End() <= at as int
    requires forall i :: k < i < |s| ==> at <= s[i].base
    ensures From(s, at) == [CutBelow(s[k], at)] + s[k + 1..]
  {
    if k == 0 {
      FromSlice(s[1..], at, 0);
    } else {
      FromSliceCut(s[1..], at, k - 1);
      assert s[k + 1..] == s[1..][k..];
    }
  }

  // ----- what memmap_define makes of a map

  lemma InOrder(s: seq<Entry>, i: nat, j: nat)
    requires Sorted(s) && i < j < |s|
    ensures s[i].Proper() && s[j].Proper() && s[i].End() <= s[j].base as int
  {
  }

  /** The index of the first entry that starts above an address. */
  function FirstAfter(s: seq<Entry>, a: int): (k: nat)
    ensures k <= |s|
    ensures forall i :: 0 <= i < k ==> s[i].base as int <= a
    ensures k < |s| ==> a < s[k].base as int
  {
    if s == [] || a < s[0].base as int then 0
    else
      var k := FirstAfter(s[1..], a) + 1;
      assert forall i :: 0 < i < k ==> s[i] == s[1..][i - 1];
      k
  }

  predicate InSome(s: seq<Entry>, a: int) {
    TypeAt(s, a).Some?
  }

  /** The new range starts inside an entry and ends in a gap, and further entries start
      inside it: the guards of memmap.c:246 and 250. */
  predicate EndsInGapPastEntries(s: seq<Entry>, e: Entry) {
    && InSome(s, e.base as int) && !InSome(s, e.End() - 1)
    && FirstAfter(s, e.base as int) < |s|
    && s[FirstAfter(s, e.base as int)].base as int < e.End()
  }

  /** memmap_define as written: in that one case line 251 starts one entry too late, so
      the first entry that the new range covers stays behind it. */
  function Defined(s: seq<Entry>, e: Entry): seq<Entry>
    requires Sorted(s) && e.Proper()
  {
    if EndsInGapPastEntries(s, e) then
      Below(s, e.base) + [e] + [s[FirstAfter(s, e.base as int)]] + From(s, e.End() as u64)
    else Redefine(s, e)
  }

  /** memmap_define keeps the map sorted and disjoint if and only if the new range does
      not run from inside an entry past others into a gap. */
  lemma DefinedIsSorted(s: seq<Entry>, e: Entry)
    requires Sorted(s) && e.Proper()
    ensures Sorted(Defined(s, e)) <==> !EndsInGapPastEntries(s, e)
  {
    if EndsInGapPastEntries(s, e) {
      var k := |Below(s, e.base)|;
      assert Defined(s, e)[k] == e && Defined(s, e)[k + 1] == s[FirstAfter(s, e.base as int)];
    } else {
      RedefineSorted(s, e);
    }
  }

  /** In that case as well, the first entry that covers an address gives its range the new type and
      leaves every other address alone. */
  lemma DefinedTypes(s: seq<Entry>, e: Entry, a: int)
    requires Sorted(s) && e.Proper()
    ensures TypeAt(Defined(s, e), a) == if e.Covers(a) then Some(e.kind) else TypeAt(s, a)
  {
    RedefineTypes(s, e, a);
    if EndsInGapPastEntries(s, e) {
      var low, high, stale := Below(s, e.base), From(s, e.End() as u64), s[FirstAfter(s, e.base as int)];
      StaleIsCovered(s, e);
      TypeAtConcat(low + [e] + [stale], high, a);
      TypeAtConcat(low + [e], [stale], a);
      TypeAtConcat(low, [e], a);
      TypeAtConcat(low + [e], high, a);
    }
  }

  /** The entry that stays behind lies inside the new range. */
  lemma StaleIsCovered(s: seq<Entry>, e: Entry)
    requires Sorted(s) && e.Proper() && EndsInGapPastEntries(s, e)
    ensures var stale := s[FirstAfter(s, e.base as int)]; e.base < stale.base && stale.End() < e.End()
  {
    var k := FirstAfter(s, e.base as int);
    TypeAtNowhere(s, e.End() - 1);
    assert !s[k].Covers(e.End() - 1);
  }

  /** g is what is left of f. */
  predicate IsPart(g: Entry, f: Entry) {
    f.base <= g.base && g.End() <= f.End() && g.kind == f.kind
  }

  /** The new entry is there, all entries outside its range stay, and everything else is a part of
      an entry there was. */
  ghost predicate KeepsRest(s: seq<Entry>, e: Entry, t: seq<Entry>) {
    && e in t
    && (forall f :: f in s && (f.End() <= e.base as int || e.End() <= f.base as int) ==> f in t)
    && forall g :: g in t && g != e ==> exists f :: f in s && IsPart(g, f)
  }

  lemma {:induction false} BelowKeeps(s: seq<Entry>, at: u64)
    requires forall i :: 0 <= i < |s| ==> s[i].Proper()
    ensures forall f :: f in s && f.End() <= at as int ==> f in Below(s, at)
    ensures forall g :: g in Below(s, at) ==> exists f :: f in s && IsPart(g, f)
  {
    if s != [] {
      BelowKeeps(s[1..], at);
      assert s == [s[0]] + s[1..];
      if s[0].base < at {
        assert IsPart(CutAbove(s[0], at), s[0]) && s[0] in s;
      }
      forall g | g in Below(s[1..], at) ensures exists f :: f in s && IsPart(g, f) {
        var f :| f in s[1..] && IsPart(g, f);
        assert f in s;
      }
    }
  }

  lemma {:induction false} FromKeeps(s: seq<Entry>, at: u64)
    requires forall i :: 0 <= i < |s| ==> s[i].Proper()
    ensures forall f :: f in s && at <= f.base ==> f in From(s, at)
    ensures forall g :: g in From(s, at) ==> exists f :: f in s && IsPart(g, f)
  {
    if s != [] {
      FromKeeps(s[1..], at);
      assert s == [s[0]] + s[1..];
      if at as int < s[0].End() {
        assert IsPart(CutBelow(s[0], at), s[0]) && s[0] in s;
      }
      forall g | g in From(s[1..], at) ensures exists f :: f in s && IsPart(g, f) {
        var f :| f in s[1..] && IsPart(g, f);
        assert f in s;
      }
    }
  }

  lemma DefinedKeeps(s: seq<Entry>, e: Entry)
    requires Sorted(s) && e.Proper()
    ensures KeepsRest(s, e, Defined(s, e)) && |Defined(s, e)| <= |s| + 3
  {
    BelowKeeps(s, e.base);
    FromKeeps(s, e.End() as u64);
    PartsBound(s, e.base, e.End() as u64);
    if EndsInGapPastEntries(s, e) {
      var stale := s[FirstAfter(s, e.base as int)];
      assert stale in s && IsPart(stale, stale);
    }
  }

  /** The whole list where line 251 goes wrong: what is below, what is left of the entry with the
      base, the new entry, the first entry it covers, and what is above. */
  lemma DirtyList(s: seq<Entry>, e: Entry, b: nat, t: nat)
    requires Sorted(s) && e.Proper() && EndsInGapPastEntries(s, e)
    requires b < |s| && s[b].Covers(e.base as int)
    requires b < t <= |s| && (forall i :: 0 <= i < t ==> (s[i].base as int) < e.End())
    requires forall i :: t <= i < |s| ==> e.End() <= s[i].base as int
    ensures b + 1 < |s|
    ensures Defined(s, e) ==
              s[..b] + (if s[b].base < e.base then [Entry(s[b].base, e.base - s[b].base, s[b].kind)] else []) +
              [e, s[b + 1]] + s[t..]
  {
    hide Below, From, TypeAt;
    EntryAfter(s, e.base as int, b);
    BelowInside(s, e.base, b);
    TypeAtNowhere(s, e.End() - 1);
    forall i | 0 <= i < t ensures s[i].End() <= e.End() {
      assert !s[i].Covers(e.End() - 1);
    }
    FromSlice(s, e.End() as u64, t);
    assert s[b + 1] == s[FirstAfter(s, e.base as int)];
  }

  /** Behind the entry that contains an address, the next is the first to start above it. */
  lemma EntryAfter(s: seq<Entry>, a: int, b: nat)
    requires Sorted(s) && b < |s| && s[b].Covers(a)
    ensures FirstAfter(s, a) == b + 1
  {
    hide Sorted;
    var k := FirstAfter(s, a);
    if b + 1 < |s| {
      InOrder(s, b, b + 1);
    }
    if k < b {
      InOrder(s, k, b);
    }
  }

  /** The smallest case: [0, 10) and [12, 16) are free, and [5, 25) is defined. */
  lemma StaleEntryExample()
    ensures var s := [Entry(0, 10, Free), Entry(12, 4, Free)];
      var e := Entry(5, 20, Reserved);
      && Sorted(s) && e.Proper()
      && Defined(s, e) == [Entry(0, 5, Free), Entry(5, 20, Reserved), Entry(12, 4, Free)]
      && !Sorted(Defined(s, e))
  {
    var s := [Entry(0, 10, Free), Entry(12, 4, Free)];
    var e := Entry(5, 20, Reserved);
    assert Sorted(s) && s[1..] == [Entry(12, 4, Free)] && s[1..][1..] == [];
    assert TypeAt(s[1..], 24) == None;
    assert FirstAfter(s[1..], 5) == 0;
    assert Below(s[1..], 5) == [] && From(s[1..], 25) == [];
    assert EndsInGapPastEntries(s, e);
    DefinedIsSorted(s, e);
  }

  // ----- where the bounds of a new range fall

  /** `inside` is the entry that contains address a, if one does. */
  ghost predicate IsInside(s: seq<Entry>, a: int, inside: Option<nat>) {
    match inside
    case Some(i) => i < |s| && s[i].Covers(a)
    case None => forall i :: 0 <= i < |s| ==> !s[i].Covers(a)
  }

  /** `before` is the last entry that ends at a or below, if one does. */
  ghost predicate IsBefore(s: seq<Entry>, a: int, before: Option<nat>) {
    match before
    case Some(k) => k < |s| && s[k].End() <= a && forall i :: k < i < |s| ==> a < s[i].End()
    case None => forall i :: 0 <= i < |s| ==> a < s[i].End()
  }

  /** `after` is the first entry that starts above a, if one does. */
  ghost predicate IsAfter(s: seq<Entry>, a: int, after: Option<nat>) {
    match after
    case Some(k) => k < |s| && a < s[k].base as int && forall i :: 0 <= i < k ==> s[i].base as int <= a
    case None => forall i :: 0 <= i < |s| ==> s[i].base as int <= a
  }

  lemma InsideIff(s: seq<Entry>, a: int, inside: Option<nat>)
    requires IsInside(s, a, inside)
    ensures InSome(s, a) <==> inside.Some?
  {
    TypeAtNowhere(s, a);
  }

  /** The parts on either side when the bound falls into entry k ... */
  lemma BelowInside(s: seq<Entry>, at: u64, k: nat)
    requires Sorted(s) && k < |s| && s[k].Covers(at as int)
    ensures Below(s, at) ==
            s[..k] + if s[k].base < at then [Entry(s[k].base, at - s[k].base, s[k].kind)] else []
  {
    if s[k].base < at {
      BelowSliceCut(s, at, k);
    } else {
      BelowSlice(s, at, k);
    }
  }

  lemma FromInside(s: seq<Entry>, at: u64, k: nat)
    requires Sorted(s) && 0 < at && k < |s| && s[k].Covers(at as int - 1)
    ensures From(s, at) ==
            (if at as int < s[k].End() then [Entry(at, (s[k].End() - at as int) as u64, s[k].kind)] else []) +
            s[k + 1..]
  {
    if at as int < s[k].End() {
      FromSliceCut(s, at, k);
    } else {
      FromSlice(s, at, k + 1);
    }
  }

  /** ... and when it falls into a gap. */
  lemma BelowGap(s: seq<Entry>, at: u64, after: Option<nat>)
    requires Sorted(s) && IsInside(s, at as int, None) && IsAfter(s, at as int, after)
    ensures Below(s, at) == s[..if after.Some? then after.value else |s|]
  {
    BelowSlice(s, at, if after.Some? then after.value else |s|);
  }

  lemma FromGap(s: seq<Entry>, at: u64, before: Option<nat>)
    requires Sorted(s) && 0 < at && IsInside(s, at as int - 1, None) && IsBefore(s, at as int - 1, before)
    ensures From(s, at) == s[if before.Some? then before.value + 1 else 0..]
  {
    var k := if before.Some? then before.value + 1 else 0;
    forall i | 0 <= i < k ensures s[i].End() <= at as int - 1 {
      assert i < before.value ==> s[i].End() <= s[before.value].base as int;
    }
    FromSlice(s, at, k);
  }

  lemma FirstAfterIs(s: seq<Entry>, a: int, after: Option<nat>)
    requires IsAfter(s, a, after)
    ensures FirstAfter(s, a) == if after.Some? then after.value else |s|
  {
  }

  // ----- runs of definitions

  /** No definition of the run meets the case that goes wrong. */
  ghost predicate Clean(defs: seq<Entry>)
    decreases |defs|, 0
  {
    defs == [] ||
    (var n := |defs| - 1;
     Clean(defs[..n]) && defs[n].Proper() && !EndsInGapPastEntries(DefineAll(defs[..n]), defs[n]))
  }

  /** memmap_init and then one memmap_define after the other. */
  ghost function DefineAll(defs: seq<Entry>): (s: seq<Entry>)
    requires Clean(defs)
    ensures Sorted(s)
    ensures |s| <= if defs == [] then 0 else 2 * |defs| - 1
    decreases |defs|, 1
  {
    if defs == [] then []
    else
      var n := |defs| - 1;
      RedefineSorted(DefineAll(defs[..n]), defs[n]);
      Defined(DefineAll(defs[..n]), defs[n])
  }

  /** The type that the last definition covering an address gave it. */
  function LastDefined(defs: seq<Entry>, a: int): Option<Kind> {
    if defs == [] then None
    else
      var n := |defs| - 1;
      if defs[n].Covers(a) then Some(defs[n].kind) else LastDefined(defs[..n], a)
  }

  /** After any clean run every address has the type of the last definition that covers
      it, the map is sorted and disjoint, and it has at most 2k - 1 entries. */
  lemma {:induction false} LastDefinitionWins(defs: seq<Entry>, a: int)
    requires Clean(defs)
    ensures TypeAt(DefineAll(defs), a) == LastDefined(defs, a)
    ensures Sorted(DefineAll(defs)) && |DefineAll(defs)| <= if defs == [] then 0 else 2 * |defs| - 1
    decreases |defs|
  {
    if defs != [] {
      var n := |defs| - 1;
      LastDefinitionWins(defs[..n], a);
      RedefineTypes(DefineAll(defs[..n]), defs[n], a);
    }
  }

  /** A repair, not in the source: one definition after the other with line 251 starting at
      the first entry after the base. */
  function RedefineAll(defs: seq<Entry>): (s: seq<Entry>)
    requires forall i :: 0 <= i < |defs| ==> defs[i].Proper()
    ensures Sorted(s)
    ensures |s| <= if defs == [] then 0 else 2 * |defs| - 1
    decreases |defs|
  {
    if defs == [] then []
    else
      var n := |defs| - 1;
      RedefineSorted(RedefineAll(defs[..n]), defs[n]);
      Redefine(RedefineAll(defs[..n]), defs[n])
  }

  /** Repaired, the last definition wins over every run. */
  lemma {:induction false} LastRedefinitionWins(defs: seq<Entry>, a: int)
    requires forall i :: 0 <= i < |defs| ==> defs[i].Proper()
    ensures TypeAt(RedefineAll(defs), a) == LastDefined(defs, a)
    decreases |defs|
  {
    if defs != [] {
      var n := |defs| - 1;
      LastRedefinitionWins(defs[..n], a);
      RedefineTypes(RedefineAll(defs[..n]), defs[n], a);
    }
  }

  /** A clean run does what the repaired one does. */
  lemma {:induction false} CleanNeedsNoRepair(defs: seq<Entry>)
    requires Clean(defs)
    ensures forall i :: 0 <= i < |defs| ==> defs[i].Proper()
    ensures DefineAll(defs) == RedefineAll(defs)
    decreases |defs|
  {
    if defs != [] {
      CleanNeedsNoRepair(defs[..|defs| - 1]);
    }
  }

  // ----- the shortest map of a meaning (memmap_agregate)

  /** Two entries that memmap_agregate merges. */
  predicate Mergeable(e: Entry, f: Entry) {
    e.kind == f.kind && e.End() == f.base as int
  }

  function Merged(e: Entry, f: Entry): Entry
    requires e.Proper() && f.Proper() && e.End() <= f.base as int
  {
    Entry(e.base, (f.End() - e.base as int) as u64, e.kind)
  }

  function Aggregated(s: seq<Entry>): seq<Entry>
    requires Sorted(s)
    decreases |s|
  {
    if |s| <= 1 then s
    else if Mergeable(s[0], s[1]) then
      MergedSorted(s);
      Aggregated([Merged(s[0], s[1])] + s[2..])
    else [s[0]] + Aggregated(s[1..])
  }

  lemma MergedSorted(s: seq<Entry>)
    requires Sorted(s) && |s| >= 2 && Mergeable(s[0], s[1])
    ensures Sorted([Merged(s[0], s[1])] + s[2..])
  {
  }

  /** The first n entries touch one another and have one type. */
  ghost predicate Run(s: seq<Entry>, n: nat) {
    0 < n <= |s| && forall i :: 0 < i < n ==> Mergeable(s[i - 1], s[i])
  }

  function MergedRun(s: seq<Entry>, n: nat): Entry
    requires Sorted(s) && 0 < n <= |s|
  {
    assert n > 1 ==> s[0].End() <= s[n - 1].base as int;
    Entry(s[0].base, (s[n - 1].End() - s[0].base as int) as u64, s[0].kind)
  }

  lemma RunMerged(s: seq<Entry>, n: nat)
    requires Sorted(s) && Run(s, n) && n > 1 && Mergeable(s[0], s[1])
    ensures var t := [Merged(s[0], s[1])] + s[2..];
      && Sorted(t) && Run(t, n - 1) && MergedRun(t, n - 1) == MergedRun(s, n)
      && (n < |s| && !Mergeable(s[n - 1], s[n]) ==> !Mergeable(t[n - 2], t[n - 1]))
  {
    MergedSorted(s);
    var t := [Merged(s[0], s[1])] + s[2..];
    forall i | 0 < i < n - 1 ensures Mergeable(t[i - 1], t[i]) {
      assert Mergeable(s[i], s[i + 1]);
    }
  }

  /** A longest run at the front becomes one entry. */
  lemma {:induction false} AggregatedRun(s: seq<Entry>, n: nat)
    requires Sorted(s) && Run(s, n) && (n == |s| || !Mergeable(s[n - 1], s[n]))
    ensures Aggregated(s) == [MergedRun(s, n)] + Aggregated(s[n..])
    decreases n
  {
    if n > 1 {
      MergedSorted(s);
      var t := [Merged(s[0], s[1])] + s[2..];
      assert t[n - 1..] == s[n..];
      assert Mergeable(s[0], s[1]);
      RunMerged(s, n);
      AggregatedRun(t, n - 1);
    } else if |s| == 1 {
      assert s[1..] == [];
    }
  }

  /** No two neighbours could be merged. */
  ghost predicate Normal(s: seq<Entry>) {
    forall i :: 0 < i < |s| ==> !Mergeable(s[i - 1], s[i])
  }

  lemma {:induction false} AggregatedMeansTheSame(s: seq<Entry>, a: int)
    requires Sorted(s)
    ensures TypeAt(Aggregated(s), a) == TypeAt(s, a)
    decreases |s|
  {
    if |s| > 1 {
      if Mergeable(s[0], s[1]) {
        MergedSorted(s);
        var t := [Merged(s[0], s[1])] + s[2..];
        AggregatedMeansTheSame(t, a);
        assert t[1..] == s[2..] == s[1..][1..];
      } else {
        AggregatedMeansTheSame(s[1..], a);
        assert ([s[0]] + Aggregated(s[1..]))[1..] == Aggregated(s[1..]);
      }
    }
  }

  lemma Prepended(e: Entry, t: seq<Entry>)
    requires e.Proper() && Sorted(t) && Normal(t)
    requires t != [] ==> e.End() <= t[0].base as int && !Mergeable(e, t[0])
    ensures Sorted([e] + t) && Normal([e] + t)
  {
    forall i | 0 <= i < |t| ensures e.End() <= t[i].base as int {
      assert i > 0 ==> t[0].End() <= t[i].base as int;
    }
  }

  /** The aggregated map is sorted and normal, starts where the map started, and is no
      longer. */
  lemma {:induction false} AggregatedIsNormal(s: seq<Entry>)
    requires Sorted(s)
    ensures var t := Aggregated(s);
      && Sorted(t) && Normal(t) && |t| <= |s|
      && (s != [] ==> t != [] && t[0].base == s[0].base && t[0].kind == s[0].kind)
    decreases |s|
  {
    if |s| > 1 {
      if Mergeable(s[0], s[1]) {
        MergedSorted(s);
        AggregatedIsNormal([Merged(s[0], s[1])] + s[2..]);
      } else {
        var t := Aggregated(s[1..]);
        AggregatedIsNormal(s[1..]);
        Prepended(s[0], t);
      }
    }
  }

  ghost predicate SameMeaning(s: seq<Entry>, t: seq<Entry>) {
    forall a: int :: TypeAt(s, a) == TypeAt(t, a)
  }

  lemma NothingBeforeFirst(s: seq<Entry>, a: int)
    requires Sorted(s) && s != [] && a < s[0].base as int
    ensures TypeAt(s, a) == None
  {
    TypeAtNowhere(s, a);
  }

  /** The first entries of two normal maps of the same meaning end together. */
  lemma FirstEndsNoLater(s: seq<Entry>, t: seq<Entry>)
    requires Sorted(s) && Sorted(t) && Normal(s) && s != [] && t != []
    requires s[0].base == t[0].base && s[0].kind == t[0].kind && SameMeaning(s, t)
    ensures t[0].End() <= s[0].End()
  {
    var a := s[0].End();
    if a < t[0].End() {
      TypeAtIndex(t, a, 0);
      assert TypeAt(s, a) == Some(s[0].kind) == TypeAt(s[1..], a);
      TypeAtNowhere(s[1..], a);
    }
  }

  /** A normal map is determined by its meaning. */
  lemma {:induction false} NormalIsUnique(s: seq<Entry>, t: seq<Entry>)
    requires Sorted(s) && Sorted(t) && Normal(s) && Normal(t) && SameMeaning(s, t)
    ensures s == t
    decreases |s|
  {
    if s == [] || t == [] {
      if s != [] {
        TypeAtIndex(s, s[0].base as int, 0);
      }
      if t != [] {
        TypeAtIndex(t, t[0].base as int, 0);
      }
    } else {
      FirstsAgree(s, t);
      forall a: int ensures TypeAt(s[1..], a) == TypeAt(t[1..], a) {
        TailMeaning(s, a);
        TailMeaning(t, a);
        assert TypeAt(s, a) == TypeAt(t, a);
      }
      NormalIsUnique(s[1..], t[1..]);
    }
  }

  lemma FirstsAgree(s: seq<Entry>, t: seq<Entry>)
    requires Sorted(s) && Sorted(t) && Normal(s) && Normal(t) && SameMeaning(s, t) && s != [] && t != []
    ensures s[0] == t[0]
  {
    var a, b := s[0].base as int, t[0].base as int;
    TypeAtIndex(s, a, 0);
    TypeAtIndex(t, b, 0);
    if a < b {
      NothingBeforeFirst(t, a);
    } else if b < a {
      NothingBeforeFirst(s, b);
    }
    FirstEndsNoLater(s, t);
    FirstEndsNoLater(t, s);
  }

  lemma TailMeaning(s: seq<Entry>, a: int)
    requires Sorted(s) && s != []
    ensures TypeAt(s[1..], a) == if s[0].Covers(a) then None else TypeAt(s, a)
  {
    if s[0].Covers(a) {
      TypeAtNowhere(s[1..], a);
    }
  }

  /** memmap_agregate computes the one normal map of the meaning; doing it again changes
      nothing, and no sorted map of that meaning is shorter. */
  lemma AggregatedIsShortest(s: seq<Entry>, t: seq<Entry>)
    requires Sorted(s) && Sorted(t) && SameMeaning(s, t)
    ensures Aggregated(t) == Aggregated(s)
    ensures |Aggregated(s)| <= |t|
    ensures Normal(t) ==> t == Aggregated(s)
  {
    AggregatedIsNormal(s);
    AggregatedIsNormal(t);
    forall a: int ensures TypeAt(Aggregated(s), a) == TypeAt(Aggregated(t), a) &&
             TypeAt(Aggregated(s), a) == TypeAt(t, a) {
      AggregatedMeansTheSame(s, a);
      AggregatedMeansTheSame(t, a);
      assert TypeAt(s, a) == TypeAt(t, a);
    }
    NormalIsUnique(Aggregated(s), Aggregated(t));
    if Normal(t) {
      NormalIsUnique(t, Aggregated(s));
    }
  }

  lemma AggregatedTwice(s: seq<Entry>)
    requires Sorted(s)
    ensures Sorted(Aggregated(s)) && Aggregated(Aggregated(s)) == Aggregated(s)
  {
    AggregatedIsNormal(s);
    forall a: int ensures TypeAt(s, a) == TypeAt(Aggregated(s), a) {
      AggregatedMeansTheSame(s, a);
    }
    AggregatedIsShortest(s, Aggregated(s));
  }
}
