/** kernel/src/memory/memmap.c: the array of entries, edited in place. */
module MemoryMapCode {
  import opened Basics
  import opened MemoryMap

  /** MEMMAP_MAX_ENTRIES: 4096 bytes by 24 bytes an entry. */
  const MAX_ENTRIES: nat := 170

  lemma Halves<T>(s: seq<T>, t: seq<T>)
    ensures (s + t)[..|s|] == s && (s + t)[|s|..] == t
  {
  }

  // ----- what each branch of memmap_define has to leave

  lemma OutsideResult(s: seq<Entry>, e: Entry, bbefore: Option<nat>, bafter: Option<nat>, tbefore: Option<nat>)
    requires Sorted(s) && e.Proper() && s != []
    requires IsInside(s, e.base as int, None) && IsInside(s, e.End() - 1, None)
    requires IsBefore(s, e.base as int, bbefore) && IsAfter(s, e.base as int, bafter)
    requires IsBefore(s, e.End() - 1, tbefore)
    ensures bafter.Some? && tbefore.Some? && tbefore.value >= bafter.value ==>
              Defined(s, e) == s[..bafter.value] + [e] + s[tbefore.value + 1..]
    ensures bafter.Some? && !(tbefore.Some? && tbefore.value >= bafter.value) ==>
              Defined(s, e) == s[..bafter.value] + [e] + s[bafter.value..]
    ensures bafter.None? ==> bbefore == Some(|s| - 1) && Defined(s, e) == s[..|s|] + [e] + s[|s|..]
  {
    InsideIff(s, e.base as int, None);
    BelowGap(s, e.base, bafter);
    FromGap(s, e.End() as u64, tbefore);
    var k := if bafter.Some? then bafter.value else |s|;
    var t := if tbefore.Some? then tbefore.value + 1 else 0;
    if k > 0 {
      assert !s[k - 1].Covers(e.base as int);
      assert s[k - 1].End() <= e.base as int;
    }
    assert k <= t;
    if !(tbefore.Some? && tbefore.value >= k) {
      assert t == k;
    }
    if bafter.None? {
      assert t == |s|;
    }
  }

  /** What is left of an entry below and above the new one. */
  function LowOf(was: Entry, e: Entry): seq<Entry>
    requires was.Proper() && e.Proper()
  {
    if was.base < e.base then [Entry(was.base, e.base - was.base, was.kind)] else []
  }

  function HighOf(was: Entry, e: Entry): seq<Entry>
    requires was.Proper() && e.Proper()
  {
    if e.End() < was.End() then [Entry(e.End() as u64, (was.End() - e.End()) as u64, was.kind)] else []
  }

  lemma NoLow(s: seq<Entry>, was: Entry, e: Entry)
    requires was.Proper() && e.Proper() && e.base <= was.base
    ensures s + LowOf(was, e) == s
  {
  }

  lemma NoHigh(s: seq<Entry>, was: Entry, e: Entry)
    requires was.Proper() && e.Proper() && was.End() <= e.End()
    ensures HighOf(was, e) + s == s
  {
  }

  lemma InOneResult(s: seq<Entry>, e: Entry, bin: nat)
    requires Sorted(s) && e.Proper()
    requires IsInside(s, e.base as int, Some(bin)) && IsInside(s, e.End() - 1, Some(bin))
    ensures Defined(s, e) == s[..bin] + LowOf(s[bin], e) + [e] + (HighOf(s[bin], e) + s[bin + 1..])
  {
    InsideIff(s, e.End() - 1, Some(bin));
    BelowInside(s, e.base, bin);
    FromInside(s, e.End() as u64, bin);
  }

  lemma InsideOrder(s: seq<Entry>, e: Entry, bin: nat, tin: nat)
    requires Sorted(s) && e.Proper() && bin != tin
    requires IsInside(s, e.base as int, Some(bin)) && IsInside(s, e.End() - 1, Some(tin))
    ensures bin < tin
  {
  }

  lemma AcrossResult(s: seq<Entry>, e: Entry, bin: nat, tin: nat)
    requires Sorted(s) && e.Proper() && bin != tin
    requires IsInside(s, e.base as int, Some(bin)) && IsInside(s, e.End() - 1, Some(tin))
    ensures bin < tin
    ensures Defined(s, e) == s[..bin] + LowOf(s[bin], e) + [e] + (HighOf(s[tin], e) + s[tin + 1..])
  {
    InsideOrder(s, e, bin, tin);
    hide Sorted, InSome;
    InsideIff(s, e.End() - 1, Some(tin));
    BelowInside(s, e.base, bin);
    FromInside(s, e.End() as u64, tin);
  }

  /** What DropCovered leaves of the entries above bin. */
  function Kept(s: seq<Entry>, bin: nat, tbefore: nat): seq<Entry>
    requires bin <= tbefore < |s|
  {
    if tbefore != bin then [s[bin + 1]] + s[tbefore + 1..] else s[bin + 1..]
  }

  lemma FromInsideIndices(s: seq<Entry>, e: Entry, bin: nat, bafter: Option<nat>, tbefore: Option<nat>)
    requires Sorted(s) && e.Proper()
    requires IsInside(s, e.base as int, Some(bin)) && IsInside(s, e.End() - 1, None)
    requires IsAfter(s, e.base as int, bafter) && IsBefore(s, e.End() - 1, tbefore)
    ensures tbefore.Some? && bin <= tbefore.value < |s|
    ensures EndsInGapPastEntries(s, e) <==> tbefore.value != bin
    ensures tbefore.value != bin ==> bafter == Some(bin + 1) && FirstAfter(s, e.base as int) == bin + 1
  {
    hide Sorted, InSome, FirstAfter;
    InsideIff(s, e.base as int, Some(bin));
    InsideIff(s, e.End() - 1, None);
    FirstAfterIs(s, e.base as int, bafter);
    EntryAfter(s, e.base as int, bin);
    ProperAt(s, bin);
    assert s[bin].End() <= e.End() - 1;
    if tbefore.value != bin {
      EndsInOrder(s, bin + 1, tbefore.value);
    } else if bafter.Some? {
      assert e.End() - 1 < s[bafter.value].End();
    }
  }

  lemma ProperAt(s: seq<Entry>, i: nat)
    requires Sorted(s) && i < |s|
    ensures s[i].Proper()
  {
  }

  lemma EndsInOrder(s: seq<Entry>, i: nat, j: nat)
    requires Sorted(s) && i <= j < |s|
    ensures (s[i].base as int) < s[i].End() <= s[j].End()
  {
    ProperAt(s, i);
    if i < j {
      InOrder(s, i, j);
    }
  }

  lemma FromInsideResult(s: seq<Entry>, e: Entry, bin: nat, bafter: Option<nat>, tbefore: Option<nat>)
    requires Sorted(s) && e.Proper()
    requires IsInside(s, e.base as int, Some(bin)) && IsInside(s, e.End() - 1, None)
    requires IsAfter(s, e.base as int, bafter) && IsBefore(s, e.End() - 1, tbefore)
    ensures tbefore.Some? && bin <= tbefore.value < |s|
    ensures tbefore.value != bin ==> bafter == Some(bin + 1) && bin + 1 < |s|
    ensures Defined(s, e) == s[..bin] + LowOf(s[bin], e) + [e] + Kept(s, bin, tbefore.value)
  {
    FromInsideIndices(s, e, bin, bafter, tbefore);
    BelowInside(s, e.base, bin);
    FromGap(s, e.End() as u64, tbefore);
    hide IsAfter, IsBefore, Sorted;
    var low := s[..bin] + LowOf(s[bin], e) + [e];
    if tbefore.value != bin {
      assert low + [s[bin + 1]] + s[tbefore.value + 1..] == low + ([s[bin + 1]] + s[tbefore.value + 1..]);
    }
  }

  lemma IntoInsideResult(s: seq<Entry>, e: Entry, bafter: Option<nat>, tin: nat)
    requires Sorted(s) && e.Proper()
    requires IsInside(s, e.base as int, None) && IsInside(s, e.End() - 1, Some(tin))
    requires IsAfter(s, e.base as int, bafter)
    ensures bafter.Some? && bafter.value <= tin && s[tin].Proper()
    ensures Defined(s, e) == s[..bafter.value] + [e] + (HighOf(s[tin], e) + s[tin + 1..])
  {
    InsideIff(s, e.base as int, None);
    BelowGap(s, e.base, bafter);
    FromInside(s, e.End() as u64, tin);
    assert !s[tin].Covers(e.base as int);
  }

  lemma Dropped(s: seq<Entry>, k: nat, rest: seq<Entry>)
    requires k < |s|
    ensures var t := s[..k + 1] + rest; t[..k] == s[..k] && t[k] == s[k] && t[k + 1..] == rest
  {
  }

  /** One turn of the outer loop: the run has become one entry, at the place where the
      run began. */
  function AfterRun(t: seq<Entry>, i: nat, count: nat): seq<Entry>
    requires Sorted(t) && 0 < count && i + count <= |t|
  {
    t[..i] + [MergedRun(t[i..], count)] + t[i + count..]
  }

  lemma AfterRunSorted(t: seq<Entry>, i: nat, count: nat)
    requires Sorted(t) && 0 < count && i + count <= |t|
    ensures Sorted(AfterRun(t, i, count))
  {
    var m := MergedRun(t[i..], count);
    assert m.End() == t[i + count - 1].End() && m.base == t[i].base;
    assert i + count - 1 > i ==> t[i].End() <= t[i + count - 1].base as int;
    assert m.Proper();
  }

  lemma AfterRunSlices(t: seq<Entry>, i: nat, count: nat)
    requires Sorted(t) && 0 < count && i + count <= |t|
    ensures var after := AfterRun(t, i, count);
      && i < |after|
      && after[..i + 1] == t[..i] + [MergedRun(t[i..], count)] && after[i + 1..] == t[i + count..]
    ensures t[i..][count..] == t[i + count..]
    ensures count == 1 ==> AfterRun(t, i, count) == t
  {
    if count == 1 {
      assert MergedRun(t[i..], count) == t[i];
    }
  }

  lemma Associative<T>(a: seq<T>, b: seq<T>, c: seq<T>)
    ensures a + (b + c) == a + b + c
  {
  }

  /** The first i entries are done, the rest still to be aggregated. */
  function AggregatedFrom(t: seq<Entry>, i: nat): seq<Entry>
    requires Sorted(t) && i <= |t|
  {
    t[..i] + Aggregated(t[i..])
  }

  lemma AggregatedStart(t: seq<Entry>)
    requires Sorted(t)
    ensures AggregatedFrom(t, 0) == Aggregated(t)
  {
    assert t[0..] == t && t[..0] == [];
  }

  lemma AggregatedEnd(t: seq<Entry>)
    requires Sorted(t)
    ensures AggregatedFrom(t, |t|) == t
  {
    assert t[|t|..] == [];
  }

  lemma AggregateStep(t: seq<Entry>, i: nat, count: nat)
    requires Sorted(t) && 0 < count && i + count <= |t| && Run(t[i..], count)
    requires i + count == |t| || !Mergeable(t[i + count - 1], t[i + count])
    ensures var after := AfterRun(t, i, count);
      && Sorted(after) && i < |after|
      && AggregatedFrom(after, i + 1) == AggregatedFrom(t, i)
  {
    AfterRunSorted(t, i, count);
    AfterRunSlices(t, i, count);
    assert Sorted(t[i..]);
    assert Sorted(t[i + count..]);
    hide Sorted, Aggregated, Run, MergedRun, AfterRun;
    AggregatedRun(t[i..], count);
    Associative(t[..i], [MergedRun(t[i..], count)], Aggregated(t[i + count..]));
  }

  lemma KeptSlices(s: seq<Entry>, bin: nat, tbefore: nat)
    requires bin < tbefore < |s|
    ensures s[..bin + 2] + s[tbefore + 1..] == s[..bin + 1] + Kept(s, bin, tbefore)
  {
  }

  lemma Raised(s: seq<Entry>, k: nat, j: nat)
    requires k <= j < |s|
    ensures var t := s[..k] + s[j..]; t[..k] == s[..k] && t[k] == s[j] && t[k + 1..] == s[j + 1..]
  {
  }

  class MemMap {
    const slots: array<Entry>
    var entryCount: nat

    ghost predicate Valid()
      reads this
    {
      slots.Length == MAX_ENTRIES && entryCount <= MAX_ENTRIES
    }

    function Entries(): seq<Entry>
      requires Valid()
      reads this, slots
    {
      slots[..entryCount]
    }

    /** memmap_init */
    constructor ()
      ensures Valid() && Entries() == [] && fresh(slots)
    {
      slots := new Entry[MAX_ENTRIES](_ => Entry(0, 0, Dead));
      entryCount := 0;
    }

    /** memmap_insert: memmove shifts upwards from the far end. */
    method Insert(id: nat, entry: Entry)
      requires Valid() && id <= entryCount < MAX_ENTRIES
      modifies this`entryCount, slots
      ensures Valid()
      ensures Entries() == old(Entries())[..id] + [entry] + old(Entries())[id..]
    {
      var n := entryCount;
      for i := n downto id
        invariant entryCount == n
        invariant forall j :: 0 <= j < i ==> slots[j] == old(slots[j])
        invariant forall j :: i < j <= n ==> slots[j] == old(slots[j - 1])
      {
        slots[i + 1] := slots[i];
      }
      slots[id] := entry;
      entryCount := entryCount + 1;
    }

    /** memmap_remove, from first to last; nothing when last is first - 1. */
    method Remove(first: nat, last: int)
      requires Valid() && first <= last + 1 <= entryCount
      modifies this`entryCount, slots
      ensures Valid()
      ensures Entries() == old(Entries())[..first] + old(Entries())[last + 1..]
    {
      var n, gone := entryCount, last - first + 1;
      ghost var was := slots[..];
      for i := first to n - gone
        invariant entryCount == n && slots.Length == MAX_ENTRIES
        invariant forall j :: 0 <= j < first ==> slots[j] == was[j]
        invariant forall j :: first <= j < i ==> slots[j] == was[j + gone]
        invariant forall j :: i <= j < MAX_ENTRIES ==> slots[j] == was[j]
      {
        slots[i] := slots[i + gone];
      }
      entryCount := n - gone;
      assert old(Entries()) == was[..n];
      assert Entries()[..first] == was[..first];
      assert Entries()[first..] == was[..n][last + 1..];
    }

    /** memmap_merge */
    method Merge(first: nat, last: nat)
      requires Valid() && Sorted(Entries()) && first <= last < entryCount
      modifies this`entryCount, slots
      ensures Valid()
      ensures var s := old(Entries());
        Entries() == s[..first] +
                     [Entry(s[first].base, (s[last].End() - s[first].base as int) as u64, s[first].kind)] +
                     s[last + 1..]
    {
      var fentry, lentry := slots[first], slots[last];
      assert fentry == Entries()[first] && lentry == Entries()[last];
      assert first < last ==> fentry.End() <= lentry.base as int;
      Remove(first, last);
      Insert(first, Entry(fentry.base, (lentry.base + lentry.size) - fentry.base, fentry.kind));
    }

    /** memmap_split */
    method Split(id: nat, offset: u64, size: u64)
      requires Valid() && id < entryCount < MAX_ENTRIES
      requires Entries()[id].Proper() && offset as int + size as int <= Entries()[id].size as int
      modifies this`entryCount, slots
      ensures Valid()
      ensures var e := old(Entries()[id]);
        Entries() == old(Entries())[..id] +
                     (if 0 < offset then [Entry(e.base, offset, e.kind)] else []) +
                     (if offset as int + size as int < e.size as int
                      then [Entry(e.base + offset + size, e.size - offset - size, e.kind)] else []) +
                     old(Entries())[id + 1..]
    {
      var entry := slots[id];
      assert entry == Entries()[id];
      if offset == 0 && size == entry.size {
        Remove(id, id);
        return;
      }
      if offset == 0 {
        slots[id] := Entry(entry.base + size, entry.size - size, entry.kind);
        return;
      }
      if offset + size == entry.size {
        slots[id] := Entry(entry.base, entry.size - size, entry.kind);
        return;
      }
      slots[id] := Entry(entry.base, offset, entry.kind);
      Insert(id + 1, Entry(entry.base + offset + size, entry.size - offset - size, entry.kind));
    }

    /** memmap_cut_bottom */
    method CutBottom(id: nat, count: u64)
      requires Valid() && id < entryCount
      requires Entries()[id].Proper() && count <= Entries()[id].size
      modifies this`entryCount, slots
      ensures Valid()
      ensures var e := old(Entries()[id]);
        Entries() == old(Entries())[..id] +
                     (if count < e.size then [Entry(e.base + count, e.size - count, e.kind)] else []) +
                     old(Entries())[id + 1..]
    {
      var entry := slots[id];
      assert entry == Entries()[id];
      if entry.size == count {
        Remove(id, id);
        return;
      }
      slots[id] := Entry(entry.base + count, entry.size - count, entry.kind);
    }

    /** memmap_cut_top */
    method CutTop(id: nat, count: u64)
      requires Valid() && id < entryCount
      requires Entries()[id].Proper() && count <= Entries()[id].size
      modifies this`entryCount, slots
      ensures Valid()
      ensures var e := old(Entries()[id]);
        Entries() == old(Entries())[..id] +
                     (if count < e.size then [Entry(e.base, e.size - count, e.kind)] else []) +
                     old(Entries())[id + 1..]
    {
      var entry := slots[id];
      assert entry == Entries()[id];
      if entry.size == count {
        Remove(id, id);
        return;
      }
      slots[id] := Entry(entry.base, entry.size - count, entry.kind);
    }

    /** memmap_get_address_info: the first entry that contains the address, the last one
        that ends at or below it, and the first one that starts above it. */
    method AddressInfo(addr: u64) returns (inside: Option<nat>, before: Option<nat>, after: Option<nat>)
      requires Valid() && Sorted(Entries())
      ensures IsInside(Entries(), addr as int, inside)
      ensures IsBefore(Entries(), addr as int, before)
      ensures IsAfter(Entries(), addr as int, after)
    {
      inside := FindInside(addr);
      after := FindAfter(addr);
      before := FindBefore(addr);
    }

    method FindInside(addr: u64) returns (inside: Option<nat>)
      requires Valid() && Sorted(Entries())
      ensures IsInside(Entries(), addr as int, inside)
    {
      for i := 0 to entryCount
        invariant forall j :: 0 <= j < i ==> !slots[j].Covers(addr as int)
      {
        assert slots[i] == Entries()[i];
        if addr >= slots[i].base && addr < slots[i].base + slots[i].size {
          return Some(i);
        }
      }
      return None;
    }

    method FindAfter(addr: u64) returns (after: Option<nat>)
      requires Valid()
      ensures IsAfter(Entries(), addr as int, after)
    {
      for i := 0 to entryCount
        invariant forall j :: 0 <= j < i ==> slots[j].base <= addr
      {
        if slots[i].base > addr {
          return Some(i);
        }
      }
      return None;
    }

    method FindBefore(addr: u64) returns (before: Option<nat>)
      requires Valid() && Sorted(Entries())
      ensures IsBefore(Entries(), addr as int, before)
    {
      for i := entryCount downto 0
        invariant forall j :: i <= j < entryCount ==> addr as int < slots[j].End()
      {
        assert slots[i] == Entries()[i];
        if slots[i].base < addr && addr >= slots[i].base + slots[i].size {
          return Some(i);
        }
      }
      return None;
    }

    /** Overwrite one entry. */
    method Put(id: nat, e: Entry)
      requires Valid() && id < entryCount
      modifies slots
      ensures Valid()
      ensures Entries() == old(Entries())[..id] + [e] + old(Entries())[id + 1..]
    {
      slots[id] := e;
    }

    /** The new entry takes the upper part of entry k, or all of it. */
    method Overwrite(e: Entry, k: nat)
      requires Valid() && k < entryCount < MAX_ENTRIES && e.Proper()
      requires Entries()[k].Proper() && Entries()[k].Covers(e.base as int)
      modifies this`entryCount, slots
      ensures Valid()
      ensures var s := old(Entries()); Entries() == s[..k] + LowOf(s[k], e) + [e] + s[k + 1..]
    {
      ghost var s := Entries();
      var entry := slots[k];
      assert entry == s[k];
      if entry.base == e.base {
        Put(k, Entry(entry.base, e.size, e.kind));
        assert s[..k] + LowOf(s[k], e) == s[..k];
      } else {
        CutTop(k, entry.size - (e.base - entry.base));
        Halves(s[..k] + LowOf(s[k], e), s[k + 1..]);
        Insert(k + 1, e);
      }
    }

    /** The new entry takes the lower part of entry k, or all of it. */
    method Underwrite(e: Entry, k: nat)
      requires Valid() && k < entryCount < MAX_ENTRIES && e.Proper()
      requires Entries()[k].Proper() && Entries()[k].Covers(e.End() - 1)
      modifies this`entryCount, slots
      ensures Valid()
      ensures var s := old(Entries()); Entries() == s[..k] + [e] + (HighOf(s[k], e) + s[k + 1..])
    {
      ghost var s := Entries();
      var entry := slots[k];
      assert entry == s[k];
      if entry.base + entry.size == e.base + e.size {
        Put(k, Entry(e.base, e.size, e.kind));
        assert HighOf(s[k], e) + s[k + 1..] == s[k + 1..];
      } else {
        CutBottom(k, (e.base + e.size) - entry.base);
        assert Entries() == s[..k] + (HighOf(s[k], e) + s[k + 1..]);
        Halves(s[..k], HighOf(s[k], e) + s[k + 1..]);
        Insert(k, e);
      }
    }

    /** Remove a range of entries and put one in their place. */
    method Replace(first: nat, last: nat, e: Entry)
      requires Valid() && first <= last < entryCount
      modifies this`entryCount, slots
      ensures Valid()
      ensures Entries() == old(Entries())[..first] + [e] + old(Entries())[last + 1..]
    {
      ghost var s := Entries();
      Remove(first, last);
      Halves(s[..first], s[last + 1..]);
      Insert(first, e);
    }

    /** memmap.c:166-182: both bounds fall into gaps. */
    method DefineOutside(e: Entry, bbefore: Option<nat>, bafter: Option<nat>, tbefore: Option<nat>)
      requires Valid() && Sorted(Entries()) && e.Proper() && 0 < entryCount < MAX_ENTRIES
      requires IsInside(Entries(), e.base as int, None) && IsInside(Entries(), e.End() - 1, None)
      requires IsBefore(Entries(), e.base as int, bbefore) && IsAfter(Entries(), e.base as int, bafter)
      requires IsBefore(Entries(), e.End() - 1, tbefore)
      modifies this`entryCount, slots
      ensures Valid() && Entries() == Defined(old(Entries()), e)
    {
      hide Defined, Sorted;
      OutsideResult(Entries(), e, bbefore, bafter, tbefore);
      if bafter.Some? && tbefore.Some? && tbefore.value >= bafter.value {
        Replace(bafter.value, tbefore.value, e);
      } else if bafter.Some? {
        Insert(bafter.value, e);
      } else {
        Insert(bbefore.value + 1, e);
      }
    }

    /** memmap.c:185-212: both bounds fall into one entry. */
    method DefineInOne(e: Entry, bin: nat)
      requires Valid() && Sorted(Entries()) && e.Proper() && entryCount + 2 <= MAX_ENTRIES
      requires IsInside(Entries(), e.base as int, Some(bin)) && IsInside(Entries(), e.End() - 1, Some(bin))
      modifies this`entryCount, slots
      ensures Valid() && Entries() == Defined(old(Entries()), e)
    {
      ghost var s := Entries();
      InOneResult(s, e, bin);
      hide Defined, Sorted;
      var entry := slots[bin];
      assert entry == s[bin];
      if entry.base == e.base && entry.size == e.size {
        slots[bin] := Entry(slots[bin].base, slots[bin].size, e.kind);
        assert LowOf(s[bin], e) == [] && HighOf(s[bin], e) == [];
      } else if entry.base + entry.size == e.base + e.size {
        NoHigh(s[bin + 1..], s[bin], e);
        Overwrite(e, bin);
      } else if entry.base == e.base {
        NoLow(s[..bin], s[bin], e);
        Underwrite(e, bin);
      } else {
        SplitAndInsert(e, bin);
      }
    }

    method SplitAndInsert(e: Entry, bin: nat)
      requires Valid() && e.Proper() && entryCount + 2 <= MAX_ENTRIES
      requires bin < entryCount && Entries()[bin].Proper()
      requires Entries()[bin].base < e.base && e.End() < Entries()[bin].End()
      modifies this`entryCount, slots
      ensures Valid()
      ensures var s := old(Entries());
        Entries() == s[..bin] + LowOf(s[bin], e) + [e] + (HighOf(s[bin], e) + s[bin + 1..])
    {
      ghost var s := Entries();
      var entry := slots[bin];
      assert entry == s[bin];
      Split(bin, e.base - entry.base, e.size);
      ghost var low, high := s[..bin] + LowOf(entry, e), HighOf(entry, e) + s[bin + 1..];
      assert Entries() == low + high;
      Halves(low, high);
      Insert(bin + 1, e);
    }

    /** memmap.c:215-255: the bounds fall into two entries. */
    method DefineAcross(e: Entry, bin: nat, tin: nat)
      requires Valid() && Sorted(Entries()) && e.Proper() && entryCount < MAX_ENTRIES && bin != tin
      requires IsInside(Entries(), e.base as int, Some(bin)) && IsInside(Entries(), e.End() - 1, Some(tin))
      modifies this`entryCount, slots
      ensures Valid() && Entries() == Defined(old(Entries()), e)
    {
      ghost var s := Entries();
      assert s[bin].Proper() && s[tin].Proper();
      hide Defined, Sorted, LowOf, HighOf;
      AcrossResult(s, e, bin, tin);
      var bentry, tentry := slots[bin], slots[tin];
      assert bentry == s[bin] && tentry == s[tin];
      if bentry.base == e.base && tentry.base + tentry.size == e.base + e.size {
        NoLow(s[..bin], s[bin], e);
        NoHigh(s[tin + 1..], s[tin], e);
        Replace(bin, tin, e);
      } else {
        DefinePartlyAcross(e, bin, tin);
      }
    }

    /** memmap.c:227-255: at least one of the two entries keeps a part. */
    method DefinePartlyAcross(e: Entry, bin: nat, tin: nat)
      requires Valid() && e.Proper() && bin < tin < entryCount < MAX_ENTRIES
      requires Entries()[bin].Proper() && Entries()[bin].Covers(e.base as int)
      requires Entries()[tin].Proper() && Entries()[tin].Covers(e.End() - 1)
      requires Entries()[bin].base != e.base || Entries()[tin].End() != e.End()
      modifies this`entryCount, slots
      ensures Valid()
      ensures var s := old(Entries());
        Entries() == s[..bin] + LowOf(s[bin], e) + [e] + (HighOf(s[tin], e) + s[tin + 1..])
    {
      ghost var s := Entries();
      hide LowOf, HighOf;
      var bentry, tentry := slots[bin], slots[tin];
      assert bentry == s[bin] && tentry == s[tin];
      if bentry.base == e.base {
        NoLow(s[..bin], s[bin], e);
        CutHighAndInsert(e, bin, tin);
      } else if e.base + e.size == tentry.base + tentry.size {
        NoHigh(s[tin + 1..], s[tin], e);
        CutTopAndReplace(e, bin, tin + 1);
      } else {
        CutBothAndInsert(e, bin, tin);
      }
    }

    /** Cut the bottom of the upper entry off (lines 218 and 233). */
    method CutHigh(e: Entry, bin: nat, tin: nat)
      requires Valid() && e.Proper() && bin < tin < entryCount && Entries()[tin].Proper()
      requires Entries()[tin].base as int < e.End() < Entries()[tin].End()
      modifies this`entryCount, slots
      ensures Valid() && entryCount == old(entryCount)
      ensures var s := old(Entries());
        && Entries()[..bin] == s[..bin] && Entries()[bin] == s[bin]
        && Entries()[tin..] == HighOf(s[tin], e) + s[tin + 1..]
    {
      ghost var s := Entries();
      var tentry := slots[tin];
      assert tentry == s[tin];
      CutBottom(tin, (e.base + e.size) - tentry.base);
      assert Entries() == s[..tin] + (HighOf(s[tin], e) + s[tin + 1..]);
      Halves(s[..tin], HighOf(s[tin], e) + s[tin + 1..]);
      assert (s[..tin] + (HighOf(s[tin], e) + s[tin + 1..]))[..bin] == s[..bin];
    }

    /** memmap.c:216-221 */
    method CutHighAndInsert(e: Entry, bin: nat, tin: nat)
      requires Valid() && e.Proper() && bin < tin < entryCount && Entries()[tin].Proper()
      requires Entries()[tin].base as int < e.End() < Entries()[tin].End()
      modifies this`entryCount, slots
      ensures Valid()
      ensures var s := old(Entries()); Entries() == s[..bin] + [e] + (HighOf(s[tin], e) + s[tin + 1..])
    {
      CutHigh(e, bin, tin);
      Replace(bin, tin - 1, e);
    }

    /** memmap.c:232-243 */
    method CutBothAndInsert(e: Entry, bin: nat, tin: nat)
      requires Valid() && e.Proper() && bin < tin < entryCount && entryCount < MAX_ENTRIES
      requires Entries()[bin].Proper() && Entries()[tin].Proper()
      requires Entries()[bin].base < e.base && e.base as int < Entries()[bin].End()
      requires Entries()[tin].base as int < e.End() < Entries()[tin].End()
      modifies this`entryCount, slots
      ensures Valid()
      ensures var s := old(Entries());
        Entries() == s[..bin] + LowOf(s[bin], e) + [e] + (HighOf(s[tin], e) + s[tin + 1..])
    {
      CutHigh(e, bin, tin);
      CutTopAndReplace(e, bin, tin);
    }

    /** memmap.c:225-229 with tin one further, and 234-242. */
    method CutTopAndReplace(e: Entry, bin: nat, tin: nat)
      requires Valid() && e.Proper() && bin < tin <= entryCount < MAX_ENTRIES && Entries()[bin].Proper()
      requires Entries()[bin].base < e.base && e.base as int < Entries()[bin].End()
      modifies this`entryCount, slots
      ensures Valid()
      ensures var s := old(Entries()); Entries() == s[..bin] + LowOf(s[bin], e) + [e] + s[tin..]
    {
      ghost var s := Entries();
      var bentry := slots[bin];
      assert bentry == s[bin];
      CutTop(bin, bentry.size - (e.base - bentry.base));
      ghost var low := s[..bin] + LowOf(s[bin], e);
      assert Entries() == low + s[bin + 1..];
      if bin + 1 < tin {
        Remove(bin + 1, tin - 1);
        assert (low + s[bin + 1..])[..bin + 1] == low && (low + s[bin + 1..])[tin..] == s[tin..];
      }
      assert Entries() == low + s[tin..];
      Halves(low, s[tin..]);
      Insert(bin + 1, e);
    }

    /** memmap.c:246-266: only the lower bound falls into an entry.  Line 251 removes from
        bafter + 1, as here. */
    method DefineFromInside(e: Entry, bin: nat, bafter: Option<nat>, tbefore: Option<nat>)
      requires Valid() && Sorted(Entries()) && e.Proper() && entryCount < MAX_ENTRIES
      requires IsInside(Entries(), e.base as int, Some(bin)) && IsInside(Entries(), e.End() - 1, None)
      requires IsAfter(Entries(), e.base as int, bafter) && IsBefore(Entries(), e.End() - 1, tbefore)
      modifies this`entryCount, slots
      ensures Valid() && Entries() == Defined(old(Entries()), e)
    {
      ghost var s := Entries();
      FromInsideResult(s, e, bin, bafter, tbefore);
      assert s[bin].Proper();
      hide Defined, Sorted, IsAfter, IsBefore, LowOf, Kept;
      Dropped(s, bin, Kept(s, bin, tbefore.value));
      DropCovered(bin, bafter, tbefore.value);
      Overwrite(e, bin);
    }

    /** memmap.c:250-252 */
    method DropCovered(bin: nat, bafter: Option<nat>, tbefore: nat)
      requires Valid() && bin <= tbefore < entryCount
      requires tbefore != bin ==> bafter == Some(bin + 1)
      modifies this`entryCount, slots
      ensures Valid()
      ensures Entries() == old(Entries())[..bin + 1] + Kept(old(Entries()), bin, tbefore)
      ensures entryCount <= old(entryCount)
    {
      ghost var s := Entries();
      if tbefore != bin {
        KeptSlices(s, bin, tbefore);
        Remove(bafter.value + 1, tbefore);
      } else {
        assert s[..bin + 1] + s[bin + 1..] == s;
      }
    }

    /** memmap.c:269-289: only the upper bound falls into an entry. */
    method DefineIntoInside(e: Entry, bafter: Option<nat>, tin: nat)
      requires Valid() && Sorted(Entries()) && e.Proper() && entryCount < MAX_ENTRIES
      requires IsInside(Entries(), e.base as int, None) && IsInside(Entries(), e.End() - 1, Some(tin))
      requires IsAfter(Entries(), e.base as int, bafter)
      modifies this`entryCount, slots
      ensures Valid() && Entries() == Defined(old(Entries()), e)
    {
      hide Defined, Sorted, IsAfter, HighOf;
      ghost var s := Entries();
      IntoInsideResult(s, e, bafter, tin);
      Raised(s, bafter.value, tin);
      if bafter.value != tin {
        Remove(bafter.value, tin - 1);
      } else {
        assert s[..tin] + s[tin..] == s;
      }
      Underwrite(e, bafter.value);
    }

    /** memmap_define.  The array is assumed to have room for the two entries a
        definition may add; the source does not check. */
    method Define(base: u64, size: u64, kind: Kind)
      requires Valid() && Sorted(Entries()) && entryCount + 2 <= MAX_ENTRIES
      requires Entry(base, size, kind).Proper()
      modifies this`entryCount, slots
      ensures Valid() && Entries() == Defined(old(Entries()), Entry(base, size, kind))
      ensures Sorted(Entries()) <==> !EndsInGapPastEntries(old(Entries()), Entry(base, size, kind))
      ensures forall a: int :: TypeAt(Entries(), a) ==
                if Entry(base, size, kind).Covers(a) then Some(kind) else TypeAt(old(Entries()), a)
      ensures KeepsRest(old(Entries()), Entry(base, size, kind), Entries())
    {
      ghost var was, e := Entries(), Entry(base, size, kind);
      DefinedKeeps(was, e);
      DefineEntry(base, size, kind);
      forall a: int ensures TypeAt(Entries(), a) == if e.Covers(a) then Some(kind) else TypeAt(was, a) {
        DefinedTypes(was, e, a);
      }
    }

    /** Its branches. */
    method DefineEntry(base: u64, size: u64, kind: Kind)
      requires Valid() && Sorted(Entries()) && entryCount + 2 <= MAX_ENTRIES
      requires Entry(base, size, kind).Proper()
      modifies this`entryCount, slots
      ensures Valid() && Entries() == Defined(old(Entries()), Entry(base, size, kind))
      ensures Sorted(Entries()) <==> !EndsInGapPastEntries(old(Entries()), Entry(base, size, kind))
    {
      var nentry := Entry(base, size, kind);
      DefinedIsSorted(Entries(), nentry);
      if entryCount == 0 {
        Insert(0, nentry);
        return;
      }
      var bin, bbefore, bafter := AddressInfo(base);
      var tin, tbefore, tafter := AddressInfo(base + size - 1);
      if bin.None? && tin.None? {
        DefineOutside(nentry, bbefore, bafter, tbefore);
        return;
      }
      if bin.Some? && tin.Some? && bin.value == tin.value {
        DefineInOne(nentry, bin.value);
        return;
      }
      if bin.Some? && tin.Some? {
        DefineAcross(nentry, bin.value, tin.value);
        return;
      }
      if bin.Some? {
        DefineFromInside(nentry, bin.value, bafter, tbefore);
        return;
      }
      if tin.Some? {
        DefineIntoInside(nentry, bafter, tin.value);
        return;
      }
    }

    /** memmap_agregate */
    method Aggregate()
      requires Valid() && Sorted(Entries())
      modifies this`entryCount, slots
      ensures Valid() && Entries() == Aggregated(old(Entries()))
    {
      hide Sorted, AggregatedFrom, Aggregated, AfterRun, Run;
      ghost var s := Entries();
      AggregatedStart(s);
      var i := 0;
      while i < entryCount
        invariant Valid() && 0 <= i <= entryCount && Sorted(Entries())
        invariant AggregatedFrom(Entries(), i) == AggregatedFrom(s, 0)
        decreases entryCount - i
      {
        var count := CountRun(i);
        AggregateStep(Entries(), i, count);
        MergeRun(i, count);
        i := i + 1;
      }
      AggregatedEnd(Entries());
    }

    /** memmap.c:301-303 */
    method MergeRun(i: nat, count: nat)
      requires Valid() && Sorted(Entries()) && 0 < count && i + count <= entryCount
      modifies this`entryCount, slots
      ensures Valid() && Entries() == AfterRun(old(Entries()), i, count)
      ensures entryCount <= old(entryCount)
    {
      AfterRunSlices(Entries(), i, count);
      if count > 1 {
        Merge(i, i + count - 1);
      }
    }

    /** memmap.c:296-298: how many entries from i on are one run? */
    method CountRun(i: nat) returns (count: nat)
      requires Valid() && Sorted(Entries()) && i < entryCount
      ensures i + count <= entryCount && Run(Entries()[i..], count)
      ensures i + count == entryCount || !Mergeable(Entries()[i + count - 1], Entries()[i + count])
    {
      ghost var s := Entries();
      count := 1;
      while i + count < entryCount && slots[i].kind == slots[i + count].kind &&
            slots[i + count - 1].base + slots[i + count - 1].size == slots[i + count].base
        invariant 1 <= count && i + count <= entryCount
        invariant forall j :: i <= j < i + count ==> s[j].kind == s[i].kind
        invariant forall j :: i < j < i + count ==> Mergeable(s[j - 1], s[j])
        invariant i + count < entryCount ==> s[i + count - 1].Proper()
      {
        assert s[i + count] == slots[i + count] && s[i + count - 1] == slots[i + count - 1] && s[i] == slots[i];
        count := count + 1;
      }
    }
  }
}
