/** The free list of a heap block (kernel/src/memory/halloc.c): headers linked by offsets,
    largest first. */
module HeapList {

  /** alloc_header_t; used is bit 0 of meta. */
  datatype Header = Header(next: nat, bef: nat, size: nat, prev: nat, used: bool)

  /** The headers of a block by their offsets from its start. */
  type Mem = map<nat, Header>

  /** The element of a list, or the null offset on either side of it. */
  function Nth(list: seq<nat>, i: int): nat {
    if 0 <= i < |list| then list[i] else 0
  }

  ghost predicate Distinct(list: seq<nat>) {
    forall i, j :: 0 <= i < j < |list| ==> list[i] != list[j]
  }

  /** Both links of the header at place i. */
  ghost predicate LinkedAt(mem: Mem, list: seq<nat>, i: int)
    requires 0 <= i < |list|
  {
    && list[i] != 0 && list[i] in mem
    && mem[list[i]].next == Nth(list, i + 1) && mem[list[i]].bef == Nth(list, i - 1)
  }

  /** The free list from its head is this list. */
  ghost predicate Linked(mem: Mem, head: nat, list: seq<nat>) {
    && head == Nth(list, 0)
    && Distinct(list)
    && forall i :: 0 <= i < |list| ==> LinkedAt(mem, list, i)
  }

  function SizeOf(mem: Mem, o: nat): nat {
    if o in mem then mem[o].size else 0
  }

  ghost predicate Descending(mem: Mem, list: seq<nat>) {
    forall i, j :: 0 <= i < j < |list| ==> SizeOf(mem, list[i]) >= SizeOf(mem, list[j])
  }

  /** Only links differ. */
  ghost predicate SameBodies(mem: Mem, after: Mem) {
    && after.Keys == mem.Keys
    && forall o :: o in mem ==>
        after[o].size == mem[o].size && after[o].prev == mem[o].prev && after[o].used == mem[o].used
  }

  function SetNext(mem: Mem, o: nat, next: nat): (after: Mem)
    requires o in mem
    ensures after.Keys == mem.Keys && SameBodies(mem, after)
  {
    mem[o := mem[o].(next := next)]
  }

  function SetBef(mem: Mem, o: nat, bef: nat): (after: Mem)
    requires o in mem
    ensures after.Keys == mem.Keys && SameBodies(mem, after)
  {
    mem[o := mem[o].(bef := bef)]
  }

  function Without(list: seq<nat>, i: nat): seq<nat>
    requires i < |list|
  {
    list[..i] + list[i + 1..]
  }

  function With(list: seq<nat>, i: nat, what: nat): seq<nat>
    requires i <= |list|
  {
    list[..i] + [what] + list[i..]
  }

  /** freelist_take, and where the list then begins. */
  function TakeLinks(mem: Mem, what: nat): Mem
    requires what in mem && (mem[what].bef != 0 ==> mem[what].bef in mem)
    requires (mem[what].next != 0 ==> mem[what].next in mem)
  {
    var h := mem[what];
    var m1 := if h.bef == 0 then mem else SetNext(mem, h.bef, h.next);
    var m2 := if h.next == 0 then m1 else SetBef(m1, h.next, h.bef);
    SetNext(SetBef(m2, what, 0), what, 0)
  }

  lemma NeighboursInMem(mem: Mem, head: nat, list: seq<nat>, i: nat)
    requires Linked(mem, head, list) && i < |list|
    ensures list[i] != 0 && list[i] in mem && mem[list[i]].next == Nth(list, i + 1)
    ensures mem[list[i]].bef == Nth(list, i - 1)
    ensures i > 0 ==> list[i - 1] in mem && list[i - 1] != 0
    ensures i + 1 < |list| ==> list[i + 1] in mem && list[i + 1] != 0
  {
    assert LinkedAt(mem, list, i);
    if i > 0 {
      assert LinkedAt(mem, list, i - 1);
    }
    if i + 1 < |list| {
      assert LinkedAt(mem, list, i + 1);
    }
  }

  lemma WithHas(list: seq<nat>, i: nat, what: nat)
    requires i <= |list|
    ensures forall o :: o in With(list, i, what) <==> o == what || o in list
  {
    assert list == list[..i] + list[i..];
  }

  lemma WithoutHas(list: seq<nat>, i: nat)
    requires i < |list| && Distinct(list)
    ensures forall o :: o in Without(list, i) <==> o != list[i] && o in list
  {
    assert list == list[..i] + [list[i]] + list[i + 1..];
  }

  lemma WithoutNth(list: seq<nat>, i: nat, j: int)
    requires i < |list|
    ensures Nth(Without(list, i), j) == if j < i then Nth(list, j) else Nth(list, j + 1)
  {
  }

  lemma WithNth(list: seq<nat>, i: nat, what: nat, j: int)
    requires i <= |list|
    ensures Nth(With(list, i, what), j) == if j < i then Nth(list, j) else if j == i then what else Nth(list, j - 1)
  {
  }

  /** freelist_insert before list[i], or at the end. */
  function InsertLinks(mem: Mem, what: nat, bef: nat, next: nat): Mem
    requires what in mem && (bef != 0 ==> bef in mem) && (next != 0 ==> next in mem)
  {
    var m1 := if bef == 0 then mem else SetNext(mem, bef, what);
    var m2 := if next == 0 then m1 else SetBef(m1, next, what);
    SetNext(SetBef(m2, what, bef), what, next)
  }

  lemma InsertLinksAt(mem: Mem, what: nat, bef: nat, next: nat, o: nat)
    requires what in mem && (bef != 0 ==> bef in mem) && (next != 0 ==> next in mem)
    requires what != bef && what != next && o in mem
    ensures var after := InsertLinks(mem, what, bef, next);
            && o in after
            && after[o].next == (if o == what then next else if o == bef && bef != 0 then what else mem[o].next)
            && after[o].bef == (if o == what then bef else if o == next && next != 0 then what else mem[o].bef)
  {
  }

  lemma TakeLinksAt(mem: Mem, what: nat, o: nat)
    requires what in mem && (mem[what].bef != 0 ==> mem[what].bef in mem)
    requires (mem[what].next != 0 ==> mem[what].next in mem)
    requires what != mem[what].bef && what != mem[what].next && o in mem
    ensures var h, after := mem[what], TakeLinks(mem, what);
            && o in after
            && after[o].next == (if o == what then 0 else if o == h.bef && h.bef != 0 then h.next else mem[o].next)
            && after[o].bef == (if o == what then 0 else if o == h.next && h.next != 0 then h.bef else mem[o].bef)
  {
  }

  lemma TakenIsLinked(mem: Mem, head: nat, list: seq<nat>, i: nat)
    requires Linked(mem, head, list) && i < |list|
    ensures list[i] in mem && (mem[list[i]].bef != 0 ==> mem[list[i]].bef in mem)
    ensures mem[list[i]].next != 0 ==> mem[list[i]].next in mem
    ensures var after := TakeLinks(mem, list[i]);
            && SameBodies(mem, after) && after[list[i]].next == 0 && after[list[i]].bef == 0
            && Linked(after, if mem[list[i]].bef == 0 then mem[list[i]].next else head, Without(list, i))
  {
    NeighboursInMem(mem, head, list, i);
    var after := TakeLinks(mem, list[i]);
    assert SameBodies(mem, after);
    WithoutIsDistinct(list, i);
    WithoutNth(list, i, 0);
    TakeLinksAt(mem, list[i], list[i]);
    hide TakeLinks, Without, SameBodies;
    forall j | 0 <= j < |Without(list, i)| ensures LinkedAt(after, Without(list, i), j) {
      TakenAt(mem, head, list, i, j);
    }
  }

  lemma WithoutIsDistinct(list: seq<nat>, i: nat)
    requires Distinct(list) && i < |list|
    ensures Distinct(Without(list, i)) && |Without(list, i)| == |list| - 1
  {
  }

  lemma TakenAt(mem: Mem, head: nat, list: seq<nat>, i: nat, j: nat)
    requires Linked(mem, head, list) && i < |list| && j < |Without(list, i)| == |list| - 1
    requires list[i] in mem && (mem[list[i]].bef != 0 ==> mem[list[i]].bef in mem)
    requires mem[list[i]].next != 0 ==> mem[list[i]].next in mem
    ensures LinkedAt(TakeLinks(mem, list[i]), Without(list, i), j)
  {
    hide TakeLinks, Without, SameBodies;
    NeighboursInMem(mem, head, list, i);
    WithoutNth(list, i, j);
    WithoutNth(list, i, j + 1);
    WithoutNth(list, i, j - 1);
    var k := if j < i then j else j + 1;
    assert LinkedAt(mem, list, k);
    TakeLinksAt(mem, list[i], list[k]);
  }

  lemma InsertedIsLinked(mem: Mem, head: nat, list: seq<nat>, i: nat, what: nat)
    requires Linked(mem, head, list) && i <= |list| && what !in list && what in mem && what != 0
    ensures Nth(list, i - 1) != 0 ==> Nth(list, i - 1) in mem
    ensures Nth(list, i) != 0 ==> Nth(list, i) in mem
    ensures var after := InsertLinks(mem, what, Nth(list, i - 1), Nth(list, i));
            SameBodies(mem, after) && Linked(after, if i == 0 then what else head, With(list, i, what))
  {
    var bef, next := Nth(list, i - 1), Nth(list, i);
    if i > 0 {
      NeighboursInMem(mem, head, list, i - 1);
    }
    if i < |list| {
      NeighboursInMem(mem, head, list, i);
    }
    var after := InsertLinks(mem, what, bef, next);
    var longer := With(list, i, what);
    WithIsDistinct(list, i, what);
    WithNth(list, i, what, 0);
    assert SameBodies(mem, after);
    hide InsertLinks, With, SameBodies;
    forall j | 0 <= j < |longer| ensures LinkedAt(after, longer, j) {
      InsertedAt(mem, head, list, i, what, j);
    }
  }

  lemma WithIsDistinct(list: seq<nat>, i: nat, what: nat)
    requires Distinct(list) && i <= |list| && what !in list
    ensures Distinct(With(list, i, what)) && |With(list, i, what)| == |list| + 1
  {
  }

  lemma InsertedAt(mem: Mem, head: nat, list: seq<nat>, i: nat, what: nat, j: nat)
    requires Linked(mem, head, list) && i <= |list| && what !in list && what in mem && what != 0
    requires Nth(list, i - 1) != 0 ==> Nth(list, i - 1) in mem
    requires Nth(list, i) != 0 ==> Nth(list, i) in mem
    requires j < |With(list, i, what)| == |list| + 1
    ensures LinkedAt(InsertLinks(mem, what, Nth(list, i - 1), Nth(list, i)), With(list, i, what), j)
  {
    hide InsertLinks, With, SameBodies;
    WithNth(list, i, what, j);
    WithNth(list, i, what, j + 1);
    WithNth(list, i, what, j - 1);
    if j == i {
      InsertLinksAt(mem, what, Nth(list, i - 1), Nth(list, i), what);
    } else {
      var k := if j < i then j else j - 1;
      assert LinkedAt(mem, list, k);
      InsertLinksAt(mem, what, Nth(list, i - 1), Nth(list, i), list[k]);
    }
  }

  // ----- order

  /** Where freelist_insert places a segment of a size. */
  ghost predicate IsPlace(mem: Mem, list: seq<nat>, size: nat, i: nat) {
    && i <= |list|
    && (forall j :: 0 <= j < i ==> size < SizeOf(mem, list[j]))
    && (i < |list| ==> size >= SizeOf(mem, list[i]))
  }

  lemma InsertedDescends(mem: Mem, list: seq<nat>, i: nat, what: nat)
    requires Descending(mem, list) && IsPlace(mem, list, SizeOf(mem, what), i)
    ensures Descending(mem, With(list, i, what))
  {
    var longer := With(list, i, what);
    forall a, b | 0 <= a < b < |longer| ensures SizeOf(mem, longer[a]) >= SizeOf(mem, longer[b]) {
      if b > i && a == i && b > i + 1 {
        assert SizeOf(mem, list[i]) >= SizeOf(mem, list[b - 1]);
      }
    }
  }

  lemma TakenDescends(mem: Mem, list: seq<nat>, i: nat)
    requires Descending(mem, list) && i < |list|
    ensures Descending(mem, Without(list, i))
  {
  }

  lemma DescendingSame(mem: Mem, after: Mem, list: seq<nat>)
    requires Descending(mem, list) && SameBodies(mem, after)
    ensures Descending(after, list)
  {
  }

  /** No segment of the list is larger than its head. */
  lemma HeadIsLargest(mem: Mem, head: nat, list: seq<nat>, o: nat)
    requires Linked(mem, head, list) && Descending(mem, list) && o in list
    ensures head != 0 && SizeOf(mem, head) >= SizeOf(mem, o)
  {
    assert LinkedAt(mem, list, 0);
  }

  /** No header outside the list differs. */
  ghost predicate OthersSame(mem: Mem, after: Mem, list: seq<nat>) {
    forall o :: o in mem && o !in list ==> o in after && after[o] == mem[o]
  }

  /** freelist_insert at place i leaves a descending list with one element more. */
  lemma InsertIsSound(mem: Mem, head: nat, list: seq<nat>, i: nat, what: nat)
    requires Linked(mem, head, list) && Descending(mem, list)
    requires what !in list && what in mem && what != 0 && IsPlace(mem, list, SizeOf(mem, what), i)
    ensures Nth(list, i - 1) != 0 ==> Nth(list, i - 1) in mem
    ensures Nth(list, i) != 0 ==> Nth(list, i) in mem
    ensures var after := InsertLinks(mem, what, Nth(list, i - 1), Nth(list, i));
            && Linked(after, if i == 0 then what else head, With(list, i, what))
            && Descending(after, With(list, i, what))
            && SameBodies(mem, after) && OthersSame(mem, after, With(list, i, what))
  {
    InsertedIsLinked(mem, head, list, i, what);
    InsertedDescends(mem, list, i, what);
    WithHas(list, i, what);
    var after := InsertLinks(mem, what, Nth(list, i - 1), Nth(list, i));
    DescendingSame(mem, after, With(list, i, what));
    hide SameBodies, Linked, Descending, With;
    assert OthersSame(mem, after, With(list, i, what));
  }

  /** freelist_take leaves a descending list if the others descend. */
  lemma TakeIsSound(mem: Mem, head: nat, list: seq<nat>, i: nat)
    requires Linked(mem, head, list) && i < |list| && Descending(mem, Without(list, i))
    ensures list[i] in mem && (mem[list[i]].bef != 0 ==> mem[list[i]].bef in mem)
    ensures mem[list[i]].next != 0 ==> mem[list[i]].next in mem
    ensures var after := TakeLinks(mem, list[i]);
            && Linked(after, if mem[list[i]].bef == 0 then mem[list[i]].next else head, Without(list, i))
            && Descending(after, Without(list, i))
            && SameBodies(mem, after) && OthersSame(mem, after, list)
            && after[list[i]].next == 0 && after[list[i]].bef == 0
  {
    TakenIsLinked(mem, head, list, i);
    NeighboursInMem(mem, head, list, i);
    var after := TakeLinks(mem, list[i]);
    DescendingSame(mem, after, Without(list, i));
    hide SameBodies, Linked, Descending, Without;
    assert OthersSame(mem, after, list);
  }

  /** The links do not depend on sizes, tags and uses. */
  lemma LinkedSame(mem: Mem, after: Mem, head: nat, list: seq<nat>)
    requires Linked(mem, head, list)
    requires forall o :: o in list && o in mem ==>
               o in after && after[o].next == mem[o].next && after[o].bef == mem[o].bef
    ensures Linked(after, head, list)
  {
    forall i | 0 <= i < |list| ensures LinkedAt(after, list, i) {
      assert LinkedAt(mem, list, i);
    }
  }

  lemma DescendingOn(mem: Mem, after: Mem, list: seq<nat>)
    requires Descending(mem, list) && forall o :: o in list ==> SizeOf(after, o) == SizeOf(mem, o)
    ensures Descending(after, list)
  {
  }
}
