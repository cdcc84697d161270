/** The materialised page-table tree of pagetable.py: tables of 512 slots,
    each slot empty (the integer 0), a reference to a lower table, or a
    `MemoryPage`.

    Python objects are shared by reference: the PGD slot and the mapper's
    dictionary hold the same PUD table. The model keeps the tables in a heap
    keyed by `Ref`, so two holders of one table hold the same `Ref`. A
    `MemoryPage` is held by value in its slot; the builder never puts one page
    object into two slots, so changing it in place is changing that slot. */
module PageTable {
  import opened Common
  import opened Bits

  /** A `MemoryPage`: a physical address and a size in bytes. */
  datatype MemoryPage = MemoryPage(physAddr: nat, size: nat)

  /** The identity of a table object. The builder names each table it makes
      by where it made it: the PGD table, or the table made for slot `index`
      of the table `parent`. */
  datatype Ref = PgdRef | Under(parent: Ref, index: nat)

  /** One slot of a table: the initial 0, a table, or a page. */
  datatype Slot = Empty | Table(ref: Ref) | Page(page: MemoryPage)

  /** A `BaseTable`: its physical address, its level (0 for a PGD table up to
      3 for a PT table) and its slots. */
  datatype BaseTable = BaseTable(physAddr: nat, level: nat, entries: seq<Slot>)

  /** All table objects alive, by identity. */
  type Heap = map<Ref, BaseTable>

  /** The errors `add_entry` and `__getitem__` raise. */
  datatype TableError =
    | HugeOutsideMiddle      // ValueError("Huge pages only in PUD/PMD")
    | PteNeedsPage           // ValueError("PTE must point to MemoryPage")
    | NeedsTable(level: nat) // ValueError(f"Level {level} must point to BaseTable")
    | IndexOutOfRange        // IndexError from the list of entries

  const ENTRIES: nat := 512

  /** `BaseTable(phys_addr, level)`: every slot holds 0. */
  function NewTable(physAddr: nat, level: nat): (t: BaseTable)
    ensures t.physAddr == physAddr && t.level == level
    ensures |t.entries| == ENTRIES && forall k :: 0 <= k < ENTRIES ==> t.entries[k] == Empty
  {
    BaseTable(physAddr, level, seq(ENTRIES, _ => Empty))
  }

  /** Python list indexing: -n <= i < n is valid, a negative i counting from
      the end. */
  function ListIndex(i: int, n: nat): (r: Option<nat>)
    ensures r.Some? <==> -(n as int) <= i < n
    ensures r.Some? ==> r.value < n && (r.value == i || r.value == i + n)
  {
    if 0 <= i < n then Some(i) else if -(n as int) <= i < 0 then Some(i + n) else None
  }

  /** `BaseTable.__getitem__`. */
  function GetItem(t: BaseTable, index: int): (r: Result<Slot, TableError>)
    ensures r.Ok? <==> -(|t.entries| as int) <= index < |t.entries|
    ensures r.Err? ==> r.error == IndexOutOfRange
    ensures 0 <= index < |t.entries| ==> r == Ok(t.entries[index])
    ensures -(|t.entries| as int) <= index < 0 ==> r == Ok(t.entries[index + |t.entries|])
  {
    match ListIndex(index, |t.entries|)
    case None => Err(IndexOutOfRange)
    case Some(k) => Ok(t.entries[k])
  }

  /** `BaseTable.is_huge`: a page whose address has bit 7 set. A table or an
      empty slot is never huge. */
  predicate IsHuge(entry: Slot)
    ensures IsHuge(entry) <==> entry.Page? && Bit(entry.page.physAddr, 7) == 1
  {
    entry.Page? && PageSizeSet(entry.page.physAddr)
  }

  /** `BaseTable.add_entry`: the level checks first, in the source's order,
      then the store into the list. */
  function AddEntry(t: BaseTable, index: int, entry: Slot): (r: Result<BaseTable, TableError>)
    ensures IsHuge(entry) && t.level != 1 && t.level != 2 ==> r == Err(HugeOutsideMiddle)
    ensures !IsHuge(entry) && t.level == 3 && !entry.Page? ==> r == Err(PteNeedsPage)
    ensures !IsHuge(entry) && t.level < 3 && !entry.Table? ==> r == Err(NeedsTable(t.level))
    ensures r.Ok? <==>
      && (if IsHuge(entry) then t.level == 1 || t.level == 2
          else (t.level == 3 ==> entry.Page?) && (t.level < 3 ==> entry.Table?))
      && -(|t.entries| as int) <= index < |t.entries|
    ensures (&& (if IsHuge(entry) then t.level == 1 || t.level == 2
                 else (t.level == 3 ==> entry.Page?) && (t.level < 3 ==> entry.Table?))
             && !(-(|t.entries| as int) <= index < |t.entries|))
      ==> r == Err(IndexOutOfRange)
    ensures r.Ok? ==>
      && r.value.physAddr == t.physAddr && r.value.level == t.level
      && |r.value.entries| == |t.entries|
      && forall k :: 0 <= k < |t.entries| ==>
           r.value.entries[k] == (if Some(k) == ListIndex(index, |t.entries|) then entry else t.entries[k])
  {
    if IsHuge(entry) && t.level != 1 && t.level != 2 then Err(HugeOutsideMiddle)
    else if !IsHuge(entry) && t.level == 3 && !entry.Page? then Err(PteNeedsPage)
    else if !IsHuge(entry) && t.level < 3 && !entry.Table? then Err(NeedsTable(t.level))
    else
      match ListIndex(index, |t.entries|)
      case None => Err(IndexOutOfRange)
      case Some(k) => Ok(t.(entries := t.entries[k := entry]))
  }

  /** Reading a slot back after storing into it gives the stored entry, and
      every other slot reads as before. */
  lemma AddThenGet(t: BaseTable, index: int, entry: Slot, other: int)
    requires AddEntry(t, index, entry).Ok?
    requires -(|t.entries| as int) <= other < |t.entries|
    ensures GetItem(AddEntry(t, index, entry).value, index) == Ok(entry)
    ensures ListIndex(other, |t.entries|) != ListIndex(index, |t.entries|) ==>
      GetItem(AddEntry(t, index, entry).value, other) == GetItem(t, other)
  {
  }

  /** Every table has 512 slots and every table a slot refers to is alive. */
  ghost predicate WellFormed(heap: Heap)
  {
    forall r :: r in heap ==>
      && |heap[r].entries| == ENTRIES
      && forall k :: 0 <= k < ENTRIES && heap[r].entries[k].Table? ==> heap[r].entries[k].ref in heap
  }

  /** The four 9-bit indices `translate` takes from a virtual address, PGD
      first. Put back at bits 39, 30, 21 and 12 above the page offset they
      give the low 48 bits of the address, and the bounds make them the only
      such four. */
  function TranslateIndices(virt: nat): (ix: seq<nat>)
    ensures |ix| == 4 && forall k :: 0 <= k < 4 ==> ix[k] < ENTRIES
    ensures virt % 0x1_0000_0000_0000
      == ix[0] * 0x80_0000_0000 + ix[1] * 0x4000_0000 + ix[2] * 0x20_0000 + ix[3] * 0x1000 + virt % 0x1000
  {
    IndexFields(virt);
    [virt / 0x80_0000_0000 % 512, virt / 0x4000_0000 % 512, virt / 0x20_0000 % 512, virt / 0x1000 % 512]
  }

  /** The low 48 bits of an address split into four 9-bit fields above the
      12-bit page offset. */
  lemma IndexFields(v: nat)
    ensures v % 0x1_0000_0000_0000
      == v / 0x80_0000_0000 % 512 * 0x80_0000_0000 + v / 0x4000_0000 % 512 * 0x4000_0000
         + v / 0x20_0000 % 512 * 0x20_0000 + v / 0x1000 % 512 * 0x1000 + v % 0x1000
  {
    var a := v / 0x1000;
    var b := a / 0x200;
    var c := b / 0x200;
    var d := c / 0x200;
    assert v / 0x20_0000 == b by { DivDiv(v, 0x1000, 0x200); }
    assert v / 0x4000_0000 == c by { DivDiv(v, 0x20_0000, 0x200); }
    assert v / 0x80_0000_0000 == d by { DivDiv(v, 0x4000_0000, 0x200); }
    assert v % 0x1_0000_0000_0000 == v % 0x1000 + 0x1000 * (a % 0x10_0000_0000) by {
      ModMod(v, 0x1000, 0x10_0000_0000);
    }
    assert a % 0x10_0000_0000 == a % 512 + 512 * (b % 0x800_0000) by { ModMod(a, 0x200, 0x800_0000); }
    assert b % 0x800_0000 == b % 512 + 512 * (c % 0x4_0000) by { ModMod(b, 0x200, 0x4_0000); }
    assert c % 0x4_0000 == c % 512 + 512 * (d % 512) by { ModMod(c, 0x200, 0x200); }
    Horner(v % 0x1_0000_0000_0000, v % 0x1000, a % 0x10_0000_0000, a % 512,
           b % 0x800_0000, b % 512, c % 0x4_0000, c % 512, d % 512);
  }

  /** Four 9-bit digits above a 12-bit one, written out. */
  lemma Horner(x: int, lo: int, a: int, a0: int, b: int, b0: int, c: int, c0: int, d0: int)
    requires x == lo + 0x1000 * a && a == a0 + 512 * b && b == b0 + 512 * c && c == c0 + 512 * d0
    ensures x == d0 * 0x80_0000_0000 + c0 * 0x4000_0000 + b0 * 0x20_0000 + a0 * 0x1000 + lo
  {
  }

  /** What `translate` answers: a page, `None`, or the TypeError raised when
      the loop goes on to subscript a `MemoryPage`. */
  datatype Outcome = Found(page: MemoryPage) | NotMapped | NotSubscriptable

  /** The answer together with the heap afterwards. */
  datatype Translation = Translation(outcome: Outcome, heap: Heap)

  /** `phys_addr &= ~(1 << 7)` on a page whose bit 7 is set. */
  function ClearHuge(p: MemoryPage): (q: MemoryPage)
    requires PageSizeSet(p.physAddr)
    ensures q.size == p.size && !PageSizeSet(q.physAddr)
    ensures q.physAddr + 0x80 == p.physAddr
  {
    p.(physAddr := p.physAddr - 0x80)
  }

  /** The same heap with one slot of one table replaced. */
  function SetSlot(heap: Heap, r: Ref, k: nat, s: Slot): (h: Heap)
    requires r in heap && k < |heap[r].entries|
    ensures h.Keys == heap.Keys
  {
    heap[r := heap[r].(entries := heap[r].entries[k := s])]
  }

  /** One round of the `for level in range(4)` loop of `translate`, with
      `current` the table `r`, and the rounds after it. */
  function TranslateFrom(heap: Heap, r: Ref, ix: seq<nat>, level: nat): (t: Translation)
    requires WellFormed(heap) && r in heap
    requires |ix| == 4 && forall k :: 0 <= k < 4 ==> ix[k] < ENTRIES
    requires level <= 4
    ensures t.heap.Keys == heap.Keys && WellFormed(t.heap)
    decreases 4 - level
  {
    if level == 4 then Translation(NotMapped, heap)
    else
      match heap[r].entries[ix[level]]
      case Empty => Translation(NotMapped, heap)
      case Page(p) =>
        if (level == 1 || level == 2) && PageSizeSet(p.physAddr) then
          Translation(Found(ClearHuge(p)), SetSlot(heap, r, ix[level], Page(ClearHuge(p))))
        else if level == 3 then Translation(Found(p), heap)
        else Translation(NotSubscriptable, heap)
      case Table(c) => TranslateFrom(heap, c, ix, level + 1)
  }

  /** `MemoryMapper.translate` over the tables of `heap`, starting at the PGD
      table. */
  function Translate(heap: Heap, virt: nat): (t: Translation)
    requires WellFormed(heap) && PgdRef in heap
    ensures t.heap.Keys == heap.Keys && WellFormed(t.heap)
  {
    TranslateFrom(heap, PgdRef, TranslateIndices(virt), 0)
  }

  /** The table `translate` has in hand at the start of round `level`, if it
      gets that far with a table: each round follows the slot the index
      selects, as long as that slot holds a table. */
  ghost function Reach(heap: Heap, ix: seq<nat>, level: nat): (r: Option<Ref>)
    requires WellFormed(heap) && PgdRef in heap
    requires |ix| == 4 && forall k :: 0 <= k < 4 ==> ix[k] < ENTRIES
    requires level <= 4
    ensures r.Some? ==> r.value in heap
  {
    if level == 0 then Some(PgdRef)
    else
      match Reach(heap, ix, level - 1)
      case None => None
      case Some(p) =>
        match heap[p].entries[ix[level - 1]]
        case Table(c) => Some(c)
        case _ => None
  }

  /** What `translate` does once it holds the table `r` at round `level` and
      reads a slot that is not a table: the answer for that slot, and the heap
      afterwards. This is the whole of `translate` stated without its loop. */
  ghost predicate Answers(heap: Heap, r: Ref, ix: seq<nat>, level: nat, t: Translation)
    requires WellFormed(heap) && r in heap
    requires |ix| == 4 && forall k :: 0 <= k < 4 ==> ix[k] < ENTRIES
    requires level < 4
  {
    match heap[r].entries[ix[level]]
    case Table(_) => true
    case Empty => t == Translation(NotMapped, heap)
    case Page(p) =>
      if level == 3 then t == Translation(Found(p), heap)
      else if level == 0 || !PageSizeSet(p.physAddr) then t == Translation(NotSubscriptable, heap)
      else
        && t.outcome == Found(p.(physAddr := p.physAddr - 0x80))
        && !PageSizeSet(t.outcome.page.physAddr)
        && t.heap == heap[r := heap[r].(entries := heap[r].entries[ix[level] := Page(t.outcome.page)])]
  }

  /** `translate` answers for the first slot on the path that is not a table,
      and answers `None` when all four slots are tables. */
  lemma {:induction false} TranslateFromMeaning(heap: Heap, ix: seq<nat>, level: nat)
    requires WellFormed(heap) && PgdRef in heap
    requires |ix| == 4 && forall k :: 0 <= k < 4 ==> ix[k] < ENTRIES
    requires level <= 4 && Reach(heap, ix, level).Some?
    ensures var t := TranslateFrom(heap, Reach(heap, ix, level).value, ix, level);
      && (Reach(heap, ix, 4).Some? ==> t == Translation(NotMapped, heap))
      && forall l :: level <= l < 4 && Reach(heap, ix, l).Some? && !Reach(heap, ix, l + 1).Some? ==>
           Answers(heap, Reach(heap, ix, l).value, ix, l, t)
    decreases 4 - level
  {
    if level < 4 {
      var r := Reach(heap, ix, level).value;
      match heap[r].entries[ix[level]]
      case Table(c) =>
        assert Reach(heap, ix, level + 1) == Some(c);
        TranslateFromMeaning(heap, ix, level + 1);
      case Empty =>
        assert Reach(heap, ix, level + 1).None?;
        ReachStops(heap, ix, level + 1);
      case Page(_) =>
        assert Reach(heap, ix, level + 1).None?;
        ReachStops(heap, ix, level + 1);
    }
  }

  /** Once a round does not find a table, no later round has one. */
  lemma {:induction false} ReachStops(heap: Heap, ix: seq<nat>, level: nat)
    requires WellFormed(heap) && PgdRef in heap
    requires |ix| == 4 && forall k :: 0 <= k < 4 ==> ix[k] < ENTRIES
    requires level <= 4 && Reach(heap, ix, level).None?
    ensures forall l :: level <= l <= 4 ==> Reach(heap, ix, l).None?
    decreases 4 - level
  {
    if level < 4 {
      ReachStops(heap, ix, level + 1);
    }
  }

  /** `translate` from the PGD table, stated through `Reach` and `Answers`. */
  lemma TranslateMeaning(heap: Heap, virt: nat)
    requires WellFormed(heap) && PgdRef in heap
    ensures var ix := TranslateIndices(virt);
      && (Reach(heap, ix, 4).Some? ==> Translate(heap, virt) == Translation(NotMapped, heap))
      && forall l :: 0 <= l < 4 && Reach(heap, ix, l).Some? && !Reach(heap, ix, l + 1).Some? ==>
           Answers(heap, Reach(heap, ix, l).value, ix, l, Translate(heap, virt))
  {
    TranslateFromMeaning(heap, TranslateIndices(virt), 0);
  }

  /** A mapper holding one 1 GiB page, stored with `add_entry` in slot 0 of
      a PUD table that slot 0 of the PGD table refers to. */
  function HugeExample(): (heap: Heap)
    ensures WellFormed(heap) && PgdRef in heap
  {
    var pud := NewTable(0x2000, 1);
    var pgd := NewTable(0x1000, 0);
    map[PgdRef := pgd.(entries := pgd.entries[0 := Table(Under(PgdRef, 0))]),
        Under(PgdRef, 0) := pud.(entries := pud.entries[0 := Page(MemoryPage(0x4000_0080, 0x4000_0000))])]
  }

  /** `translate` as written answers a huge page once: it clears bit 7 of
      the stored page, so asking again for the same address finds a page
      that is no longer huge at the PUD level and goes on to subscript it. */
  lemma TranslateTwiceOnHugePage()
    ensures AddEntry(NewTable(0x2000, 1), 0, Page(MemoryPage(0x4000_0080, 0x4000_0000))).Ok?
    ensures Translate(HugeExample(), 0).outcome == Found(MemoryPage(0x4000_0000, 0x4000_0000))
    ensures Translate(Translate(HugeExample(), 0).heap, 0).outcome == NotSubscriptable
  {
    var h := HugeExample();
    assert TranslateIndices(0) == [0, 0, 0, 0];
    assert PageSizeSet(0x4000_0080);
    var h1 := Translate(h, 0).heap;
    assert h1[Under(PgdRef, 0)].entries[0] == Page(MemoryPage(0x4000_0000, 0x4000_0000));
    assert !PageSizeSet(0x4000_0000);
  }

  /** `translate` as evidently meant: the same walk, answering a huge page
      with bit 7 cleared in the returned copy and leaving the tables alone. */
  function TranslateKeepingFrom(heap: Heap, r: Ref, ix: seq<nat>, level: nat): (o: Outcome)
    requires WellFormed(heap) && r in heap
    requires |ix| == 4 && forall k :: 0 <= k < 4 ==> ix[k] < ENTRIES
    requires level <= 4
    decreases 4 - level
  {
    if level == 4 then NotMapped
    else
      match heap[r].entries[ix[level]]
      case Empty => NotMapped
      case Page(p) =>
        if (level == 1 || level == 2) && PageSizeSet(p.physAddr) then Found(ClearHuge(p))
        else if level == 3 then Found(p)
        else NotSubscriptable
      case Table(c) => TranslateKeepingFrom(heap, c, ix, level + 1)
  }

  function TranslateKeeping(heap: Heap, virt: nat): Outcome
    requires WellFormed(heap) && PgdRef in heap
  {
    TranslateKeepingFrom(heap, PgdRef, TranslateIndices(virt), 0)
  }

  /** The corrected walk gives the answer the source gives on its first call. */
  lemma {:induction false} KeepingAgreesFrom(heap: Heap, r: Ref, ix: seq<nat>, level: nat)
    requires WellFormed(heap) && r in heap
    requires |ix| == 4 && forall k :: 0 <= k < 4 ==> ix[k] < ENTRIES
    requires level <= 4
    ensures TranslateKeepingFrom(heap, r, ix, level) == TranslateFrom(heap, r, ix, level).outcome
    decreases 4 - level
  {
    if level < 4 && heap[r].entries[ix[level]].Table? {
      KeepingAgreesFrom(heap, heap[r].entries[ix[level]].ref, ix, level + 1);
    }
  }

  /** Translating with the corrected walk answers as the source's first call
      does, and since the tables stay as they were, any later call for the
      same address answers the same again. The source's own walk changes
      the tables only when it answers a huge page. */
  lemma TranslateKeepingMeaning(heap: Heap, virt: nat)
    requires WellFormed(heap) && PgdRef in heap
    ensures TranslateKeeping(heap, virt) == Translate(heap, virt).outcome
    ensures Translate(heap, virt).heap != heap ==>
      Translate(heap, virt).outcome.Found? && !PageSizeSet(Translate(heap, virt).outcome.page.physAddr)
  {
    KeepingAgreesFrom(heap, PgdRef, TranslateIndices(virt), 0);
    TranslateFromChanges(heap, PgdRef, TranslateIndices(virt), 0);
  }

  /** The source's walk leaves the tables alone unless it clears bit 7 of
      the page it answers. */
  lemma {:induction false} TranslateFromChanges(heap: Heap, r: Ref, ix: seq<nat>, level: nat)
    requires WellFormed(heap) && r in heap
    requires |ix| == 4 && forall k :: 0 <= k < 4 ==> ix[k] < ENTRIES
    requires level <= 4
    ensures TranslateFrom(heap, r, ix, level).heap != heap ==>
      && TranslateFrom(heap, r, ix, level).outcome.Found?
      && !PageSizeSet(TranslateFrom(heap, r, ix, level).outcome.page.physAddr)
    decreases 4 - level
  {
    if level < 4 && heap[r].entries[ix[level]].Table? {
      TranslateFromChanges(heap, heap[r].entries[ix[level]].ref, ix, level + 1);
    }
  }

  /** `get_address`: `(0xffff << 48) | (pgd << 39) | (pud << 30) | (pmd << 21)
      | (pt << 12)`, with Python's `|` on unbounded integers. */
  function GetAddress(pgd: nat, pud: nat, pmd: nat, pt: nat): (a: nat)
    ensures pgd < 512 && pud < 512 && pmd < 512 && pt < 512 ==>
      a == ((((0xffff * 0x200 + pgd) * 0x200 + pud) * 0x200 + pmd) * 0x200 + pt) * 0x1000
  {
    OrOfFields(pgd, pud, pmd, pt);
    OrFields(pgd, pud, pmd, pt)
  }

  /** The `|` expression of `get_address` itself. */
  function OrFields(pgd: nat, pud: nat, pmd: nat, pt: nat): nat
  {
    Or(Or(Or(Or(0xffff * 0x1_0000_0000_0000, pgd * 0x80_0000_0000), pud * 0x4000_0000),
          pmd * 0x20_0000), pt * 0x1000)
  }

  /** Adding a field of `k` bits below a number shifted past them. */
  lemma OrField(hi: nat, low: nat, lowShift: nat, k: nat, p: nat)
    requires p == Pow2(k) && lowShift * 0x200 == p && low < 0x200
    ensures Or(hi * p, low * lowShift) == (hi * 0x200 + low) * lowShift
  {
    assert low * lowShift < p by {
      MulMonoLeft(low, 0x1ff, lowShift);
    }
    OrDisjoint(hi, low * lowShift, k);
    calc {
      (hi * 0x200 + low) * lowShift;
      { Distribute(lowShift, hi * 0x200, low); }
      hi * 0x200 * lowShift + low * lowShift;
      { MulAssoc(hi, 0x200, lowShift); }
      hi * p + low * lowShift;
    }
  }

  lemma MulAssoc(a: nat, b: nat, c: nat)
    ensures a * b * c == a * (b * c)
  {
  }

  lemma MulMonoLeft(a: nat, b: nat, c: nat)
    requires a <= b
    ensures a * c <= b * c
  {
    MulMono(c, a, b);
  }

  /** For indices below 512 the fields do not overlap, so the address is the
      sum of the shifted fields: 0xffff above bit 48, then the four indices. */
  lemma OrOfFields(pgd: nat, pud: nat, pmd: nat, pt: nat)
    ensures pgd < 512 && pud < 512 && pmd < 512 && pt < 512 ==>
      OrFields(pgd, pud, pmd, pt)
        == ((((0xffff * 0x200 + pgd) * 0x200 + pud) * 0x200 + pmd) * 0x200 + pt) * 0x1000
  {
    if pgd < 512 && pud < 512 && pmd < 512 && pt < 512 {
      Pow2Values();
      var a1 := 0xffff * 0x200 + pgd;
      var a2 := a1 * 0x200 + pud;
      var a3 := a2 * 0x200 + pmd;
      assert Or(0xffff * 0x1_0000_0000_0000, pgd * 0x80_0000_0000) == a1 * 0x80_0000_0000 by {
        OrField(0xffff, pgd, 0x80_0000_0000, 48, 0x1_0000_0000_0000);
      }
      assert Or(a1 * 0x80_0000_0000, pud * 0x4000_0000) == a2 * 0x4000_0000 by {
        OrField(a1, pud, 0x4000_0000, 39, 0x80_0000_0000);
      }
      assert Or(a2 * 0x4000_0000, pmd * 0x20_0000) == a3 * 0x20_0000 by {
        OrField(a2, pmd, 0x20_0000, 30, 0x4000_0000);
      }
      assert Or(a3 * 0x20_0000, pt * 0x1000) == (a3 * 0x200 + pt) * 0x1000 by {
        OrField(a3, pt, 0x1000, 21, 0x20_0000);
      }
    }
  }

  /** `get_address` and the index extraction of `translate` are inverse for
      indices below 512: each index comes back, the low 12 bits are zero and
      bits 48..63 are all ones. */
  lemma GetAddressRoundTrip(pgd: nat, pud: nat, pmd: nat, pt: nat)
    requires pgd < 512 && pud < 512 && pmd < 512 && pt < 512
    ensures TranslateIndices(GetAddress(pgd, pud, pmd, pt)) == [pgd, pud, pmd, pt]
    ensures GetAddress(pgd, pud, pmd, pt) % 0x1000 == 0
    ensures GetAddress(pgd, pud, pmd, pt) / 0x1_0000_0000_0000 == 0xffff
    ensures GetAddress(pgd, pud, pmd, pt) < 0x1_0000_0000_0000_0000
  {
    var a1 := 0xffff * 0x200 + pgd;
    var a2 := a1 * 0x200 + pud;
    var a3 := a2 * 0x200 + pmd;
    var a4 := a3 * 0x200 + pt;
    var v := a4 * 0x1000;
    DivUnique(v, 0x1000, a4, 0);
    DivUnique(a4, 0x200, a3, pt);
    DivUnique(a3, 0x200, a2, pmd);
    DivUnique(a2, 0x200, a1, pud);
    DivUnique(a1, 0x200, 0xffff, pgd);
    DivDiv(v, 0x1000, 0x200);
    DivDiv(v, 0x20_0000, 0x200);
    DivDiv(v, 0x4000_0000, 0x200);
    DivDiv(v, 0x80_0000_0000, 0x200);
  }
}
