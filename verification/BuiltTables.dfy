/** What a freshly built `MemoryMapper` looks like, and what `translate`
    answers on it. */
module BuiltTables {
  import opened Common
  import opened PageTable
  import opened MemoryMapper
  import PageWalker

  /** Slot j of a table of a built heap. A PGD, PUD or PMD table holds the
      table made for the slot, or 0 when the entry is not present; a PT
      table holds one page only, in the slot of the PMD index it was made
      for, taken from that PMD entry. */
  lemma BuiltSlot(mem: PhysMemory, cr3: nat, heap: Heap, r: Ref, j: nat)
    requires Complete(mem, cr3, heap) && r in heap && j < ENTRIES
    ensures |heap[r].entries| == ENTRIES && heap[r].level == Depth(r) <= 3
    ensures heap[r].level <= 2 ==>
      heap[r].entries[j] == if FreshAt(mem, cr3, Under(r, j)).Some? then Table(Under(r, j)) else Empty
    ensures heap[r].level == 3 ==>
      && r.Under? && FreshAt(mem, cr3, r.parent).Some?
      && heap[r].entries[j] ==
           if j == r.index then Page(PageOf(SlotValue(mem, FreshAt(mem, cr3, r.parent).value, j))) else Empty
  {
    var t := FreshAt(mem, cr3, r).value;
    if t.level <= 2 {
      assert heap[r] == Filled(mem, t, r, ENTRIES);
    } else {
      assert heap[r] == t;
      var p := FreshAt(mem, cr3, r.parent).value;
      assert t == Child(mem, p, r.index);
    }
  }

  /** A built heap is well formed: every table has 512 slots and every
      table a slot names was made. */
  lemma BuiltWellFormed(mem: PhysMemory, cr3: nat, heap: Heap)
    requires Complete(mem, cr3, heap)
    ensures WellFormed(heap) && PgdRef in heap
  {
    forall r, k | r in heap && 0 <= k < ENTRIES && heap[r].entries[k].Table?
      ensures heap[r].entries[k].ref in heap
    {
      BuiltSlot(mem, cr3, heap, r, k);
    }
    forall r | r in heap
      ensures |heap[r].entries| == ENTRIES
    {
      BuiltSlot(mem, cr3, heap, r, 0);
    }
  }

  /** Every page of a built heap sits in a PT table, is 4096 bytes, is
      aligned to 4096 below 2^52 and is never huge: the builder makes no
      huge pages. */
  lemma BuiltPages(mem: PhysMemory, cr3: nat, heap: Heap, r: Ref, j: nat)
    requires Complete(mem, cr3, heap) && r in heap && j < ENTRIES
    requires heap[r].entries[j].Page?
    ensures heap[r].level == 3
    ensures heap[r].entries[j].page.size == 0x1000
    ensures heap[r].entries[j].page.physAddr % 0x1000 == 0
    ensures heap[r].entries[j].page.physAddr < 0x10_0000_0000_0000
    ensures !IsHuge(heap[r].entries[j])
  {
    BuiltSlot(mem, cr3, heap, r, j);
  }

  /** `translate` on a built mapper: it finds a page exactly when the PT
      table for the PGD, PUD and PMD indices of the address was made and the
      PT index equals the PMD index, and the page is the frame of that PMD
      entry. It leaves the tables as they were, never reaches a `MemoryPage`
      it would subscript, and answers as the non-mutating walk does. */
  lemma TranslateBuilt(mem: PhysMemory, cr3: nat, heap: Heap, virt: nat)
    requires Complete(mem, cr3, heap)
    ensures WellFormed(heap) && PgdRef in heap
    ensures Translate(heap, virt).heap == heap
    ensures Translate(heap, virt).outcome.Found? <==>
      && FreshAt(mem, cr3, PteRef(TranslateIndices(virt)[0], TranslateIndices(virt)[1], TranslateIndices(virt)[2])).Some?
      && TranslateIndices(virt)[3] == TranslateIndices(virt)[2]
    ensures Translate(heap, virt).outcome.Found? ==>
      && FreshAt(mem, cr3, PmdRef(TranslateIndices(virt)[0], TranslateIndices(virt)[1])).Some?
      && Translate(heap, virt).outcome.page == PageOf(SlotValue(mem,
           FreshAt(mem, cr3, PmdRef(TranslateIndices(virt)[0], TranslateIndices(virt)[1])).value,
           TranslateIndices(virt)[2]))
    ensures !Translate(heap, virt).outcome.NotSubscriptable?
    ensures TranslateKeeping(heap, virt) == Translate(heap, virt).outcome
  {
    BuiltWellFormed(mem, cr3, heap);
    TranslateKeepingMeaning(heap, virt);
    var ix := TranslateIndices(virt);
    var g, u, m, t := ix[0], ix[1], ix[2], ix[3];
    BuiltSlot(mem, cr3, heap, PgdRef, g);
    var r1 := Under(PgdRef, g);
    if FreshAt(mem, cr3, r1).None? {
      assert FreshAt(mem, cr3, PteRef(g, u, m)).None?;
      return;
    }
    BuiltSlot(mem, cr3, heap, r1, u);
    var r2 := Under(r1, u);
    if FreshAt(mem, cr3, r2).None? {
      assert FreshAt(mem, cr3, PteRef(g, u, m)).None?;
      return;
    }
    BuiltSlot(mem, cr3, heap, r2, m);
    var r3 := Under(r2, m);
    if FreshAt(mem, cr3, r3).None? {
      return;
    }
    BuiltSlot(mem, cr3, heap, r3, t);
  }

  /** In the mapper's own terms: `translate(get_address(g, u, p, t))` finds a
      page exactly when `pte_tables` has the key (g, u, p) and t == p. */
  lemma TranslateBuiltAddress(mem: PhysMemory, cr3: nat, m: MemoryMapper, g: nat, u: nat, p: nat, t: nat)
    requires Complete(mem, cr3, m.heap) && DictsBuilt(mem, cr3, m)
    requires g < ENTRIES && u < ENTRIES && p < ENTRIES && t < ENTRIES
    ensures WellFormed(m.heap) && PgdRef in m.heap
    ensures Translate(m.heap, GetAddress(g, u, p, t)).outcome.Found? <==> (g, u, p) in m.pteTables && t == p
  {
    GetAddressRoundTrip(g, u, p, t);
    TranslateBuilt(mem, cr3, m.heap, GetAddress(g, u, p, t));
  }

  /** `translate` and the walker pick the same slots for an address: the
      walker's byte offsets are 8 times `translate`'s indices. */
  lemma TranslateAndWalkerAgree(virt: nat)
    ensures forall k :: 0 <= k < 4 ==> PageWalker.Indexes(virt)[k] == 8 * TranslateIndices(virt)[k]
  {
  }

  /** A table the builder makes is in a built heap, where and at the level
      it was made. */
  lemma BuiltTable(mem: PhysMemory, cr3: nat, heap: Heap, r: Ref)
    requires Complete(mem, cr3, heap) && FreshAt(mem, cr3, r).Some?
    ensures r in heap && heap[r].level == Depth(r)
    ensures heap[r].physAddr == FreshAt(mem, cr3, r).value.physAddr
  {
    assert heap[r] == Final(mem, cr3, r);
  }

  /** The builder makes a table for slot j of a table it made exactly when
      that table is above the PT level and the entry in slot j is present. */
  lemma FreshUnder(mem: PhysMemory, cr3: nat, r: Ref, j: nat)
    requires FreshAt(mem, cr3, r).Some?
    ensures FreshAt(mem, cr3, Under(r, j)).Some? <==>
      && FreshAt(mem, cr3, r).value.level <= 2 && j < ENTRIES
      && Present(mem(FreshAt(mem, cr3, r).value.physAddr + j * 8))
  {
  }

  /** Slot j of a PGD or PUD table r of a built heap: it gets a table exactly
      when the entry in memory at the table's address + 8j is present; the
      slot then holds that table, one level down, based at the entry's
      frame. */
  lemma TableUnder(mem: PhysMemory, cr3: nat, heap: Heap, r: Ref, j: nat)
    requires Complete(mem, cr3, heap) && FreshAt(mem, cr3, r).Some? && Depth(r) <= 1
    ensures r in heap
    ensures FreshAt(mem, cr3, Under(r, j)).Some? <==> j < ENTRIES && Present(mem(heap[r].physAddr + j * 8))
    ensures FreshAt(mem, cr3, Under(r, j)).Some? ==>
      && Under(r, j) in heap
      && heap[r].entries[j] == Table(Under(r, j))
      && heap[Under(r, j)].level == Depth(r) + 1
      && heap[Under(r, j)].physAddr == TableBase(mem(heap[r].physAddr + j * 8))
  {
    BuiltTable(mem, cr3, heap, r);
    FreshUnder(mem, cr3, r, j);
    if FreshAt(mem, cr3, Under(r, j)).Some? {
      TableUnderMade(mem, cr3, heap, r, j);
    }
  }

  /** The table the builder made for slot j of a PGD or PUD table r. */
  lemma TableUnderMade(mem: PhysMemory, cr3: nat, heap: Heap, r: Ref, j: nat)
    requires Complete(mem, cr3, heap) && FreshAt(mem, cr3, r).Some? && Depth(r) <= 1
    requires FreshAt(mem, cr3, Under(r, j)).Some?
    ensures r in heap && j < ENTRIES
    ensures Under(r, j) in heap
    ensures heap[r].entries[j] == Table(Under(r, j))
    ensures heap[Under(r, j)].level == Depth(r) + 1
    ensures heap[Under(r, j)].physAddr == TableBase(mem(heap[r].physAddr + j * 8))
  {
    BuiltTable(mem, cr3, heap, r);
    FreshUnder(mem, cr3, r, j);
    FreshTableBase(mem, cr3, r, j);
    BuiltSlot(mem, cr3, heap, r, j);
    BuiltTable(mem, cr3, heap, Under(r, j));
  }

  /** The table made for slot j of a PGD or PUD table is based at the frame of
      the entry in that slot. */
  lemma FreshTableBase(mem: PhysMemory, cr3: nat, r: Ref, j: nat)
    requires FreshAt(mem, cr3, r).Some? && Depth(r) <= 1 && FreshAt(mem, cr3, Under(r, j)).Some?
    ensures FreshAt(mem, cr3, Under(r, j)).value.physAddr
      == TableBase(mem(FreshAt(mem, cr3, r).value.physAddr + j * 8))
  {
  }

  /** A built PGD table sits at `cr3 & ~0xfff`. */
  lemma BuiltRoot(mem: PhysMemory, cr3: nat, heap: Heap)
    requires Complete(mem, cr3, heap)
    ensures PgdRef in heap && heap[PgdRef].physAddr == PageWalker.Root(cr3) && heap[PgdRef].level == 0
  {
    BuiltTable(mem, cr3, heap, PgdRef);
  }

  /** Slot p of a PMD table r of a built heap, in terms of the heap alone. */
  lemma PteUnder(mem: PhysMemory, cr3: nat, heap: Heap, r: Ref, p: nat)
    requires Complete(mem, cr3, heap) && FreshAt(mem, cr3, r).Some? && Depth(r) == 2
    ensures r in heap
    ensures FreshAt(mem, cr3, Under(r, p)).Some? <==> p < ENTRIES && Present(mem(heap[r].physAddr + p * 8))
    ensures FreshAt(mem, cr3, Under(r, p)).Some? ==>
      && Under(r, p) in heap
      && heap[r].entries[p] == Table(Under(r, p))
      && heap[Under(r, p)] == PtTable(heap[r].physAddr, p, TableBase(mem(heap[r].physAddr + p * 8)))
  {
    BuiltTable(mem, cr3, heap, r);
    FreshUnder(mem, cr3, r, p);
    if FreshAt(mem, cr3, Under(r, p)).Some? {
      BuiltSlot(mem, cr3, heap, r, p);
      BuiltTable(mem, cr3, heap, Under(r, p));
      PteSlots(mem, cr3, heap, Under(r, p));
      var t := PtTable(heap[r].physAddr, p, TableBase(mem(heap[r].physAddr + p * 8)));
      assert heap[Under(r, p)].entries == t.entries;
    }
  }

  /** A PT table at `base` whose only page, in slot p, is the 4 KiB frame
      at `frame`. */
  function PtTable(base: nat, p: nat, frame: nat): (t: BaseTable)
    requires p < ENTRIES
    ensures t.physAddr == base && t.level == 3 && |t.entries| == ENTRIES
    ensures forall j :: 0 <= j < ENTRIES ==>
      t.entries[j] == if j == p then Page(MemoryPage(frame, 0x1000)) else Empty
  {
    var pte := NewTable(base, 3);
    pte.(entries := pte.entries[p := Page(MemoryPage(frame, 0x1000))])
  }

  /** The slots of a PT table of a built heap: the page of the PMD entry in
      the slot of its PMD index, nothing elsewhere. */
  lemma PteSlots(mem: PhysMemory, cr3: nat, heap: Heap, r: Ref)
    requires Complete(mem, cr3, heap) && FreshAt(mem, cr3, r).Some? && Depth(r) == 3
    ensures r in heap && r.Under? && r.parent in heap
    ensures forall j :: 0 <= j < ENTRIES ==>
      heap[r].entries[j]
        == if j == r.index then Page(MemoryPage(TableBase(mem(heap[r.parent].physAddr + r.index * 8)), 0x1000))
           else Empty
  {
    BuiltTable(mem, cr3, heap, r);
    BuiltTable(mem, cr3, heap, r.parent);
    forall j | 0 <= j < ENTRIES
      ensures heap[r].entries[j]
        == if j == r.index then Page(MemoryPage(TableBase(mem(heap[r.parent].physAddr + r.index * 8)), 0x1000))
           else Empty
    {
      BuiltSlot(mem, cr3, heap, r, j);
    }
  }
}
