/** `MemoryMapper` of pagetable.py: the tree of tables built from physical
    memory in three passes, PUD tables first, then PMD tables, then PT
    tables, each pass reading the 512 slots of every table the previous pass
    made. The debugger's `monitor xp/gx` read becomes the total function
    `PhysMemory`. */
module MemoryMapper {
  import opened Common
  import opened Bits
  import opened PageTable
  import PageWalker

  /** Physical memory as the builder reads it: one 64-bit word per address. */
  type PhysMemory = nat -> u64

  /** `value & 0x000ffffffffff000`: bits 12..51 of an entry. */
  function TableBase(v: nat): (b: nat)
    ensures b % 0x1000 == 0 && b < 0x10_0000_0000_0000
    ensures b / 0x1000 == v % 0x10_0000_0000_0000 / 0x1000
  {
    v % 0x10_0000_0000_0000 / 0x1000 * 0x1000
  }

  /** `value & 1`: the Present bit, the only flag the builder looks at. */
  predicate Present(v: nat)
  {
    v % 2 == 1
  }

  /** The entry stored in slot j of table t, read from memory. */
  function SlotValue(mem: PhysMemory, t: BaseTable, j: nat): u64
  {
    mem(t.physAddr + j * 8)
  }

  /** The page `_setup_PTE` makes of an entry: its frame, 4096 bytes. */
  function PageOf(v: nat): (p: MemoryPage)
    ensures p.size == 0x1000 && p.physAddr % 0x1000 == 0 && p.physAddr < 0x10_0000_0000_0000
    ensures !IsHuge(Page(p))
  {
    AlignedIsNotHuge(TableBase(v));
    MemoryPage(TableBase(v), 0x1000)
  }

  lemma AlignedIsNotHuge(b: nat)
    requires b % 0x1000 == 0
    ensures !PageSizeSet(b)
  {
    assert b == b / 0x1000 * 0x1000;
    assert b / 0x80 == b / 0x1000 * 0x20;
  }

  /** The table a pass creates for the present slot j of `parent`: a PUD or
      PMD table based at the entry's frame, or, below a PMD table, a PT table
      based at the PMD table's own address whose slot j (the PMD index) holds
      the page of the entry. */
  function Child(mem: PhysMemory, parent: BaseTable, j: nat): (c: BaseTable)
    requires parent.level <= 2 && j < ENTRIES
    ensures c.level == parent.level + 1 && |c.entries| == ENTRIES
  {
    var v := SlotValue(mem, parent, j);
    if parent.level < 2 then NewTable(TableBase(v), parent.level + 1)
    else
      var pte := NewTable(parent.physAddr, 3);
      pte.(entries := pte.entries[j := Page(PageOf(v))])
  }

  /** The number of tables above the one named. */
  function Depth(r: Ref): (d: nat)
    ensures d == 0 <==> r == PgdRef
  {
    match r
    case PgdRef => 0
    case Under(p, _) => Depth(p) + 1
  }

  /** The table named `r` as the builder creates it, before any of its own
      slots are filled; None when the builder makes no such table. The PGD
      table is based at `cr3 & ~0xfff`. */
  ghost function FreshAt(mem: PhysMemory, cr3: nat, r: Ref): (t: Option<BaseTable>)
    ensures t.Some? ==> t.value.level == Depth(r) && |t.value.entries| == ENTRIES && Depth(r) <= 3
  {
    match r
    case PgdRef => Some(NewTable(PageWalker.Root(cr3), 0))
    case Under(parent, j) =>
      match FreshAt(mem, cr3, parent)
      case None => None
      case Some(p) =>
        if p.level <= 2 && j < ENTRIES && Present(SlotValue(mem, p, j)) then Some(Child(mem, p, j)) else None
  }

  /** Table t (named r) with its slots below n filled: a present entry gets
      the table made for it, the rest keep what they held. */
  function Filled(mem: PhysMemory, t: BaseTable, r: Ref, n: nat): (f: BaseTable)
    requires |t.entries| == ENTRIES
    ensures f.physAddr == t.physAddr && f.level == t.level && |f.entries| == ENTRIES
  {
    t.(entries := seq(ENTRIES, j requires 0 <= j < ENTRIES =>
      if j < n && Present(SlotValue(mem, t, j)) then Table(Under(r, j)) else t.entries[j]))
  }

  /** The table named r once the builder is done with it: PGD, PUD and PMD
      tables have every present slot filled; a PT table is as made. */
  ghost function Final(mem: PhysMemory, cr3: nat, r: Ref): BaseTable
    requires FreshAt(mem, cr3, r).Some?
  {
    var t := FreshAt(mem, cr3, r).value;
    if t.level <= 2 then Filled(mem, t, r, ENTRIES) else t
  }

  /** The children of table r that are new in `heap`, each made for a present
      slot below n, with r's slots below n filled. */
  ghost predicate GrownAt(mem: PhysMemory, heap0: Heap, heap: Heap, r: Ref, n: nat)
    requires r in heap0 && |heap0[r].entries| == ENTRIES && heap0[r].level <= 2 && n <= ENTRIES
  {
    && r in heap && heap[r] == Filled(mem, heap0[r], r, n)
    && (forall c :: c in heap0 ==> c in heap)
    && (forall c :: c in heap0 && c != r ==> heap[c] == heap0[c])
    && (forall c :: c in heap && c !in heap0 ==>
          c.Under? && c.parent == r && c.index < n && Present(SlotValue(mem, heap0[r], c.index)))
    && (forall j :: 0 <= j < n && Present(SlotValue(mem, heap0[r], j)) ==>
          Under(r, j) in heap && heap[Under(r, j)] == Child(mem, heap0[r], j))
  }

  /** The loop of one pass over the 512 slots of the table at `r`: a slot
      whose entry is present gets a new table, which the caller records in
      its dictionary under the slot's index. The three passes share it; what
      is made for a slot depends on the level of the table being filled:
      below a PGD or PUD table a table based at the entry's frame, below a
      PMD table a PT table holding the entry's page. */
  method FillTable(mem: PhysMemory, heap0: Heap, r: Ref) returns (heap: Heap, kids: set<nat>)
    requires r in heap0 && |heap0[r].entries| == ENTRIES && heap0[r].level <= 2
    requires forall j :: Under(r, j) !in heap0
    ensures GrownAt(mem, heap0, heap, r, ENTRIES)
    ensures forall j: nat :: j in kids <==> j < ENTRIES && Present(SlotValue(mem, heap0[r], j))
  {
    var t := heap0[r];
    FilledNone(mem, t, r);
    heap := heap0;
    kids := {};
    var idx := 0;
    while idx < ENTRIES
      invariant 0 <= idx <= ENTRIES
      invariant GrownAt(mem, heap0, heap, r, idx)
      invariant forall j: nat :: j in kids <==> j < idx && Present(SlotValue(mem, t, j))
    {
      var made;
      heap, made := FillSlot(mem, heap0, heap, r, idx);
      ghost var before := kids;
      if made {
        kids := kids + {idx};
      }
      forall j: nat
        ensures j in kids <==> j < idx + 1 && Present(SlotValue(mem, t, j))
      {
        assert j in kids <==> j in before || (made && j == idx);
      }
      idx := idx + 1;
    }
  }

  /** One round of a pass's loop: read slot idx of the table at r and, when
      the entry's Present bit is set, make the table for it and store it
      there with `add_entry`. */
  method FillSlot(mem: PhysMemory, heap0: Heap, heap: Heap, r: Ref, idx: nat) returns (next: Heap, made: bool)
    requires r in heap0 && |heap0[r].entries| == ENTRIES && heap0[r].level <= 2 && idx < ENTRIES
    requires forall j :: Under(r, j) !in heap0
    requires GrownAt(mem, heap0, heap, r, idx)
    ensures GrownAt(mem, heap0, next, r, idx + 1)
    ensures made == Present(SlotValue(mem, heap0[r], idx))
  {
    var t := heap0[r];
    var value := mem(t.physAddr + idx * 8);
    FilledStep(mem, t, r, idx);
    if Present(value) {
      var child;
      if t.level < 2 {
        child := NewTable(TableBase(value), t.level + 1);
      } else {
        var pte := NewTable(t.physAddr, 3);
        PteStep(mem, t, idx);
        child := AddEntry(pte, idx, Page(PageOf(value))).value;
      }
      var filled := AddEntry(heap[r], idx, Table(Under(r, idx))).value;
      GrowOne(mem, heap0, heap, r, idx, child, filled);
      return heap[Under(r, idx) := child][r := filled], true;
    }
    return heap, false;
  }

  /** One present slot handled: its child added and the slot filled. */
  lemma GrowOne(mem: PhysMemory, heap0: Heap, heap: Heap, r: Ref, idx: nat, child: BaseTable, filled: BaseTable)
    requires r in heap0 && |heap0[r].entries| == ENTRIES && heap0[r].level <= 2 && idx < ENTRIES
    requires forall j :: Under(r, j) !in heap0
    requires GrownAt(mem, heap0, heap, r, idx)
    requires Present(SlotValue(mem, heap0[r], idx))
    requires child == Child(mem, heap0[r], idx) && filled == Filled(mem, heap0[r], r, idx + 1)
    ensures GrownAt(mem, heap0, heap[Under(r, idx) := child][r := filled], r, idx + 1)
  {
    assert Under(r, idx) !in heap;
  }

  /** With no slot filled yet a table is as it was. */
  lemma FilledNone(mem: PhysMemory, t: BaseTable, r: Ref)
    requires |t.entries| == ENTRIES
    ensures Filled(mem, t, r, 0) == t
  {
    assert Filled(mem, t, r, 0).entries == t.entries;
  }

  /** Filling slot n of a table, as `add_entry` stores it. */
  lemma FilledStep(mem: PhysMemory, t: BaseTable, r: Ref, n: nat)
    requires |t.entries| == ENTRIES && t.level <= 2 && n < ENTRIES
    ensures Present(SlotValue(mem, t, n)) ==>
      AddEntry(Filled(mem, t, r, n), n, Table(Under(r, n))) == Ok(Filled(mem, t, r, n + 1))
    ensures !Present(SlotValue(mem, t, n)) ==> Filled(mem, t, r, n) == Filled(mem, t, r, n + 1)
  {
    var f, g := Filled(mem, t, r, n), Filled(mem, t, r, n + 1);
    if Present(SlotValue(mem, t, n)) {
      assert f.entries[n := Table(Under(r, n))] == g.entries;
    } else {
      assert f.entries == g.entries;
    }
  }

  /** The PT table of `_setup_PTE`, made by `add_entry` on a new table. */
  lemma PteStep(mem: PhysMemory, t: BaseTable, j: nat)
    requires t.level == 2 && j < ENTRIES
    ensures AddEntry(NewTable(t.physAddr, 3), j, Page(PageOf(SlotValue(mem, t, j)))) == Ok(Child(mem, t, j))
  {
    var pte := NewTable(t.physAddr, 3);
    var p := Page(PageOf(SlotValue(mem, t, j)));
    assert AddEntry(pte, j, p).value.entries == pte.entries[j := p];
  }

  /** The builder's heap part way through: every table up to depth d exists,
      the tables at depth d named in `done` have been filled and their
      children made, and every table above depth d is final. */
  ghost predicate Partial(mem: PhysMemory, cr3: nat, heap: Heap, d: nat, done: set<Ref>)
  {
    PartialKeys(mem, cr3, heap, d, done) && PartialValues(mem, cr3, heap, d, done)
  }

  /** Which tables exist part way through. */
  ghost predicate PartialKeys(mem: PhysMemory, cr3: nat, heap: Heap, d: nat, done: set<Ref>)
  {
    && (forall c :: c in done ==> Depth(c) == d && FreshAt(mem, cr3, c).Some?)
    && (forall c :: c in heap ==>
          FreshAt(mem, cr3, c).Some? && (Depth(c) <= d || (c.Under? && c.parent in done)))
    && (forall c :: FreshAt(mem, cr3, c).Some? && Depth(c) <= d ==> c in heap)
    && (forall c :: FreshAt(mem, cr3, c).Some? && c.Under? && c.parent in done ==> c in heap)
  }

  /** What the existing tables hold part way through. */
  ghost predicate PartialValues(mem: PhysMemory, cr3: nat, heap: Heap, d: nat, done: set<Ref>)
  {
    forall c :: c in heap ==>
      FreshAt(mem, cr3, c).Some? &&
      heap[c] == if Depth(c) < d || c in done then Final(mem, cr3, c) else FreshAt(mem, cr3, c).value
  }

  /** A finished heap: exactly the tables the builder makes, each final. */
  ghost predicate Complete(mem: PhysMemory, cr3: nat, heap: Heap)
  {
    && (forall c :: c in heap <==> FreshAt(mem, cr3, c).Some?)
    && (forall c :: c in heap ==> heap[c] == Final(mem, cr3, c))
  }

  /** Filling one more table at depth d moves the partial heap along. */
  lemma FillTableDone(mem: PhysMemory, cr3: nat, heap0: Heap, heap: Heap, r: Ref, d: nat, done: set<Ref>)
    requires Partial(mem, cr3, heap0, d, done) && d <= 2 && Depth(r) == d && r in heap0 && r !in done
    requires GrownAt(mem, heap0, heap, r, ENTRIES)
    ensures Partial(mem, cr3, heap, d, done + {r})
  {
    assert heap0[r] == FreshAt(mem, cr3, r).value;
    FillTableKeys(mem, cr3, heap0, heap, r, d, done);
    FillTableValues(mem, cr3, heap0, heap, r, d, done);
  }

  lemma FillTableKeys(mem: PhysMemory, cr3: nat, heap0: Heap, heap: Heap, r: Ref, d: nat, done: set<Ref>)
    requires PartialKeys(mem, cr3, heap0, d, done) && d <= 2 && Depth(r) == d && r in heap0 && r !in done
    requires heap0[r] == FreshAt(mem, cr3, r).value
    requires GrownAt(mem, heap0, heap, r, ENTRIES)
    ensures PartialKeys(mem, cr3, heap, d, done + {r})
  {
    var done' := done + {r};
    forall c | c in heap
      ensures FreshAt(mem, cr3, c).Some? && (Depth(c) <= d || (c.Under? && c.parent in done'))
    {
      if c !in heap0 {
        assert c.parent == r && c.index < ENTRIES && Present(SlotValue(mem, heap0[r], c.index));
      }
    }
    forall c | FreshAt(mem, cr3, c).Some? && c.Under? && c.parent in done'
      ensures c in heap
    {
      if c.parent == r {
        assert Present(SlotValue(mem, heap0[r], c.index));
      }
    }
  }

  lemma FillTableValues(mem: PhysMemory, cr3: nat, heap0: Heap, heap: Heap, r: Ref, d: nat, done: set<Ref>)
    requires PartialValues(mem, cr3, heap0, d, done) && d <= 2 && Depth(r) == d && r in heap0 && r !in done
    requires forall c :: c in done ==> Depth(c) == d
    requires heap0[r] == FreshAt(mem, cr3, r).value
    requires GrownAt(mem, heap0, heap, r, ENTRIES)
    ensures PartialValues(mem, cr3, heap, d, done + {r})
  {
    var done' := done + {r};
    forall c | c in heap
      ensures FreshAt(mem, cr3, c).Some?
      ensures heap[c] == if Depth(c) < d || c in done' then Final(mem, cr3, c) else FreshAt(mem, cr3, c).value
    {
      if c == r {
        assert Final(mem, cr3, r) == Filled(mem, heap0[r], r, ENTRIES);
      } else if c in heap0 {
        assert heap[c] == heap0[c];
        assert c in done' <==> c in done;
      } else {
        assert c.parent == r && c.index < ENTRIES && Present(SlotValue(mem, heap0[r], c.index));
        assert FreshAt(mem, cr3, c) == Some(Child(mem, heap0[r], c.index));
        assert heap[c] == FreshAt(mem, cr3, c).value;
        assert Depth(c) == d + 1;
      }
    }
  }

  /** Once every table at depth d is filled, the heap is partial at depth
      d + 1 with nothing done there yet. */
  lemma NextDepth(mem: PhysMemory, cr3: nat, heap: Heap, d: nat, done: set<Ref>)
    requires Partial(mem, cr3, heap, d, done)
    requires forall c :: c in heap && Depth(c) == d ==> c in done
    ensures Partial(mem, cr3, heap, d + 1, {})
  {
    forall c | FreshAt(mem, cr3, c).Some? && Depth(c) <= d + 1
      ensures c in heap
    {
      if Depth(c) == d + 1 {
        assert FreshAt(mem, cr3, c.parent).Some?;
      }
    }
  }

  /** The heap holding only the fresh PGD table is partial at depth 0. */
  lemma InitialPartial(mem: PhysMemory, cr3: nat)
    ensures Partial(mem, cr3, map[PgdRef := NewTable(PageWalker.Root(cr3), 0)], 0, {})
  {
  }

  /** A heap partial at depth 3 is complete: PT tables are never filled. */
  lemma PartialThreeIsComplete(mem: PhysMemory, cr3: nat, heap: Heap)
    requires Partial(mem, cr3, heap, 3, {})
    ensures Complete(mem, cr3, heap)
  {
  }

  /** One table of a pass: fill the table `r`, not yet done at depth d, and
      report the slots that got a table. */
  method FillNext(mem: PhysMemory, cr3: nat, heap: Heap, d: nat, done: set<Ref>, r: Ref)
    returns (next: Heap, kids: set<nat>)
    requires d <= 2 && Partial(mem, cr3, heap, d, done)
    requires FreshAt(mem, cr3, r).Some? && Depth(r) == d && r !in done
    ensures Partial(mem, cr3, next, d, done + {r})
    ensures forall j: nat :: j in kids <==> FreshAt(mem, cr3, Under(r, j)).Some?
  {
    ReadyToFill(mem, cr3, heap, d, done, r);
    next, kids := FillTable(mem, heap, r);
    FillTableDone(mem, cr3, heap, next, r, d, done);
  }

  /** A table not yet done at depth d is in the heap as made, with no
      children yet. */
  lemma ReadyToFill(mem: PhysMemory, cr3: nat, heap: Heap, d: nat, done: set<Ref>, r: Ref)
    requires Partial(mem, cr3, heap, d, done)
    requires FreshAt(mem, cr3, r).Some? && Depth(r) == d && r !in done
    ensures r in heap && heap[r] == FreshAt(mem, cr3, r).value
    ensures forall j :: Under(r, j) !in heap
  {
    forall j
      ensures Under(r, j) !in heap
    {
      assert Depth(Under(r, j)) == d + 1;
    }
  }

  /** `_setup_PUD`: one pass over the PGD table; `pud_tables[g]` is the
      table made for PGD slot g. */
  method SetupPud(mem: PhysMemory, cr3: nat) returns (heap: Heap, pudTables: map<nat, Ref>)
    ensures Partial(mem, cr3, heap, 1, {}) && PudDict(mem, cr3, pudTables)
  {
    var heap0 := map[PgdRef := NewTable(PageWalker.Root(cr3), 0)];
    InitialPartial(mem, cr3);
    var kids;
    heap, kids := FillTable(mem, heap0, PgdRef);
    FillTableDone(mem, cr3, heap0, heap, PgdRef, 0, {});
    NextDepth(mem, cr3, heap, 0, {PgdRef});
    pudTables := map g | g in kids :: PudRef(g);
  }

  /** The bookkeeping of `_setup_PMD` part way through its loop over
      `pud_tables`: the PUD tables of the PGD slots in `todo` are still to be
      filled, the others are done, and `pmd_tables` holds what they made. */
  ghost predicate PmdPass(mem: PhysMemory, cr3: nat, pudTables: map<nat, Ref>,
                          pmdTables: map<(nat, nat), Ref>, todo: set<nat>, done: set<Ref>)
  {
    && todo <= pudTables.Keys
    && (forall c :: c in done <==> c.Under? && c.parent == PgdRef && c.index in pudTables && c.index !in todo)
    && (forall k: (nat, nat) :: k in pmdTables <==>
          k.0 in pudTables && k.0 !in todo && FreshAt(mem, cr3, PmdRef(k.0, k.1)).Some?)
    && (forall k: (nat, nat) :: k in pmdTables ==> pmdTables[k] == PmdRef(k.0, k.1))
  }

  /** `_setup_PMD`: one pass over every PUD table in `pud_tables`, in any
      order; `pmd_tables[(g, u)]` is the table made for slot u of the PUD
      table of PGD slot g. */
  method SetupPmd(mem: PhysMemory, cr3: nat, heap0: Heap, pudTables: map<nat, Ref>)
    returns (heap: Heap, pmdTables: map<(nat, nat), Ref>)
    requires Partial(mem, cr3, heap0, 1, {}) && PudDict(mem, cr3, pudTables)
    ensures Partial(mem, cr3, heap, 2, {}) && PmdDict(mem, cr3, pmdTables)
  {
    heap := heap0;
    pmdTables := map[];
    var todo := pudTables.Keys;
    var done: set<Ref> := {};
    while todo != {}
      invariant Partial(mem, cr3, heap, 1, done)
      invariant PmdPass(mem, cr3, pudTables, pmdTables, todo, done)
      decreases todo
    {
      var g :| g in todo;
      heap, pmdTables, done := PmdTurn(mem, cr3, pudTables, heap, pmdTables, todo, done, g);
      todo := todo - {g};
    }
    PmdPassEnd(mem, cr3, pudTables, heap, pmdTables, done);
  }

  /** One turn of the `_setup_PMD` loop: fill the PUD table of PGD slot g and
      add the PMD tables it made to `pmd_tables` under (g, u). */
  method PmdTurn(mem: PhysMemory, cr3: nat, pudTables: map<nat, Ref>, heap: Heap,
                 pmdTables: map<(nat, nat), Ref>, todo: set<nat>, done: set<Ref>, g: nat)
    returns (heap': Heap, pmdTables': map<(nat, nat), Ref>, done': set<Ref>)
    requires PudDict(mem, cr3, pudTables) && g in todo
    requires Partial(mem, cr3, heap, 1, done) && PmdPass(mem, cr3, pudTables, pmdTables, todo, done)
    ensures Partial(mem, cr3, heap', 1, done') && PmdPass(mem, cr3, pudTables, pmdTables', todo - {g}, done')
  {
    var kids;
    heap', kids := PmdFill(mem, cr3, pudTables, heap, pmdTables, todo, done, g);
    PmdPassStep(mem, cr3, pudTables, pmdTables, todo, done, g, kids);
    pmdTables' := AddPmds(pmdTables, g, kids);
    done' := done + {PudRef(g)};
  }

  /** The `table.add_entry` loop of a turn of `_setup_PMD`, run on the table
      `pud_tables[g]`. */
  method PmdFill(mem: PhysMemory, cr3: nat, pudTables: map<nat, Ref>, heap: Heap,
                 pmdTables: map<(nat, nat), Ref>, todo: set<nat>, done: set<Ref>, g: nat)
    returns (heap': Heap, kids: set<nat>)
    requires PudDict(mem, cr3, pudTables) && g in todo
    requires Partial(mem, cr3, heap, 1, done) && PmdPass(mem, cr3, pudTables, pmdTables, todo, done)
    ensures Partial(mem, cr3, heap', 1, done + {PudRef(g)})
    ensures forall j: nat :: j in kids <==> FreshAt(mem, cr3, Under(PudRef(g), j)).Some?
  {
    PmdReady(mem, cr3, pudTables, pmdTables, todo, done, g);
    heap', kids := FillNext(mem, cr3, heap, 1, done, pudTables[g]);
  }

  /** `pmd_tables` with the tables made for the slots `kids` of the PUD table
      of PGD slot g added under (g, u). */
  function AddPmds(pmdTables: map<(nat, nat), Ref>, g: nat, kids: set<nat>): map<(nat, nat), Ref>
  {
    pmdTables + map u | u in kids :: (g, u) := PmdRef(g, u)
  }

  /** The PUD table of a PGD slot still to do was made at depth 1 and is not
      done. */
  lemma PmdReady(mem: PhysMemory, cr3: nat, pudTables: map<nat, Ref>,
                 pmdTables: map<(nat, nat), Ref>, todo: set<nat>, done: set<Ref>, g: nat)
    requires PudDict(mem, cr3, pudTables) && PmdPass(mem, cr3, pudTables, pmdTables, todo, done) && g in todo
    ensures g in pudTables && pudTables[g] == PudRef(g)
    ensures FreshAt(mem, cr3, PudRef(g)).Some? && Depth(PudRef(g)) == 1 && PudRef(g) !in done
  {
  }

  lemma PmdPassStep(mem: PhysMemory, cr3: nat, pudTables: map<nat, Ref>,
                    pmdTables: map<(nat, nat), Ref>, todo: set<nat>, done: set<Ref>, g: nat, kids: set<nat>)
    requires PmdPass(mem, cr3, pudTables, pmdTables, todo, done) && g in todo
    requires forall j: nat :: j in kids <==> FreshAt(mem, cr3, Under(PudRef(g), j)).Some?
    ensures PmdPass(mem, cr3, pudTables, AddPmds(pmdTables, g, kids),
                    todo - {g}, done + {PudRef(g)})
  {
    PudDone(pudTables, done, todo, g);
    PmdDictStep(mem, cr3, pudTables, pmdTables, todo, g, kids);
  }

  /** The PUD tables done in a pass are those of the PGD slots taken off its
      to-do set. */
  lemma PudDone(pudTables: map<nat, Ref>, done: set<Ref>, todo: set<nat>, g: nat)
    requires g in todo && g in pudTables
    requires forall c :: c in done <==> c.Under? && c.parent == PgdRef && c.index in pudTables && c.index !in todo
    ensures forall c :: c in done + {PudRef(g)} <==>
      c.Under? && c.parent == PgdRef && c.index in pudTables && c.index !in todo - {g}
  {
  }

  /** `pmd_tables` after the PUD table of PGD slot g is done. */
  lemma PmdDictStep(mem: PhysMemory, cr3: nat, pudTables: map<nat, Ref>, pmdTables: map<(nat, nat), Ref>,
                    todo: set<nat>, g: nat, kids: set<nat>)
    requires g in todo && g in pudTables
    requires forall j: nat :: j in kids <==> FreshAt(mem, cr3, Under(PudRef(g), j)).Some?
    requires forall k: (nat, nat) :: k in pmdTables <==>
      k.0 in pudTables && k.0 !in todo && FreshAt(mem, cr3, PmdRef(k.0, k.1)).Some?
    requires forall k: (nat, nat) :: k in pmdTables ==> pmdTables[k] == PmdRef(k.0, k.1)
    ensures var m := AddPmds(pmdTables, g, kids);
      && (forall k: (nat, nat) :: k in m <==>
            k.0 in pudTables && k.0 !in todo - {g} && FreshAt(mem, cr3, PmdRef(k.0, k.1)).Some?)
      && (forall k: (nat, nat) :: k in m ==> m[k] == PmdRef(k.0, k.1))
  {
    var m := AddPmds(pmdTables, g, kids);
    forall k: (nat, nat)
      ensures k in m <==> k.0 in pudTables && k.0 !in todo - {g} && FreshAt(mem, cr3, PmdRef(k.0, k.1)).Some?
    {
      if k.0 == g {
        assert k in m <==> k.1 in kids;
      }
    }
  }

  lemma PmdPassEnd(mem: PhysMemory, cr3: nat, pudTables: map<nat, Ref>, heap: Heap,
                   pmdTables: map<(nat, nat), Ref>, done: set<Ref>)
    requires PudDict(mem, cr3, pudTables) && Partial(mem, cr3, heap, 1, done)
    requires PmdPass(mem, cr3, pudTables, pmdTables, {}, done)
    ensures Partial(mem, cr3, heap, 2, {}) && PmdDict(mem, cr3, pmdTables)
  {
    forall c | c in heap && Depth(c) == 1
      ensures c in done
    {
      assert c == PudRef(c.index);
    }
    NextDepth(mem, cr3, heap, 1, done);
    forall k: (nat, nat) | FreshAt(mem, cr3, PmdRef(k.0, k.1)).Some?
      ensures k in pmdTables
    {
      assert FreshAt(mem, cr3, PudRef(k.0)).Some?;
    }
  }

  /** The bookkeeping of `_setup_PTE` part way through its loop over
      `pmd_tables`: the PMD tables of the index pairs in `todo` are still to
      be filled, the others are done, and `pte_tables` holds what they made. */
  ghost predicate PtePass(mem: PhysMemory, cr3: nat, pmdTables: map<(nat, nat), Ref>,
                          pteTables: map<(nat, nat, nat), Ref>, todo: set<(nat, nat)>, done: set<Ref>)
  {
    && todo <= pmdTables.Keys
    && (forall c :: c in done <==>
          && c.Under? && c.parent.Under? && c.parent.parent == PgdRef
          && (c.parent.index, c.index) in pmdTables && (c.parent.index, c.index) !in todo)
    && (forall k: (nat, nat, nat) :: k in pteTables <==>
          (k.0, k.1) in pmdTables && (k.0, k.1) !in todo && FreshAt(mem, cr3, PteRef(k.0, k.1, k.2)).Some?)
    && (forall k: (nat, nat, nat) :: k in pteTables ==> pteTables[k] == PteRef(k.0, k.1, k.2))
  }

  /** `_setup_PTE`: one pass over every PMD table in `pmd_tables`, in any
      order; `pte_tables[(g, u, m)]` is the PT table made for slot m of the
      PMD table at index pair (g, u). */
  method SetupPte(mem: PhysMemory, cr3: nat, heap0: Heap, pmdTables: map<(nat, nat), Ref>)
    returns (heap: Heap, pteTables: map<(nat, nat, nat), Ref>)
    requires Partial(mem, cr3, heap0, 2, {}) && PmdDict(mem, cr3, pmdTables)
    ensures Partial(mem, cr3, heap, 3, {}) && PteDict(mem, cr3, pteTables)
  {
    heap := heap0;
    pteTables := map[];
    var todo := pmdTables.Keys;
    var done: set<Ref> := {};
    while todo != {}
      invariant Partial(mem, cr3, heap, 2, done)
      invariant PtePass(mem, cr3, pmdTables, pteTables, todo, done)
      decreases todo
    {
      var k :| k in todo;
      heap, pteTables, done := PteTurn(mem, cr3, pmdTables, heap, pteTables, todo, done, k);
      todo := todo - {k};
    }
    PtePassEnd(mem, cr3, pmdTables, heap, pteTables, done);
  }

  /** One turn of the `_setup_PTE` loop: fill the PMD table of index pair k
      and add the PT tables it made to `pte_tables` under (k.0, k.1, m). */
  method PteTurn(mem: PhysMemory, cr3: nat, pmdTables: map<(nat, nat), Ref>, heap: Heap,
                 pteTables: map<(nat, nat, nat), Ref>, todo: set<(nat, nat)>, done: set<Ref>, k: (nat, nat))
    returns (heap': Heap, pteTables': map<(nat, nat, nat), Ref>, done': set<Ref>)
    requires PmdDict(mem, cr3, pmdTables) && k in todo
    requires Partial(mem, cr3, heap, 2, done) && PtePass(mem, cr3, pmdTables, pteTables, todo, done)
    ensures Partial(mem, cr3, heap', 2, done') && PtePass(mem, cr3, pmdTables, pteTables', todo - {k}, done')
  {
    var kids;
    heap', kids := PteFill(mem, cr3, pmdTables, heap, pteTables, todo, done, k);
    PtePassStep(mem, cr3, pmdTables, pteTables, todo, done, k, kids);
    pteTables' := AddPtes(pteTables, k, kids);
    done' := done + {PmdRef(k.0, k.1)};
  }

  /** The `table.add_entry` loop of a turn of `_setup_PTE`, run on the table
      `pmd_tables[k]`. */
  method PteFill(mem: PhysMemory, cr3: nat, pmdTables: map<(nat, nat), Ref>, heap: Heap,
                 pteTables: map<(nat, nat, nat), Ref>, todo: set<(nat, nat)>, done: set<Ref>, k: (nat, nat))
    returns (heap': Heap, kids: set<nat>)
    requires PmdDict(mem, cr3, pmdTables) && k in todo
    requires Partial(mem, cr3, heap, 2, done) && PtePass(mem, cr3, pmdTables, pteTables, todo, done)
    ensures Partial(mem, cr3, heap', 2, done + {PmdRef(k.0, k.1)})
    ensures forall j: nat :: j in kids <==> FreshAt(mem, cr3, Under(PmdRef(k.0, k.1), j)).Some?
  {
    PteReady(mem, cr3, pmdTables, pteTables, todo, done, k);
    heap', kids := FillNext(mem, cr3, heap, 2, done, pmdTables[k]);
  }

  /** `pte_tables` with the tables made for the slots `kids` of the PMD table
      of index pair k added under (k.0, k.1, m). */
  function AddPtes(pteTables: map<(nat, nat, nat), Ref>, k: (nat, nat), kids: set<nat>): map<(nat, nat, nat), Ref>
  {
    pteTables + map m | m in kids :: (k.0, k.1, m) := PteRef(k.0, k.1, m)
  }

  /** The PMD table of a pair still to do was made at depth 2 and is not done. */
  lemma PteReady(mem: PhysMemory, cr3: nat, pmdTables: map<(nat, nat), Ref>,
                 pteTables: map<(nat, nat, nat), Ref>, todo: set<(nat, nat)>, done: set<Ref>, k: (nat, nat))
    requires PmdDict(mem, cr3, pmdTables) && PtePass(mem, cr3, pmdTables, pteTables, todo, done) && k in todo
    ensures k in pmdTables && pmdTables[k] == PmdRef(k.0, k.1)
    ensures FreshAt(mem, cr3, PmdRef(k.0, k.1)).Some? && Depth(PmdRef(k.0, k.1)) == 2 && PmdRef(k.0, k.1) !in done
  {
  }

  lemma PtePassStep(mem: PhysMemory, cr3: nat, pmdTables: map<(nat, nat), Ref>,
                    pteTables: map<(nat, nat, nat), Ref>, todo: set<(nat, nat)>, done: set<Ref>,
                    k: (nat, nat), kids: set<nat>)
    requires PtePass(mem, cr3, pmdTables, pteTables, todo, done) && k in todo
    requires forall j: nat :: j in kids <==> FreshAt(mem, cr3, Under(PmdRef(k.0, k.1), j)).Some?
    ensures PtePass(mem, cr3, pmdTables, AddPtes(pteTables, k, kids),
                    todo - {k}, done + {PmdRef(k.0, k.1)})
  {
    PmdDone(pmdTables, done, todo, k);
    PteDictStep(mem, cr3, pmdTables, pteTables, todo, k, kids);
  }

  /** The PMD tables done in a pass are those of the index pairs taken off
      its to-do set. */
  lemma PmdDone(pmdTables: map<(nat, nat), Ref>, done: set<Ref>, todo: set<(nat, nat)>, k: (nat, nat))
    requires k in todo && k in pmdTables
    requires forall c :: c in done <==>
      && c.Under? && c.parent.Under? && c.parent.parent == PgdRef
      && (c.parent.index, c.index) in pmdTables && (c.parent.index, c.index) !in todo
    ensures forall c :: c in done + {PmdRef(k.0, k.1)} <==>
      && c.Under? && c.parent.Under? && c.parent.parent == PgdRef
      && (c.parent.index, c.index) in pmdTables && (c.parent.index, c.index) !in todo - {k}
  {
  }

  /** `pte_tables` after the PMD table of index pair k is done. */
  lemma PteDictStep(mem: PhysMemory, cr3: nat, pmdTables: map<(nat, nat), Ref>,
                    pteTables: map<(nat, nat, nat), Ref>, todo: set<(nat, nat)>, k: (nat, nat), kids: set<nat>)
    requires k in todo && k in pmdTables
    requires forall j: nat :: j in kids <==> FreshAt(mem, cr3, Under(PmdRef(k.0, k.1), j)).Some?
    requires forall t: (nat, nat, nat) :: t in pteTables <==>
      (t.0, t.1) in pmdTables && (t.0, t.1) !in todo && FreshAt(mem, cr3, PteRef(t.0, t.1, t.2)).Some?
    requires forall t: (nat, nat, nat) :: t in pteTables ==> pteTables[t] == PteRef(t.0, t.1, t.2)
    ensures var m := AddPtes(pteTables, k, kids);
      && (forall t: (nat, nat, nat) :: t in m <==>
            (t.0, t.1) in pmdTables && (t.0, t.1) !in todo - {k} && FreshAt(mem, cr3, PteRef(t.0, t.1, t.2)).Some?)
      && (forall t: (nat, nat, nat) :: t in m ==> m[t] == PteRef(t.0, t.1, t.2))
  {
    var m := AddPtes(pteTables, k, kids);
    forall t: (nat, nat, nat)
      ensures t in m <==>
        (t.0, t.1) in pmdTables && (t.0, t.1) !in todo - {k} && FreshAt(mem, cr3, PteRef(t.0, t.1, t.2)).Some?
    {
      if (t.0, t.1) == k {
        assert t in m <==> t.2 in kids;
      }
    }
  }

  lemma PtePassEnd(mem: PhysMemory, cr3: nat, pmdTables: map<(nat, nat), Ref>, heap: Heap,
                   pteTables: map<(nat, nat, nat), Ref>, done: set<Ref>)
    requires PmdDict(mem, cr3, pmdTables) && Partial(mem, cr3, heap, 2, done)
    requires PtePass(mem, cr3, pmdTables, pteTables, {}, done)
    ensures Partial(mem, cr3, heap, 3, {}) && PteDict(mem, cr3, pteTables)
  {
    forall c | c in heap && Depth(c) == 2
      ensures c in done
    {
      assert c == PmdRef(c.parent.index, c.index);
    }
    NextDepth(mem, cr3, heap, 2, done);
    forall t: (nat, nat, nat) | FreshAt(mem, cr3, PteRef(t.0, t.1, t.2)).Some?
      ensures t in pteTables
    {
      assert FreshAt(mem, cr3, PmdRef(t.0, t.1)).Some?;
    }
  }

  /** `MemoryMapper(cr3)`: the PGD table at `cr3 & ~0xfff`, then the three
      passes. The heap holds exactly the tables the builder makes, each as it
      leaves them, and the dictionaries name them by index. */
  method NewMapper(mem: PhysMemory, cr3: nat) returns (m: MemoryMapper)
    ensures Complete(mem, cr3, m.heap) && DictsBuilt(mem, cr3, m)
  {
    var heap1, pudTables := SetupPud(mem, cr3);
    var heap2, pmdTables := SetupPmd(mem, cr3, heap1, pudTables);
    var heap3, pteTables := SetupPte(mem, cr3, heap2, pmdTables);
    PartialThreeIsComplete(mem, cr3, heap3);
    m := MemoryMapper(heap3, pudTables, pmdTables, pteTables);
  }

  /** `MemoryMapper`: the PGD table, and the three dictionaries from index
      tuples to the tables made for them. */
  datatype MemoryMapper = MemoryMapper(
    heap: Heap,
    pudTables: map<nat, Ref>,
    pmdTables: map<(nat, nat), Ref>,
    pteTables: map<(nat, nat, nat), Ref>)

  /** The names of the tables made for a PGD slot, a PUD slot and a PMD slot. */
  function PudRef(g: nat): Ref { Under(PgdRef, g) }
  function PmdRef(g: nat, u: nat): Ref { Under(PudRef(g), u) }
  function PteRef(g: nat, u: nat, m: nat): Ref { Under(PmdRef(g, u), m) }

  /** The three dictionaries hold exactly the tables made, each under its
      index tuple. */
  ghost predicate DictsBuilt(mem: PhysMemory, cr3: nat, m: MemoryMapper)
  {
    PudDict(mem, cr3, m.pudTables) && PmdDict(mem, cr3, m.pmdTables) && PteDict(mem, cr3, m.pteTables)
  }

  /** `pud_tables`: the table made for each PGD slot, under its index. */
  ghost predicate PudDict(mem: PhysMemory, cr3: nat, pudTables: map<nat, Ref>)
  {
    && (forall g :: g in pudTables <==> FreshAt(mem, cr3, PudRef(g)).Some?)
    && (forall g :: g in pudTables ==> pudTables[g] == PudRef(g))
  }

  /** `pmd_tables`: the table made for each PUD slot, under its index pair. */
  ghost predicate PmdDict(mem: PhysMemory, cr3: nat, pmdTables: map<(nat, nat), Ref>)
  {
    && (forall k: (nat, nat) :: k in pmdTables <==> FreshAt(mem, cr3, PmdRef(k.0, k.1)).Some?)
    && (forall k: (nat, nat) :: k in pmdTables ==> pmdTables[k] == PmdRef(k.0, k.1))
  }

  /** `pte_tables`: the table made for each PMD slot, under its index triple. */
  ghost predicate PteDict(mem: PhysMemory, cr3: nat, pteTables: map<(nat, nat, nat), Ref>)
  {
    && (forall k: (nat, nat, nat) :: k in pteTables <==> FreshAt(mem, cr3, PteRef(k.0, k.1, k.2)).Some?)
    && (forall k: (nat, nat, nat) :: k in pteTables ==> pteTables[k] == PteRef(k.0, k.1, k.2))
  }
}
