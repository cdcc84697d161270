/** The single-address page walker of pagewalker.py: one virtual address is
    taken through the four levels of x86-64 4-level paging (PGD, PUD, PMD, PT)
    by reading one 64-bit entry per level from physical memory.

    The debugger's `monitor xp/gx` read becomes the `Memory` parameter and the
    `$cr3` register becomes the `cr3` parameter. */
module PageWalker {
  import opened Common
  import opened Bits
  import opened Hex

  /** Physical memory as the monitor shows it: the 64-bit word at an address,
      or None where the monitor answers "Cannot access memory". */
  type Memory = nat -> Option<u64>

  const SIZE_4K: nat := 0x1000
  const SIZE_2M: nat := 0x20_0000
  const SIZE_1G: nat := 0x4000_0000
  /** 1 << 51: the walker keeps physical addresses below this bound. */
  const LIMIT_51: nat := 0x8_0000_0000_0000
  /** 1 << 63: the final 4 KiB frame is cut below this bound. */
  const LIMIT_63: nat := 0x8000_0000_0000_0000

  /** The walk state of one `Page` object after `pgd_scan`. The four slot
      fields are the physical addresses of the entries read at each level;
      `phys` is the translated address. */
  datatype Page = Page(
    virtual: nat,
    indexes: seq<nat>,
    pgd: Option<nat>,
    pud: Option<nat>,
    pmd: Option<nat>,
    pt: Option<nat>,
    huge: bool,
    phys: Option<nat>,
    broken: bool)

  /** `Page.get_indexes`: the byte offsets of the four slots the address
      selects, PGD first. Each is a 9-bit index times 8. */
  function Indexes(virt: nat): (ix: seq<nat>)
    ensures |ix| == 4
    ensures forall k :: 0 <= k < 4 ==> ix[k] % 8 == 0 && ix[k] <= 511 * 8
    ensures ix[0] == 8 * (virt / 0x80_0000_0000 % 512)
    ensures ix[1] == 8 * (virt / 0x4000_0000 % 512)
    ensures ix[2] == 8 * (virt / 0x20_0000 % 512)
    ensures ix[3] == 8 * (virt / 0x1000 % 512)
  {
    // addr >> 12, then ((addr >> 9*i) & 0x1FF) * 8 for i = 0..3, reversed.
    var a := virt / 0x1000;
    PageNumberShifts(virt);
    [a / 0x800_0000 % 512 * 8, a / 0x4_0000 % 512 * 8, a / 0x200 % 512 * 8, a % 512 * 8]
  }

  /** Shifting the page number right by 9, 18 and 27 bits is shifting the
      address right by 21, 30 and 39. */
  lemma PageNumberShifts(virt: nat)
    ensures virt / 0x1000 / 0x200 == virt / 0x20_0000
    ensures virt / 0x1000 / 0x4_0000 == virt / 0x4000_0000
    ensures virt / 0x1000 / 0x800_0000 == virt / 0x80_0000_0000
  {
    DivDiv(virt, 0x1000, 0x200);
    DivDiv(virt, 0x1000, 0x4_0000);
    DivDiv(virt, 0x1000, 0x800_0000);
  }

  /** `Page.huge_1gb`: bits 30..50 of the entry, then the low 30 bits of the
      virtual address. */
  function Huge1G(virt: nat, entry: nat): (r: nat)
    ensures r % SIZE_1G == virt % SIZE_1G
    ensures r / SIZE_1G == entry % LIMIT_51 / SIZE_1G
    ensures r < LIMIT_51
  {
    entry % LIMIT_51 / SIZE_1G * SIZE_1G + virt % SIZE_1G
  }

  /** `Page.huge_2mb`: bits 21..50 of the entry, then the low 21 bits of the
      virtual address. */
  function Huge2M(virt: nat, entry: nat): (r: nat)
    ensures r % SIZE_2M == virt % SIZE_2M
    ensures r / SIZE_2M == entry % LIMIT_51 / SIZE_2M
    ensures r < LIMIT_51
  {
    entry % LIMIT_51 / SIZE_2M * SIZE_2M + virt % SIZE_2M
  }

  /** What `get_phys_address` makes of a readable entry: the raw entry when
      bit 7 is set, otherwise the entry with bits 0..11 and bits 51 and up
      cleared. */
  function EntryTarget(entry: nat): nat
  {
    if PageSizeSet(entry) then entry else entry % LIMIT_51 / SIZE_4K * SIZE_4K
  }

  /** `Page.get_phys_address`: one read. The first component is the method's
      result, the second the `huge` field afterwards. The Present bit is not
      looked at. */
  function GetPhysAddress(mem: Memory, address: nat, huge: bool): (r: (Option<nat>, bool))
    ensures r.0.None? <==> mem(address).None?
    ensures mem(address).None? ==> r.1 == huge
    ensures mem(address).Some? && PageSizeSet(mem(address).value) ==>
      r == (Some(mem(address).value), true)
    ensures mem(address).Some? && !PageSizeSet(mem(address).value) ==>
      && r.1 == huge
      && r.0.value % SIZE_4K == 0
      && r.0.value < LIMIT_51
      && r.0.value / SIZE_4K == mem(address).value % LIMIT_51 / SIZE_4K
  {
    match mem(address)
    case None => (None, huge)
    case Some(v) => if PageSizeSet(v) then (Some(v), true) else (Some(EntryTarget(v)), huge)
  }

  /** `set_cr3`: the register with its low 12 control bits cleared. */
  function Root(cr3: nat): (r: nat)
    ensures r % SIZE_4K == 0 && r <= cr3 < r + SIZE_4K
  {
    cr3 / SIZE_4K * SIZE_4K
  }

  /** The entry read at a slot is readable and has bit 7 set. */
  predicate HugeAt(mem: Memory, slot: nat)
  {
    mem(slot).Some? && PageSizeSet(mem(slot).value)
  }

  /** What `get_phys_address` returns for a readable slot. */
  function Target(mem: Memory, slot: nat): nat
    requires mem(slot).Some?
  {
    EntryTarget(mem(slot).value)
  }

  /** One read in the terms of the walk description: the slot's target when
      it is readable, and `huge` set once an entry with bit 7 was read. */
  lemma ReadIsTarget(mem: Memory, slot: nat, huge: bool)
    ensures GetPhysAddress(mem, slot, huge).0 == if mem(slot).Some? then Some(Target(mem, slot)) else None
    ensures GetPhysAddress(mem, slot, huge).1 == (huge || HugeAt(mem, slot))
  {
  }

  /** What a finished walk of `virt` looks like, stated level by level
      against memory rather than as a sequence of steps: which slots were
      reached, how each is computed from the entry read before it, which of
      the three page sizes the translation came from, and when the walk is
      broken. */
  ghost predicate IsWalkOf(mem: Memory, cr3: nat, virt: nat, p: Page)
  {
    && p.virtual == virt && p.indexes == Indexes(virt)
    && p.pgd == Some(Root(cr3) + Indexes(virt)[0])
    // one slot per level, each computed from the previous read
    && (p.pud.Some? <==> mem(p.pgd.value).Some?)
    && (p.pud.Some? ==> p.pud.value == Target(mem, p.pgd.value) + Indexes(virt)[1])
    && (p.pmd.Some? <==>
         && p.pud.Some? && mem(p.pud.value).Some?
         && !HugeAt(mem, p.pgd.value) && !HugeAt(mem, p.pud.value))
    && (p.pmd.Some? ==> p.pmd.value == Target(mem, p.pud.value) + Indexes(virt)[2])
    && (p.pt.Some? <==> p.pmd.Some? && mem(p.pmd.value).Some? && !HugeAt(mem, p.pmd.value))
    && (p.pt.Some? ==> p.pt.value == Target(mem, p.pmd.value) + Indexes(virt)[3])
    // the three ways to a translation
    && (p.pud.Some? && mem(p.pud.value).Some? && (HugeAt(mem, p.pgd.value) || HugeAt(mem, p.pud.value)) ==>
         p.phys == Some(Huge1G(virt, Target(mem, p.pud.value))))
    && (p.pmd.Some? && HugeAt(mem, p.pmd.value) ==>
         p.phys == Some(Huge2M(virt, Target(mem, p.pmd.value))))
    && (p.pt.Some? && mem(p.pt.value).Some? ==>
         p.phys == Some(Target(mem, p.pt.value) % LIMIT_63 / SIZE_4K * SIZE_4K))
    // faults: the first unreadable slot ends the walk without a translation
    && (p.broken <==>
         || mem(p.pgd.value).None?
         || (p.pud.Some? && mem(p.pud.value).None?)
         || (p.pmd.Some? && mem(p.pmd.value).None?)
         || (p.pt.Some? && mem(p.pt.value).None?))
    && (p.broken <==> p.phys.None?)
    // `huge` is set by any entry read with bit 7, and never reset
    && (p.huge <==>
         || HugeAt(mem, p.pgd.value)
         || (p.pud.Some? && HugeAt(mem, p.pud.value))
         || (p.pmd.Some? && HugeAt(mem, p.pmd.value))
         || (p.pt.Some? && HugeAt(mem, p.pt.value)))
  }

  /** `Page.pgd_scan` for the address `virt`: the walk stops at the first
      unreadable slot (`broken`), short-circuits through `huge_1gb` after the
      PUD read and through `huge_2mb` after the PMD read once any entry read
      so far had bit 7 set, and otherwise ends on a 4 KiB frame. */
  function Scan(mem: Memory, cr3: nat, virt: nat): (p: Page)
    ensures IsWalkOf(mem, cr3, virt, p)
  {
    var ix := Indexes(virt);
    var pgd := Root(cr3) + ix[0];
    ReadIsTarget(mem, pgd, false);
    var (pudStart, huge1) := GetPhysAddress(mem, pgd, false);
    if pudStart.None? then
      Page(virt, ix, Some(pgd), None, None, None, huge1, None, true)
    else
      var pud := pudStart.value + ix[1];
      ReadIsTarget(mem, pud, huge1);
      var (pmdStart, huge2) := GetPhysAddress(mem, pud, huge1);
      if pmdStart.None? then
        Page(virt, ix, Some(pgd), Some(pud), None, None, huge2, None, true)
      else if huge2 then
        Page(virt, ix, Some(pgd), Some(pud), None, None, huge2, Some(Huge1G(virt, pmdStart.value)), false)
      else
        var pmd := pmdStart.value + ix[2];
        ReadIsTarget(mem, pmd, huge2);
        var (ptStart, huge3) := GetPhysAddress(mem, pmd, huge2);
        if ptStart.None? then
          Page(virt, ix, Some(pgd), Some(pud), Some(pmd), None, huge3, None, true)
        else if huge3 then
          Page(virt, ix, Some(pgd), Some(pud), Some(pmd), None, huge3, Some(Huge2M(virt, ptStart.value)), false)
        else
          var pt := ptStart.value + ix[3];
          ReadIsTarget(mem, pt, huge3);
          var (physStart, huge4) := GetPhysAddress(mem, pt, huge3);
          if physStart.Some? then
            Page(virt, ix, Some(pgd), Some(pud), Some(pmd), Some(pt), huge4,
                 Some(physStart.value % LIMIT_63 / SIZE_4K * SIZE_4K), false)
          else
            Page(virt, ix, Some(pgd), Some(pud), Some(pmd), Some(pt), huge4, None, true)
  }

  /** The description pins the walk down: only the result of `Scan` fits it. */
  lemma WalkIsUnique(mem: Memory, cr3: nat, virt: nat, p: Page, q: Page)
    requires IsWalkOf(mem, cr3, virt, p) && IsWalkOf(mem, cr3, virt, q)
    ensures p == q
  {
  }

  /** The slots a walk read, in order. */
  function SlotsRead(p: Page): seq<nat>
  {
    (if p.pgd.Some? then [p.pgd.value] else [])
    + (if p.pud.Some? then [p.pud.value] else [])
    + (if p.pmd.Some? then [p.pmd.value] else [])
    + (if p.pt.Some? then [p.pt.value] else [])
  }

  /** Whether a walk description holds depends on memory only at the slots the
      walk records. */
  lemma WalkOfOtherMemory(mem1: Memory, mem2: Memory, cr3: nat, virt: nat, p: Page)
    requires IsWalkOf(mem1, cr3, virt, p)
    requires forall a :: a in SlotsRead(p) ==> mem1(a) == mem2(a)
    ensures IsWalkOf(mem2, cr3, virt, p)
  {
    var slots := SlotsRead(p);
    assert slots[0] == p.pgd.value;
    assert mem1(p.pgd.value) == mem2(p.pgd.value);
    if p.pud.Some? {
      assert slots[1] == p.pud.value;
      assert mem1(p.pud.value) == mem2(p.pud.value);
      if p.pmd.Some? {
        assert slots[2] == p.pmd.value;
        assert mem1(p.pmd.value) == mem2(p.pmd.value);
        if p.pt.Some? {
          assert slots[3] == p.pt.value;
          assert mem1(p.pt.value) == mem2(p.pt.value);
        }
      }
    }
  }

  /** A walk depends on memory only at the slots it records: two memories that
      agree there give the same walk. So a walk that stops early (a fault or a
      huge page) reads nothing beyond its last recorded slot. */
  lemma ScanReadsOnlyItsSlots(mem1: Memory, mem2: Memory, cr3: nat, virt: nat)
    requires forall a :: a in SlotsRead(Scan(mem1, cr3, virt)) ==> mem1(a) == mem2(a)
    ensures Scan(mem2, cr3, virt) == Scan(mem1, cr3, virt)
  {
    var p1 := Scan(mem1, cr3, virt);
    WalkOfOtherMemory(mem1, mem2, cr3, virt, p1);
    WalkIsUnique(mem2, cr3, virt, p1, Scan(mem2, cr3, virt));
  }

  /** The Present bit plays no part: a readable PGD entry whose bit 0 is clear
      still leads the walk on to the PUD level. */
  lemma NotPresentStillWalks(mem: Memory, cr3: nat, virt: nat)
    requires mem(Root(cr3) + Indexes(virt)[0]).Some?
    requires mem(Root(cr3) + Indexes(virt)[0]).value % 2 == 0
    ensures Scan(mem, cr3, virt).pud.Some?
  {
  }

  /** The start of the 4 KiB virtual page holding virt. */
  function PageBase(virt: nat): nat
  {
    virt / SIZE_4K * SIZE_4K
  }

  /** A walk that ends on a 4 KiB frame answers the frame itself: unlike the
      1 GiB and 2 MiB cases no page offset is added, so the translation is
      4 KiB-aligned and the same for every address of the virtual page. */
  lemma FourKFrameHasNoOffset(mem: Memory, cr3: nat, virt: nat)
    requires Scan(mem, cr3, virt).pt.Some? && !Scan(mem, cr3, virt).broken
    ensures Scan(mem, cr3, virt).phys.value % SIZE_4K == 0
    ensures Scan(mem, cr3, PageBase(virt)).phys == Scan(mem, cr3, virt).phys
  {
    var base := PageBase(virt);
    var p := Scan(mem, cr3, virt);
    FourKWalk(mem, cr3, virt, p);
    WalkIsUnique(mem, cr3, base, p.(virtual := base), Scan(mem, cr3, base));
  }

  /** The same, for any walk fitting the description. */
  lemma FourKWalk(mem: Memory, cr3: nat, virt: nat, p: Page)
    requires IsWalkOf(mem, cr3, virt, p) && p.pt.Some? && !p.broken
    ensures p.phys.value % SIZE_4K == 0
    ensures IsWalkOf(mem, cr3, PageBase(virt), p.(virtual := PageBase(virt)))
  {
    var x := Target(mem, p.pt.value) % LIMIT_63 / SIZE_4K;
    DivUnique(x * SIZE_4K, SIZE_4K, x, 0);
    IndexesOfPageBase(virt);
  }

  /** The slots a walk reads depend on the virtual page only. */
  lemma IndexesOfPageBase(virt: nat)
    ensures Indexes(PageBase(virt)) == Indexes(virt)
  {
    var base := PageBase(virt);
    DivUnique(base, SIZE_4K, virt / SIZE_4K, 0);
    DivDiv(base, SIZE_4K, 0x200);
    DivDiv(virt, SIZE_4K, 0x200);
    DivDiv(base, SIZE_4K, 0x4_0000);
    DivDiv(virt, SIZE_4K, 0x4_0000);
    DivDiv(base, SIZE_4K, 0x800_0000);
    DivDiv(virt, SIZE_4K, 0x800_0000);
  }

  /** `format_output`: each address as `hex()` writes it, "N/A" where absent.
      Reading the text back with `int(s, 16)` recovers the addresses. */
  function FormatOutput(addresses: seq<Option<nat>>): (out: seq<string>)
    ensures |out| == |addresses|
    ensures forall i :: 0 <= i < |out| ==> ParseHex(out[i]) == addresses[i]
    ensures forall i :: 0 <= i < |out| ==>
      out[i] == if addresses[i].Some? then ToHex(addresses[i].value) else "N/A"
  {
    assert !IsHexDigit('N');
    ParseToHexAll();
    seq(|addresses|, i requires 0 <= i < |addresses| =>
      match addresses[i]
      case Some(a) => ToHex(a)
      case None => "N/A")
  }

  /** The `Page(address_str)` constructor: `int(address_str, 16)`, then the
      walk. None where `int()` raises. */
  function NewPage(mem: Memory, cr3: nat, address: string): (r: Option<Page>)
    ensures r.Some? <==> ParseHex(address).Some?
    ensures r.Some? ==> r.value == Scan(mem, cr3, ParseHex(address).value)
  {
    match ParseHex(address)
    case None => None
    case Some(virt) => Some(Scan(mem, cr3, virt))
  }

  /** `Page(hex(i))` walks `i` itself: `int(hex(i), 16)` gives back `i`. */
  lemma PageOfHex(mem: Memory, cr3: nat, virt: nat)
    ensures NewPage(mem, cr3, ToHex(virt)) == Some(Walker(mem, cr3)(virt))
  {
    ParseToHex(virt);
  }

  /** A walk through a 2 MiB page: readable PGD and PUD entries without bit 7
      and a readable PMD entry with bit 7 give a walk of three slots that is
      not broken, sets `huge`, and adds the low 21 bits of the address to the
      PMD entry's frame. */
  lemma HugePmdWalk(mem: Memory, cr3: nat, virt: nat)
    requires var pgd := Root(cr3) + Indexes(virt)[0];
      && mem(pgd).Some? && !PageSizeSet(mem(pgd).value)
      && var pud := Target(mem, pgd) + Indexes(virt)[1];
      && mem(pud).Some? && !PageSizeSet(mem(pud).value)
      && var pmd := Target(mem, pud) + Indexes(virt)[2];
      && mem(pmd).Some? && PageSizeSet(mem(pmd).value)
    ensures var p := Scan(mem, cr3, virt);
      && p.pmd.Some? && p.pt.None? && p.huge && !p.broken
      && p.phys == Some(Huge2M(virt, mem(p.pmd.value).value))
  {
  }

  /** A worked walk: PGD[0] and PUD[0] point at the next tables and PMD[0] is
      a 2 MiB page at 0x4000_0000. The walk reads three slots and adds the low
      21 bits of the address to the huge frame. */
  lemma HugePmdExample()
    ensures
      var mem: Memory := a =>
        if a == 0x1000 then Some(0x2003)
        else if a == 0x2000 then Some(0x3003)
        else if a == 0x3000 then Some(0x4000_0083)
        else None;
      Scan(mem, 0x1000, 0x1234)
        == Page(0x1234, [0, 0, 0, 8], Some(0x1000), Some(0x2000), Some(0x3000), None, true, Some(0x4000_1234), false)
  {
    var mem: Memory := a =>
      if a == 0x1000 then Some(0x2003)
      else if a == 0x2000 then Some(0x3003)
      else if a == 0x3000 then Some(0x4000_0083)
      else None;
    assert Indexes(0x1234) == [0, 0, 0, 8];
    assert GetPhysAddress(mem, 0x1000, false) == (Some(0x2000), false);
    assert GetPhysAddress(mem, 0x2000, false) == (Some(0x3000), false);
    assert GetPhysAddress(mem, 0x3000, false) == (Some(0x4000_0083), true);
    assert Huge2M(0x1234, 0x4000_0083) == 0x4000_1234;
  }

  /** The text `pgd_phys_search` is looking for: the translated address as
      `hex()` writes it. */
  predicate IsHit(p: Page, target: string)
  {
    p.phys.Some? && target == ToHex(p.phys.value)
  }

  /** The k-th value of `range(start, end, step)`, before the end test. */
  function RangeAt(start: nat, step: nat, k: nat): nat
  {
    start + k * step
  }

  lemma RangeAtNext(start: nat, step: nat, k: nat)
    ensures RangeAt(start, step, k + 1) == RangeAt(start + step, step, k)
  {
    assert (k + 1) * step == k * step + step;
  }

  /** What `pgd_phys_search` prints: the matching addresses, and the address
      at which it stopped on an unreadable walk, if it did. */
  datatype SearchReport = SearchReport(hits: seq<nat>, unreadable: Option<nat>)

  /** The addresses of the range that were walked: those below the end, or
      below the unreadable address where the search stopped. */
  function Bound(r: SearchReport, end: nat): nat
  {
    if r.unreadable.Some? then r.unreadable.value else end
  }

  /** The search as a recursive reference definition: `walk(i)` stands for
      `Page(hex(i))`, a broken walk stops the search, and a hit is reported. */
  function Search(walk: nat -> Page, i: nat, end: nat, step: nat, target: string): SearchReport
    requires step > 0
    decreases if i < end then end - i else 0
  {
    if i >= end then SearchReport([], None)
    else if walk(i).broken then SearchReport([], Some(i))
    else
      var rest := Search(walk, i + step, end, step, target);
      if IsHit(walk(i), target) then SearchReport([i] + rest.hits, rest.unreadable) else rest
  }

  /** The addresses are strictly increasing. */
  predicate Increasing(s: seq<nat>)
  {
    forall a, b :: 0 <= a < b < |s| ==> s[a] < s[b]
  }

  /** x is one of the values `range(start, _, step)` steps through. */
  ghost predicate OnRange(start: nat, step: nat, x: nat)
  {
    exists k: nat :: x == RangeAt(start, step, k)
  }

  /** A value on the range after the first one is on the range that starts one
      step later, and the first value is on every range it starts. */
  lemma OnRangeShift(start: nat, step: nat, x: nat)
    ensures OnRange(start, step, start)
    ensures OnRange(start + step, step, x) ==> OnRange(start, step, x)
  {
    assert start == RangeAt(start, step, 0);
    if OnRange(start + step, step, x) {
      var k: nat :| x == RangeAt(start + step, step, k);
      RangeAtNext(start, step, k);
    }
  }

  /** The address a report ends at on an unreadable walk lies on the range,
      below its end, and its walk is the broken one. */
  lemma {:induction false} SearchStopsAtBroken(walk: nat -> Page, i: nat, end: nat, step: nat, target: string)
    requires step > 0
    ensures var r := Search(walk, i, end, step, target);
      r.unreadable.Some? ==>
        && i <= r.unreadable.value < end && walk(r.unreadable.value).broken
        && OnRange(i, step, r.unreadable.value)
    decreases if i < end then end - i else 0
  {
    if i < end {
      var r := Search(walk, i, end, step, target);
      OnRangeShift(i, step, i);
      if !walk(i).broken {
        SearchStopsAtBroken(walk, i + step, end, step, target);
        var rest := Search(walk, i + step, end, step, target);
        assert r.unreadable == rest.unreadable;
        if rest.unreadable.Some? {
          OnRangeShift(i, step, rest.unreadable.value);
        }
      }
    }
  }

  /** Every hit lies on the range, from `i` up to the bound. */
  lemma {:induction false} SearchHitsInRange(walk: nat -> Page, i: nat, end: nat, step: nat, target: string)
    requires step > 0
    ensures forall h :: h in Search(walk, i, end, step, target).hits ==>
      i <= h < Bound(Search(walk, i, end, step, target), end) && OnRange(i, step, h)
    decreases if i < end then end - i else 0
  {
    if i < end && !walk(i).broken {
      var r := Search(walk, i, end, step, target);
      var rest := Search(walk, i + step, end, step, target);
      SearchHitsInRange(walk, i + step, end, step, target);
      SearchStopsAtBroken(walk, i + step, end, step, target);
      assert Bound(r, end) == Bound(rest, end);
      assert i < Bound(rest, end);
      forall h | h in r.hits
        ensures i <= h < Bound(r, end) && OnRange(i, step, h)
      {
        OnRangeShift(i, step, h);
        if h != i {
          assert h in rest.hits;
        }
      }
    }
  }

  /** Hits come out in strictly increasing order. */
  lemma {:induction false} SearchHitsIncreasing(walk: nat -> Page, i: nat, end: nat, step: nat, target: string)
    requires step > 0
    ensures Increasing(Search(walk, i, end, step, target).hits)
    decreases if i < end then end - i else 0
  {
    if i < end && !walk(i).broken {
      var r := Search(walk, i, end, step, target);
      var rest := Search(walk, i + step, end, step, target);
      SearchHitsIncreasing(walk, i + step, end, step, target);
      if IsHit(walk(i), target) {
        SearchHitsInRange(walk, i + step, end, step, target);
        assert r.hits == [i] + rest.hits;
        forall a, b | 0 <= a < b < |r.hits|
          ensures r.hits[a] < r.hits[b]
        {
          assert r.hits[b] == rest.hits[b - 1];
          assert r.hits[b] in rest.hits;
          if a > 0 {
            assert r.hits[a] == rest.hits[a - 1];
            assert rest.hits[a - 1] < rest.hits[b - 1];
          } else {
            assert r.hits[a] == i;
            assert i + step <= r.hits[b];
          }
        }
      }
    }
  }

  /** Every reported address is a hit: `hex()` of its translation is the
      target text. */
  lemma {:induction false} SearchHitsMatch(walk: nat -> Page, i: nat, end: nat, step: nat, target: string)
    requires step > 0
    ensures forall h :: h in Search(walk, i, end, step, target).hits ==> IsHit(walk(h), target)
    decreases if i < end then end - i else 0
  {
    if i < end && !walk(i).broken {
      SearchHitsMatch(walk, i + step, end, step, target);
    }
  }

  /** Every address of the range below the bound was walked without a break,
      and it is reported exactly when its walk is a hit. */
  lemma {:induction false} SearchComplete(walk: nat -> Page, i: nat, end: nat, step: nat, target: string, k: nat)
    requires step > 0
    requires RangeAt(i, step, k) < Bound(Search(walk, i, end, step, target), end)
    ensures !walk(RangeAt(i, step, k)).broken
    ensures RangeAt(i, step, k) in Search(walk, i, end, step, target).hits
        <==> IsHit(walk(RangeAt(i, step, k)), target)
    decreases k
  {
    var x := RangeAt(i, step, k);
    SearchWalkedFirst(walk, i, end, step, target, x);
    if k == 0 {
      assert x == i;
      SearchFirst(walk, i, end, step, target);
    } else {
      var j := k - 1;
      RangeAtNext(i, step, j);
      assert x == RangeAt(i + step, step, j);
      SearchLater(walk, i, end, step, target, x);
      SearchComplete(walk, i + step, end, step, target, j);
    }
  }

  /** An address at or after i and below the search's bound means the search
      went past i: i is below the end and its walk did not break. */
  lemma SearchWalkedFirst(walk: nat -> Page, i: nat, end: nat, step: nat, target: string, x: nat)
    requires step > 0 && i <= x < Bound(Search(walk, i, end, step, target), end)
    ensures i < end && !walk(i).broken
    ensures Bound(Search(walk, i + step, end, step, target), end) == Bound(Search(walk, i, end, step, target), end)
  {
    SearchNext(walk, i, end, step, target);
  }

  /** The first address of a search that went past it is reported exactly
      when its walk is a hit. */
  lemma SearchFirst(walk: nat -> Page, i: nat, end: nat, step: nat, target: string)
    requires step > 0 && i < end && !walk(i).broken
    ensures i in Search(walk, i, end, step, target).hits <==> IsHit(walk(i), target)
  {
    SearchNext(walk, i, end, step, target);
    SearchHitsInRange(walk, i + step, end, step, target);
    assert i !in Search(walk, i + step, end, step, target).hits;
  }

  /** A later address is reported by the search from i exactly when it is
      reported by the search from the next address. */
  lemma SearchLater(walk: nat -> Page, i: nat, end: nat, step: nat, target: string, x: nat)
    requires step > 0 && i < end && !walk(i).broken && x > i
    ensures x in Search(walk, i, end, step, target).hits <==> x in Search(walk, i + step, end, step, target).hits
  {
    SearchNext(walk, i, end, step, target);
  }

  /** `range()` refuses a zero step; the parse failures of the range texts. */
  datatype SearchError = NotHex(text: string) | ZeroStep

  /** The `for i in range(start, end, step)` loop of `pgd_phys_search` over
      any walk, with the hit list built up in place. It reports what the
      reference definition `Search` describes. */
  method SearchLoop(walk: nat -> Page, start: nat, end: nat, step: nat, target: string)
    returns (report: SearchReport)
    requires step > 0
    ensures report == Search(walk, start, end, step, target)
  {
    var hits: seq<nat> := [];
    var i := start;
    while i < end
      invariant Search(walk, start, end, step, target)
        == SearchReport(hits + Search(walk, i, end, step, target).hits,
                        Search(walk, i, end, step, target).unreadable)
      decreases end - i
    {
      var page := walk(i);
      if page.broken {
        return SearchReport(hits, Some(i));
      }
      SearchAdvance(walk, start, i, end, step, target, hits);
      hits := hits + if IsHit(page, target) then [i] else [];
      i := i + step;
    }
    assert hits + [] == hits;
    return SearchReport(hits, None);
  }

  /** The loop's invariant carried over one round that does not stop. */
  lemma SearchAdvance(walk: nat -> Page, start: nat, i: nat, end: nat, step: nat, target: string, hits: seq<nat>)
    requires step > 0 && i < end && !walk(i).broken
    requires Search(walk, start, end, step, target)
      == SearchReport(hits + Search(walk, i, end, step, target).hits, Search(walk, i, end, step, target).unreadable)
    ensures Search(walk, start, end, step, target)
      == SearchReport((hits + if IsHit(walk(i), target) then [i] else []) + Search(walk, i + step, end, step, target).hits,
                      Search(walk, i + step, end, step, target).unreadable)
  {
    SearchNext(walk, i, end, step, target);
    var add: seq<nat> := if IsHit(walk(i), target) then [i] else [];
    var rest := Search(walk, i + step, end, step, target).hits;
    assert hits + (add + rest) == (hits + add) + rest;
  }

  /** One round of the search: an address whose walk is not broken adds
      itself when it hits, and the rest of the range decides the rest. */
  lemma SearchNext(walk: nat -> Page, i: nat, end: nat, step: nat, target: string)
    requires step > 0 && i < end && !walk(i).broken
    ensures Search(walk, i, end, step, target).unreadable == Search(walk, i + step, end, step, target).unreadable
    ensures Search(walk, i, end, step, target).hits
      == (if IsHit(walk(i), target) then [i] else []) + Search(walk, i + step, end, step, target).hits
  {
    if !IsHit(walk(i), target) {
      assert [] + Search(walk, i + step, end, step, target).hits == Search(walk, i + step, end, step, target).hits;
    }
  }

  /** The walk `pgd_phys_search` performs for every address: `Page(hex(i))`. */
  function Walker(mem: Memory, cr3: nat): (walk: nat -> Page)
    ensures forall v: nat :: walk(v) == Scan(mem, cr3, v)
  {
    (v: nat) => Scan(mem, cr3, v)
  }

  /** `pgd_phys_search`: the three range strings go through `int(s, 16)` in
      order and `range()` refuses a zero step, before anything is read; then
      every address of the range is walked as `Page(hex(i))`. */
  method PhysSearch(mem: Memory, cr3: nat, rangeStart: string, rangeEnd: string, rangeStep: string, physAddress: string)
    returns (r: Result<SearchReport, SearchError>)
    ensures ParseHex(rangeStart).None? ==> r == Err(NotHex(rangeStart))
    ensures ParseHex(rangeStart).Some? && ParseHex(rangeEnd).None? ==> r == Err(NotHex(rangeEnd))
    ensures ParseHex(rangeStart).Some? && ParseHex(rangeEnd).Some? && ParseHex(rangeStep).None? ==>
      r == Err(NotHex(rangeStep))
    ensures ParseHex(rangeStep) == Some(0) && ParseHex(rangeStart).Some? && ParseHex(rangeEnd).Some? ==>
      r == Err(ZeroStep)
    ensures r.Ok? <==>
      ParseHex(rangeStart).Some? && ParseHex(rangeEnd).Some? && ParseHex(rangeStep).Some?
      && ParseHex(rangeStep).value > 0
    ensures r.Ok? ==>
      r.value == Search(Walker(mem, cr3), ParseHex(rangeStart).value, ParseHex(rangeEnd).value,
                        ParseHex(rangeStep).value, physAddress)
  {
    var start := ParseHex(rangeStart);
    if start.None? {
      return Err(NotHex(rangeStart));
    }
    var end := ParseHex(rangeEnd);
    if end.None? {
      return Err(NotHex(rangeEnd));
    }
    var step := ParseHex(rangeStep);
    if step.None? {
      return Err(NotHex(rangeStep));
    }
    if step.value == 0 {
      return Err(ZeroStep);
    }
    var report := SearchLoop(Walker(mem, cr3), start.value, end.value, step.value, physAddress);
    return Ok(report);
  }
}
