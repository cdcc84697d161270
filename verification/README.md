# pagewalker in Dafny

pagewalker is a set of gdb helpers for inspecting x86-64 4-level page tables
(PGD, PUD, PMD, PT) of a guest through the QEMU monitor. This project models
its core and proves properties of the model:

- **The single-address walker** (`Page` in pagewalker.py) is in module `PageWalker`. It does
  these things:
  - splits a virtual address into four slot offsets;
  - reads one 64-bit entry per level;
  - stops at the first unreadable slot (`broken`);
  - takes the 1 GiB or 2 MiB short cut once an entry with bit 7 has been read;
  - otherwise ends on a 4 KiB frame.

  The 4 KiB translation is the frame alone, masked below 2^63. Unlike the 1 GiB
  and 2 MiB cases, it adds no page offset. So every address of a 4 KiB page
  translates to the same text, and `pgd_phys_search` finds a target inside such
  a page only when the target is page-aligned.

  `format_output` and the `pgd_phys_search` loop over a range of addresses are
  modelled too.
- **The materialised table tree** (`BaseTable`, `MemoryPage` and `translate`
  in pagetable.py) is in module `PageTable`.
  - Tables live in a heap keyed by `Ref`, so a table shared by a parent slot
    and a dictionary is one `Ref`.
  - `add_entry`'s level checks are modelled in the source's order, as is
    `translate`'s four-round loop, including the `TypeError` it raises when it
    goes on to subscript a `MemoryPage`.
  - `get_address` is modelled with Python's `|` on unbounded integers.
- **The three-pass builder** (`MemoryMapper.__init__`, `_setup_PUD`,
  `_setup_PMD`, `_setup_PTE`) is in module `MemoryMapper`. Module
  `BuiltTables` describes what a built mapper holds and what `translate`
  answers on it. Each pass iterates its dictionary in any order.
  - The reference definitions are `FreshAt`, the table made for a slot, and `Final`,
    that table with its present slots filled.
  - The builder tests only the Present bit. So a huge PUD or PMD entry is
    followed as if it pointed at a table.
  - `_setup_PTE` makes, for each present PMD slot `p`, a PT table based at
    the PMD table's own address. The only page in that table sits in slot `p`
    and is the frame of the PMD entry. `translate` therefore finds a page
    only when the PT index equals the PMD index.
  - The model keeps this behaviour as written, and `TranslateBuilt` states it.
- **The entry decoders** (`BASEe`, `PGDe`, `PUDe`, `PMDe`, `PTe` and
  `to_dict` in pagetable_entry.py) are in module `PageTableEntry`.
- **The input checks** (`validate_address`, `validate_range`,
  `normalize_address` in utility.py) are in module `Utility`.

The shared modules are:

- `Common` holds `Option` and `Result`.
- `Bits` holds powers of two and Python's `|` on naturals.
- `Hex` holds `int(s, 16)`, `hex(n)` and the `03X` format.

The walker reads memory through `Memory = nat -> Option<u64>`, where `None` is
the monitor's "Cannot access memory". The builder reads a total
`PhysMemory = nat -> u64`. The `$cr3` register is a parameter. Errors that the
source reports with an exception or `sys.exit(1)` come back as `Err` values.

## Model

| member | source | states |
|---|---|---|
| Bits.PageSizeSet | pagewalker.py:19-21 | the page-size test is true exactly when bit 7 is set; `BaseTable.is_huge` applies the same test to a page's address |
| PageWalker.Indexes | pagewalker.py:23-26 | the four slot offsets are 8 times the 9-bit fields at bits 39, 30, 21 and 12 of the address, PGD first; each is a multiple of 8 no larger than 4088 |
| PageWalker.Huge1G | pagewalker.py:28-31 | the 1 GiB translation keeps the low 30 bits of the virtual address and bits 30..50 of the entry, and stays below 2^51 |
| PageWalker.Huge2M | pagewalker.py:33-36 | the 2 MiB translation keeps the low 21 bits of the virtual address and bits 21..50 of the entry, and stays below 2^51 |
| PageWalker.GetPhysAddress | pagewalker.py:38-46 | an unreadable slot gives None and leaves `huge` alone; an entry with bit 7 is returned raw and sets `huge`; any other entry is returned 4 KiB-aligned below 2^51 with its frame bits kept |
| PageWalker.Root | pagewalker.py:48-52 | the root is the register with its low 12 bits cleared: aligned, at most cr3 and within 4 KiB of it |
| PageWalker.Scan | pagewalker.py:54-87 | the walk fits `IsWalkOf` level by level: which slots are read and how each is computed from the previous read, which of the three page sizes gives the translation, that `broken` holds exactly when a read slot is unreadable and exactly when there is no translation, and that `huge` is set by any entry read with bit 7 |
| PageWalker.WalkIsUnique | pagewalker.py:54-87 | the level-by-level description admits exactly one walk, so `Scan`'s contract determines its result |
| PageWalker.ScanReadsOnlyItsSlots | pagewalker.py:59-87 | two memories that agree on the slots a walk records give the same walk: a walk ending early on a fault or a huge page depends on nothing beyond its last slot |
| PageWalker.NotPresentStillWalks | pagewalker.py:38-46 | a readable PGD entry with the Present bit clear still leads on to a PUD read |
| PageWalker.FourKFrameHasNoOffset | pagewalker.py:83-87 | a walk that ends on a 4 KiB frame translates to a 4 KiB-aligned address, the same for every address of that page, so the page offset is dropped |
| PageWalker.HugePmdWalk | pagewalker.py:74-80 | for every memory whose PGD and PUD entries lack bit 7 and whose PMD entry has it, the walk reads three slots, is not broken, sets `huge` and adds the low 21 bits of the address to the PMD entry's frame |
| PageWalker.HugePmdExample | pagewalker.py:74-80 | an example: one hand-built memory with a 2 MiB PMD entry and the exact walk it gives |
| PageWalker.FormatOutput | pagewalker.py:89-97 | one text per address: `hex()` of a present address and "N/A" for an absent one; reading each text back with `int(s, 16)` gives the address, and "N/A" does not parse |
| PageWalker.NewPage | pagewalker.py:6-17 | `Page(s)` fails exactly when `int(s, 16)` does, and otherwise walks the number s denotes |
| PageWalker.PageOfHex | pagewalker.py:117 | `Page(hex(i))` walks i itself |
| PageWalker.SearchLoop | pagewalker.py:116-125 | the loop reports exactly what the recursive reference definition `Search` reports |
| PageWalker.PhysSearch | pagewalker.py:112-125 | the three range texts are parsed in order and the first unparsable one is the error; a zero step is refused; otherwise the report is `Search` over the walks `Page(hex(i))` |
| PageWalker.SearchStopsAtBroken | pagewalker.py:116-122 | the address where the search stops lies on the range, below its end, and its walk is broken |
| PageWalker.SearchHitsInRange | pagewalker.py:116-125 | every reported address lies on the range and below where the search stopped |
| PageWalker.SearchHitsIncreasing | pagewalker.py:116-125 | reported addresses come out strictly increasing |
| PageWalker.SearchHitsMatch | pagewalker.py:123-125 | every reported address has a translation whose `hex()` text is the target |
| PageWalker.SearchComplete | pagewalker.py:116-125 | every address of the range below the stopping point was walked without a fault, and is reported exactly when its translation's text is the target |
| Hex.ParseHex | utility.py:14 | a text that `int(s, 16)` reads is not empty; which texts it accepts is stated by `ParseHexAccepts` and what it reads by `ParsePrefix` |
| Hex.ParseHexAccepts | utility.py:14 | the model of `int(s, 16)` accepts exactly a non-empty hex digit string, bare or behind `0x` or `0X`, and refuses every other text (the forms of Python's parse not modelled are listed under "Left out") |
| Hex.ParsePrefix | utility.py:14 | `int(s, 16)` reads a non-empty digit string as the number it denotes and refuses the empty one; a `0x` or `0X` prefix changes nothing about the digits after it |
| Hex.ToHex | pagewalker.py:117 | `hex(n)` is "0x" followed by at least one hex digit |
| Hex.ToHexCanonical | pagewalker.py:124 | the digits of `hex(n)` are lower case with no leading zero |
| Hex.ParseToHex | pagewalker.py:113-117 | `int(hex(n), 16)` is n, so the text round trip of the search loses nothing |
| Hex.ToHexInjective | pagewalker.py:124 | equal `hex()` texts mean equal numbers, so the text comparison of the search compares addresses |
| PageTable.IsHuge | pagetable.py:20-21 | a slot is huge exactly when it holds a page whose address has bit 7 set; a table or 0 never is |
| PageTable.NewTable | pagetable.py:11-15 | a new table has the given address and level and 512 slots, all 0 |
| PageTable.GetItem | pagetable.py:17-18 | indexing succeeds exactly for -512 <= i < 512, negative indices counting from the end; otherwise it is an IndexError |
| PageTable.AddEntry | pagetable.py:20-33 | a huge page outside levels 1 and 2, a non-page at level 3 and a non-table at levels 0 to 2 are refused with their own errors in that order; when the checks pass, an index outside -512..511 is the IndexError; otherwise exactly the indexed slot changes |
| PageTable.AddThenGet | pagetable.py:17-33 | after `add_entry` the slot reads back the stored entry and every other slot reads as before |
| PageTable.ClearHuge | pagetable.py:121 | clearing bit 7 keeps the size and lowers the address by 0x80 |
| PageTable.TranslateIndices | pagetable.py:104-109 | four indices below 512, which are the 9-bit fields at bits 39, 30, 21 and 12: with the low 12 bits they add back up to the address below 2^48 |
| PageTable.IndexFields | pagetable.py:104-109 | an address below 2^48 is the sum of its four 9-bit fields at bits 39, 30, 21 and 12 and its low 12 bits |
| PageTable.Translate | pagetable.py:103-126 | `translate` keeps the set of tables and leaves them well formed; what it answers is stated by `TranslateMeaning` |
| PageTable.TranslateMeaning | pagetable.py:103-126 | `translate` answers for the first slot on the path that is not a table: 0 gives None, a level-3 page is found, a huge page at level 1 or 2 is found with bit 7 cleared in the table too, and any other page raises the TypeError; four tables in a row give None |
| PageTable.TranslateFromMeaning | pagetable.py:111-126 | the same statement for the loop started at any round it reaches |
| PageTable.TranslateTwiceOnHugePage | pagetable.py:119-122 | a 1 GiB page stored with `add_entry` is found once; a second `translate` of the same address then raises the TypeError |
| PageTable.TranslateKeepingMeaning | pagetable.py:119-122 | the non-mutating walk answers as the source's first call does, and the source changes the tables only when it answers a huge page |
| PageTable.TranslateFromChanges | pagetable.py:119-122 | the loop changes the tables only on the huge-page answer, whose page no longer has bit 7 |
| PageTable.KeepingAgreesFrom | pagetable.py:111-126 | the non-mutating walk and the source's loop give the same answer from any round |
| PageTable.GetAddress | pagetable.py:128-129 | for indices below 512 the `\|` of 0xffff and the four indices shifted to bits 48, 39, 30, 21 and 12 is the number with those base-512 digits above 12 zero bits |
| PageTable.GetAddressRoundTrip | pagetable.py:103-129 | `translate`'s index extraction gives back the four indices of `get_address`; the address is 4 KiB-aligned with bits 48..63 set |
| Bits.OrDisjoint | pagetable.py:129 | `\|` of a number shifted past bit k and a number below 2^k is their sum |
| MemoryMapper.TableBase | pagetable.py:73 | `value & 0x000ffffffffff000` is 4 KiB-aligned below 2^52 and keeps the frame bits |
| MemoryMapper.PageOf | pagetable.py:98 | the page made of an entry is 4096 bytes, aligned below 2^52 and never huge |
| MemoryMapper.FillTable | pagetable.py:79-87 | one pass over 512 slots: every present slot gets the table made for it, the table's slots are filled, nothing else changes, and the reported slots are exactly the present ones |
| MemoryMapper.FillSlot | pagetable.py:91-101 | one round: the slot's table is made and stored exactly when the entry is present |
| MemoryMapper.FilledStep | pagetable.py:74 | storing a made table with `add_entry` is filling that slot and succeeds |
| MemoryMapper.PteStep | pagetable.py:97-99 | the PT table of a PMD slot is a new level-3 table at the PMD table's address with the page in the PMD slot, and `add_entry` accepts it |
| MemoryMapper.SetupPud | pagetable.py:66-75 | after the PGD pass all PUD tables exist and the PGD table is final; `pud_tables` names exactly the PUD tables made, by PGD index |
| MemoryMapper.SetupPmd | pagetable.py:77-87 | after the PUD pass, in any dictionary order, all PMD tables exist and everything above is final; `pmd_tables` names exactly the PMD tables made |
| MemoryMapper.PmdTurn | pagetable.py:78-87 | one PUD table filled keeps the pass invariant with that PGD index done |
| MemoryMapper.SetupPte | pagetable.py:89-101 | after the PMD pass, in any order, all PT tables exist and the heap is partial at depth 3; `pte_tables` names exactly the PT tables made |
| MemoryMapper.PteTurn | pagetable.py:90-101 | one PMD table filled keeps the pass invariant with that index pair done |
| MemoryMapper.NewMapper | pagetable.py:57-64 | the built heap holds exactly the tables the builder makes, each final, and the three dictionaries name them by index tuple |
| BuiltTables.TranslateAndWalkerAgree | pagewalker.py:23-26 | the walker's slot offsets are 8 times `translate`'s indices, level by level |
| BuiltTables.BuiltSlot | pagetable.py:66-101 | in a built heap a PGD, PUD or PMD slot holds its made table when present and 0 otherwise; a PT table holds one page, in the slot of its PMD index |
| BuiltTables.BuiltWellFormed | pagetable.py:56-101 | a built heap is well formed and has the PGD table |
| BuiltTables.BuiltRoot | pagetable.py:58 | the built PGD table sits at `cr3 & ~0xfff` |
| BuiltTables.TableUnder | pagetable.py:66-87 | slot j of a PGD or PUD table gets a table exactly when the entry at the table's address + 8j is present, and that table is one level down at the entry's frame |
| BuiltTables.PteUnder | pagetable.py:89-101 | slot p of a PMD table gets a PT table exactly when its entry is present; that table sits at the PMD table's address with the entry's frame in slot p only |
| BuiltTables.BuiltPages | pagetable.py:97-99 | every page of a built heap is a 4096-byte aligned frame below 2^52 in a PT table and never huge |
| BuiltTables.TranslateBuilt | pagetable.py:103-126 | on a built heap `translate` finds a page exactly when the PT table for the address's first three indices was made and the PT index equals the PMD index; it changes nothing and never raises the TypeError |
| BuiltTables.TranslateBuiltAddress | pagetable.py:103-129 | `translate(get_address(g, u, p, t))` finds a page exactly when `pte_tables` has (g, u, p) and t == p |
| PageTableEntry.Decode | pagetable_entry.py:3-48 | every flag is 0 or 1; Huge exists exactly for PUD and PMD entries and is bit 7 there; Dirty, Global and PageAttributeTable exist exactly for a PT entry or a huge PUD or PMD entry |
| PageTableEntry.DecodeFlagsAreBits | pagetable_entry.py:8-48 | each flag is its own bit: Present to Accessed are bits 0 to 5 and NX bit 63; Dirty is bit 6 and Global bit 8; PageAttributeTable is bit 7 in a PT entry and bit 13 in a huge PUD or PMD entry |
| PageTableEntry.DecodeFlagBits | pagetable_entry.py:8-13 | for a PT entry or a huge PUD or PMD entry the nine flags put back in place (PageAttributeTable or Huge at bit 7) are the low nine bits of the entry |
| PageTableEntry.DecodeHex | pagetable_entry.py:7 | `Hex` is "0x" and three upper-case digits that parse back to the low 12 bits |
| PageTableEntry.DecodeLowBits | pagetable_entry.py:8-13 | the six low flags put back in place are the low six bits of the entry |
| PageTableEntry.DecodeNx | pagetable_entry.py:14 | NX is 1 exactly for values from 2^63 up |
| PageTableEntry.PudDecodesAsPmd | pagetable_entry.py:24-40 | `PUDe` and `PMDe` decode every value alike |
| PageTableEntry.PatAndHugeShareBit7 | pagetable_entry.py:27-47 | PT PageAttributeTable, PMD Huge and PUD Huge are each bit 7 of the value, so they agree; a huge PMD takes PageAttributeTable from bit 13 |
| PageTableEntry.SetOrder | pagetable_entry.py:3-48 | the attribute order of `__init__` names each key once |
| PageTableEntry.ToDict | pagetable_entry.py:16-17 | `to_dict` holds every attribute the object has under its name, and no other |
| PageTableEntry.FromToDict | pagetable_entry.py:16-17 | the entry can be read back from its `to_dict` view |
| PageTableEntry.ToDictKeys | pagetable_entry.py:16-48 | every entry's dictionary has the ten base keys plus Huge; it has Dirty, Global and PageAttributeTable exactly for a PT entry or a huge PUD or PMD entry |
| Utility.ValidateAddress | utility.py:12-20 | an address passes exactly when it parses as hex below 0xffffffffffffffff, and comes back unchanged |
| Utility.ValidateHexAddress | utility.py:12-20 | `hex(n)` passes exactly when n < 0xffffffffffffffff |
| Utility.ValidateRange | utility.py:23-36 | begin, end and the step are checked in that order and the first failure decides; the range passes exactly when both addresses pass, the step is within [0x1000, 0x200000], and begin is below end as strings; when only the order test fails the error is NotIncreasing |
| Utility.ValidateRangeRefusesShortBegin | utility.py:34 | "0x9" to "0x10" is refused as not increasing though 9 < 16 |
| Utility.ValidateRangeNumeric | utility.py:23-36 | the same checks with the order test on the numbers; it fails differently from the source only in the order test |
| Utility.ValidateRangeNumericOfHex | utility.py:34-36 | for `hex()` texts the numeric check passes exactly when a < b |
| Utility.ValidateRangeOfSameWidth | utility.py:34 | the string test agrees with numeric order when both addresses have the same number of digits |
| Utility.StrLessTransitive | utility.py:34 | Python's string `<` is transitive |
| Utility.StrLessTotal | utility.py:34 | of two different strings one is below the other |
| Utility.NormalizeAddress | utility.py:38-46 | the address splits into a 4 KiB-aligned part and an offset below 4096 that add up to it; unparsable text is an error |
| Utility.NormalizeAligned | utility.py:38-46 | an aligned address comes back unchanged with offset 0 |
| Utility.NormalizeUnique | utility.py:38-46 | that split is the only aligned-plus-offset split of the address |

## Left out

- The debugger plumbing is not modelled. That covers `gdb.execute`, the `monitor xp/gx` command, parsing its text answer and reading `$cr3`. Memory and the register are parameters instead.
- Printing is not modelled: the `pgd_scan` and `pgd_range_scan` commands, `dump_all_pmds_with_index`, `dump_all_ptes_with_index`, the `__repr__` methods, the module-level run at the end of pagetable.py and the gdb `define` commands. They only print. The `Page` walk they print and the `pgd_phys_search` loop are modelled.
- `spinning_cursor` (utility.py:4-9, repeated in spiner.py) is not modelled: it writes to the terminal only.
- The exact text of the error messages is not modelled. `sys.exit(1)` and uncaught `ValueError`s become `Err` values. The delta message says "less than 1 GiB" while the bound checked is 1 << 21 (2 MiB). The model follows the bound.
- Hex.ParseHex covers an optional `0x`/`0X` prefix followed by hex digits of either case. Python's `int(s, 16)` also accepts surrounding whitespace, a sign, underscores and non-ASCII Unicode decimal digits (it reads `"١٢"` as 0x12), and none of that is modelled.
- Hex.ParseHexAccepts: characterizes the model's parse only; the texts Python's `int(s, 16)` also accepts, listed on the line above, are refused by the model.
- A `MemoryPage` is held by value in its slot. Object identity of pages is not modelled because the builder never shares a page between slots.
- `Page.cr3_register` is re-read from the register for every `Page`. The search uses one `cr3` and one memory snapshot for every address, so memory changing during a search is not modelled.
- PageTable.Translate: requires a well-formed heap with the PGD table present. Python references are always valid, so this only rules out heaps the arena encoding could describe but the program cannot build.
- PageTable.AddEntry: the index is an int, as in the source. Only the builder's own calls with indices in 0..511 are proved to succeed.

## Findings

| source | as written | input that shows it | evidently intended | confidence | as-written member | corrected member |
|---|---|---|---|---|---|---|
| pagetable.py:119-122 | `translate` clears bit 7 of the stored huge `MemoryPage` in place before returning it | a PGD slot 0 pointing at a PUD table whose slot 0 holds `MemoryPage(0x40000080, 1 GiB)`; `translate(0)` twice: the second call finds a page without bit 7 at level 1, goes on, and subscripts it (TypeError) | answer the huge page with bit 7 cleared in the result and leave the tables alone, so repeated translation answers the same | not executed | PageTable.TranslateTwiceOnHugePage | PageTable.TranslateKeepingMeaning |
| utility.py:34 | `begin >= end` compares the address strings, not their values | `validate_range("0x9", "0x10", "0x1000")` exits with "begin address must be less than end address." although 0x9 < 0x10 | compare `int(begin, 16)` with `int(end, 16)` | not executed | Utility.ValidateRangeRefusesShortBegin | Utility.ValidateRangeNumeric |
