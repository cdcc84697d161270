/** The entry classes of pagetable_entry.py: a 64-bit page-table entry,
    decoded into its flag bits the way each level names them, and the
    `to_dict` view the tool prints. Reading the entry from memory is left to
    the caller: `Decode` takes the 64-bit word the read returned. */
module PageTableEntry {
  import opened Common
  import opened Bits
  import opened Hex

  /** Which class decodes the entry: `PGDe`, `PUDe`, `PMDe` or `PTe`. */
  datatype Level = PgdLevel | PudLevel | PmdLevel | PtLevel

  /** The attributes an entry object carries. `huge` is `None` where the
      class sets the text 'N/a'; `dirty`, `global` and `pageAttributeTable`
      are `None` where the class never sets them. */
  datatype Entry = Entry(
    level: Level,
    value: u64,
    hex: string,
    present: nat,
    readWrite: nat,
    userSupervisor: nat,
    pageWriteThrough: nat,
    pageCacheDisabled: nat,
    accessed: nat,
    nx: nat,
    huge: Option<nat>,
    dirty: Option<nat>,
    global: Option<nat>,
    pageAttributeTable: Option<nat>)

  /** `(value >> k) & 1`, with p the literal 2^k. */
  function FlagAt(value: nat, p: nat): (b: nat)
    requires p > 0
    ensures b <= 1
  {
    value / p % 2
  }

  /** The Huge bit as PUD and PMD entries read it: bit 7. */
  function PageSizeBit(value: nat): (b: nat)
    ensures b <= 1
  {
    FlagAt(value, 0x80)
  }

  /** Every flag attribute an entry carries is a single bit, 0 or 1. */
  predicate FlagsAreBits(e: Entry)
  {
    && e.present <= 1 && e.readWrite <= 1 && e.userSupervisor <= 1
    && e.pageWriteThrough <= 1 && e.pageCacheDisabled <= 1 && e.accessed <= 1 && e.nx <= 1
    && (e.huge.Some? ==> e.huge.value <= 1)
    && (e.dirty.Some? ==> e.dirty.value <= 1)
    && (e.global.Some? ==> e.global.value <= 1)
    && (e.pageAttributeTable.Some? ==> e.pageAttributeTable.value <= 1)
  }

  /** An entry object built from the 64-bit word `value`: `BASEe.__init__`
      followed by the subclass's own attributes. */
  function Decode(level: Level, value: u64): (e: Entry)
    ensures e.level == level && e.value == value
    ensures e.huge.Some? <==> level == PudLevel || level == PmdLevel
    ensures level == PudLevel || level == PmdLevel ==> e.huge == Some(Bit(value, 7))
    ensures e.dirty.Some? <==> level == PtLevel || e.huge == Some(1)
    ensures e.global.Some? <==> e.dirty.Some?
    ensures e.pageAttributeTable.Some? <==> e.dirty.Some?
    ensures FlagsAreBits(e)
  {
    HugeIsBit7(value);
    var base := Entry(level, value, "0x" + Upper3(value % 0x1000),
      FlagAt(value, 1), FlagAt(value, 2), FlagAt(value, 4), FlagAt(value, 8), FlagAt(value, 0x10),
      FlagAt(value, 0x20), FlagAt(value, 0x8000_0000_0000_0000), None, None, None, None);
    match level
    case PgdLevel => base
    case PtLevel =>
      base.(dirty := Some(FlagAt(value, 0x40)), pageAttributeTable := Some(FlagAt(value, 0x80)),
            global := Some(FlagAt(value, 0x100)))
    case _ =>
      var huge := PageSizeBit(value);
      if huge == 1 then
        base.(huge := Some(1), dirty := Some(FlagAt(value, 0x40)), global := Some(FlagAt(value, 0x100)),
              pageAttributeTable := Some(FlagAt(value, 0x2000)))
      else base.(huge := Some(0))
  }

  /** The `Hex` attribute gives back the low 12 bits of the entry: three
      upper-case digits after "0x". */
  lemma DecodeHex(level: Level, value: u64)
    ensures |Decode(level, value).hex| == 5 && Decode(level, value).hex[..2] == "0x"
    ensures ParseHex(Decode(level, value).hex) == Some(value % 0x1000)
    ensures forall i :: 2 <= i < 5 ==> !('a' <= Decode(level, value).hex[i] <= 'f')
  {
    assert Decode(level, value).hex[2..] == Upper3(value % 0x1000);
  }

  /** Bit 7 and bit 13 of `Bits`, as `(value >> 7) & 1` and
      `(value >> 13) & 1` read them. */
  lemma HugeIsBit7(value: nat)
    ensures PageSizeBit(value) == Bit(value, 7)
    ensures FlagAt(value, 0x2000) == Bit(value, 13)
  {
    assert Pow2(7) == 0x80;
    Pow2Add(7, 6);
    assert Pow2(6) == 0x40;
  }

  /** The six low flags put back in their places give the low six bits of
      the entry: decoding them loses nothing. */
  lemma DecodeLowBits(level: Level, value: u64)
    ensures var e := Decode(level, value);
      e.present + 2 * e.readWrite + 4 * e.userSupervisor + 8 * e.pageWriteThrough
        + 16 * e.pageCacheDisabled + 32 * e.accessed == value % 64
  {
    LowSixBits(value);
  }

  /** For a PT entry and for a huge PUD or PMD entry, the nine flags of bits
      0..8 put back in place give the low nine bits of the entry: Dirty is
      bit 6, bit 7 is PageAttributeTable in a PT entry and Huge above it, and
      Global is bit 8. */
  lemma DecodeFlagBits(level: Level, value: u64)
    requires level == PtLevel || Decode(level, value).huge == Some(1)
    ensures var e := Decode(level, value);
      && e.dirty.Some? && e.global.Some? && e.pageAttributeTable.Some?
      && e.present + 2 * e.readWrite + 4 * e.userSupervisor + 8 * e.pageWriteThrough
        + 16 * e.pageCacheDisabled + 32 * e.accessed + 64 * e.dirty.value
        + 128 * (if level == PtLevel then e.pageAttributeTable.value else e.huge.value)
        + 256 * e.global.value
        == value % 512
  {
    LowSixBits(value);
    LowThreeMore(value);
  }

  /** Each flag is the bit the source shifts it down from: bits 0 to 5 and
      63 for every entry, Dirty at bit 6 and Global at bit 8 wherever they
      are set, PageAttributeTable at bit 7 in a PT entry and at bit 13 in a
      huge PUD or PMD entry. */
  lemma DecodeFlagsAreBits(level: Level, value: u64)
    ensures var e := Decode(level, value);
      && e.present == Bit(value, 0) && e.readWrite == Bit(value, 1)
      && e.userSupervisor == Bit(value, 2) && e.pageWriteThrough == Bit(value, 3)
      && e.pageCacheDisabled == Bit(value, 4) && e.accessed == Bit(value, 5)
      && e.nx == Bit(value, 63)
      && (e.dirty.Some? ==> e.dirty.value == Bit(value, 6))
      && (e.global.Some? ==> e.global.value == Bit(value, 8))
      && (level == PtLevel ==> e.pageAttributeTable == Some(Bit(value, 7)))
      && (level != PtLevel && e.pageAttributeTable.Some? ==> e.pageAttributeTable.value == Bit(value, 13))
  {
    HugeIsBit7(value);
    LowFlagBits(value);
    HighFlagBits(value);
  }

  /** The masks of bits 0 to 5 and 63. */
  lemma LowFlagBits(value: nat)
    ensures FlagAt(value, 1) == Bit(value, 0) && FlagAt(value, 2) == Bit(value, 1)
    ensures FlagAt(value, 4) == Bit(value, 2) && FlagAt(value, 8) == Bit(value, 3)
    ensures FlagAt(value, 0x10) == Bit(value, 4) && FlagAt(value, 0x20) == Bit(value, 5)
    ensures FlagAt(value, 0x8000_0000_0000_0000) == Bit(value, 63)
  {
    assert Pow2(5) == 0x20;
    Pow2Values();
  }

  /** The masks of bits 6 and 8. */
  lemma HighFlagBits(value: nat)
    ensures FlagAt(value, 0x40) == Bit(value, 6) && FlagAt(value, 0x100) == Bit(value, 8)
  {
    assert Pow2(6) == 0x40 && Pow2(8) == 0x100;
  }

  /** Bits 6, 7 and 8 on top of the low six. */
  lemma LowThreeMore(v: nat)
    ensures v % 512 == v % 64 + 64 * (v / 64 % 2) + 128 * (v / 128 % 2) + 256 * (v / 256 % 2)
  {
    ModMod(v, 64, 8);
    ModMod(v / 64, 2, 4);
    ModMod(v / 64 / 2, 2, 2);
    DivDiv(v, 64, 2);
    DivDiv(v, 128, 2);
  }

  lemma LowSixBits(v: nat)
    ensures v % 2 + 2 * (v / 2 % 2) + 4 * (v / 4 % 2) + 8 * (v / 8 % 2) + 16 * (v / 16 % 2) + 32 * (v / 32 % 2)
      == v % 64
  {
    ModSplit(v, 32);
    DivDiv(v, 2, 2);
    ModSplit(v / 2, 16);
    DivDiv(v, 4, 2);
    ModSplit(v / 4, 8);
    DivDiv(v, 8, 2);
    ModSplit(v / 8, 4);
    DivDiv(v, 16, 2);
    ModSplit(v / 16, 2);
  }

  /** The lowest bit split off a remainder. */
  lemma ModSplit(x: nat, m: nat)
    requires m > 0
    ensures x % (2 * m) == x % 2 + 2 * (x / 2 % m)
  {
    var q, r := x / 2 / m, x / 2 % m;
    assert x == 2 * (m * q + r) + x % 2;
    assert x == (2 * m) * q + (2 * r + x % 2);
    DivUnique(x, 2 * m, q, 2 * r + x % 2);
  }

  /** NX is the top bit of the 64-bit word: set exactly for values from
      2^63 up. */
  lemma DecodeNx(level: Level, value: u64)
    ensures Decode(level, value).nx == 1 <==> value >= 0x8000_0000_0000_0000
  {
  }

  /** `PUDe` and `PMDe` decode every word alike. */
  lemma PudDecodesAsPmd(value: u64)
    ensures Decode(PudLevel, value) == Decode(PmdLevel, value).(level := PudLevel)
  {
  }

  /** The bit a PUD or PMD entry calls Huge, bit 7, is the bit a PT entry
      calls PageAttributeTable, and a huge PUD or PMD entry reads its
      PageAttributeTable from bit 13. */
  lemma PatAndHugeShareBit7(value: u64)
    ensures Decode(PtLevel, value).pageAttributeTable == Some(Bit(value, 7))
    ensures Decode(PmdLevel, value).huge == Some(Bit(value, 7))
    ensures Decode(PudLevel, value).huge == Some(Bit(value, 7))
    ensures Decode(PtLevel, value).pageAttributeTable == Decode(PmdLevel, value).huge
    ensures Decode(PmdLevel, value).huge == Some(1) ==>
      Decode(PmdLevel, value).pageAttributeTable == Some(Bit(value, 13))
  {
    HugeIsBit7(value);
  }

  /** A value of `to_dict`: a number or the text 'N/a'. */
  datatype Field = Num(n: nat) | Text(s: string)

  /** The attribute names `to_dict` uses as keys, each named after the
      Python attribute it stands for. */
  datatype Key =
    | ValueKey | HexKey | PresentKey | ReadWriteKey | UserSupervisorKey | PageWriteThroughKey
    | PageCacheDisabledKey | AccessedKey | NxKey | HugeKey | DirtyKey | GlobalKey | PageAttributeTableKey

  /** A `to_dict` result in insertion order. */
  type Dict = seq<(Key, Field)>

  /** The attribute `k` of the entry object, if `__init__` set it. */
  function Attribute(e: Entry, k: Key): Option<Field>
  {
    match k
    case ValueKey => Some(Num(e.value))
    case HexKey => Some(Text(e.hex))
    case PresentKey => Some(Num(e.present))
    case ReadWriteKey => Some(Num(e.readWrite))
    case UserSupervisorKey => Some(Num(e.userSupervisor))
    case PageWriteThroughKey => Some(Num(e.pageWriteThrough))
    case PageCacheDisabledKey => Some(Num(e.pageCacheDisabled))
    case AccessedKey => Some(Num(e.accessed))
    case NxKey => Some(Num(e.nx))
    case HugeKey => Some(if e.huge.Some? then Num(e.huge.value) else Text("N/a"))
    case DirtyKey => NumOf(e.dirty)
    case GlobalKey => NumOf(e.global)
    case PageAttributeTableKey => NumOf(e.pageAttributeTable)
  }

  function NumOf(v: Option<nat>): Option<Field>
  {
    if v.Some? then Some(Num(v.value)) else None
  }

  /** The order in which the class's `__init__` sets its attributes: `PTe`
      sets PageAttributeTable before Global, `PUDe` and `PMDe` after. */
  function SetOrder(level: Level): (ks: seq<Key>)
    ensures forall i, j :: 0 <= i < j < |ks| ==> ks[i] != ks[j]
  {
    [ValueKey, HexKey, PresentKey, ReadWriteKey, UserSupervisorKey, PageWriteThroughKey,
     PageCacheDisabledKey, AccessedKey, NxKey, HugeKey, DirtyKey]
    + (if level == PtLevel then [PageAttributeTableKey, GlobalKey] else [GlobalKey, PageAttributeTableKey])
  }

  /** Every attribute name appears in the order. */
  lemma SetOrderHasAll(level: Level)
    ensures forall k :: k in SetOrder(level)
  {
    var ks := SetOrder(level);
    forall k
      ensures k in ks
    {
      if k == GlobalKey || k == PageAttributeTableKey {
        assert k == ks[11] || k == ks[12];
      } else {
        assert k in ks[..11];
      }
    }
  }

  /** The pairs for the keys `ks` that the entry has, in that order. */
  function Pairs(e: Entry, ks: seq<Key>): Dict
  {
    if |ks| == 0 then []
    else
      (if Attribute(e, ks[0]).Some? then [(ks[0], Attribute(e, ks[0]).value)] else []) + Pairs(e, ks[1..])
  }

  /** `to_dict`: the entry's attributes in the order `__init__` sets them,
      leaving out the ones it never set. Every attribute the entry has is
      found under its key, and no other key is. */
  function ToDict(e: Entry): (d: Dict)
    ensures forall k :: Lookup(d, k) == Attribute(e, k)
  {
    SetOrderHasAll(e.level);
    LookupPairsAll(e, SetOrder(e.level));
    Pairs(e, SetOrder(e.level))
  }

  /** The value stored under `key`: the first pair with that key. */
  function Lookup(d: Dict, key: Key): Option<Field>
  {
    if |d| == 0 then None
    else if d[0].0 == key then Some(d[0].1)
    else Lookup(d[1..], key)
  }

  function LookupNum(d: Dict, key: Key): Option<nat>
  {
    match Lookup(d, key)
    case Some(Num(n)) => Some(n)
    case _ => None
  }

  function Number(d: Dict, key: Key): nat
  {
    match LookupNum(d, key)
    case Some(n) => n
    case None => 0
  }

  /** Looking a key up in the pairs of distinct keys finds the attribute. */
  lemma {:induction false} LookupPairs(e: Entry, ks: seq<Key>, k: Key)
    requires forall i, j :: 0 <= i < j < |ks| ==> ks[i] != ks[j]
    ensures Lookup(Pairs(e, ks), k) == if k in ks then Attribute(e, k) else None
  {
    if |ks| > 0 {
      var rest := ks[1..];
      assert forall i, j :: 0 <= i < j < |rest| ==> rest[i] != rest[j] by {
        forall i, j | 0 <= i < j < |rest|
          ensures rest[i] != rest[j]
        {
          assert rest[i] == ks[i + 1] && rest[j] == ks[j + 1];
        }
      }
      LookupPairs(e, rest, k);
      assert k in ks <==> k == ks[0] || k in rest;
      if k == ks[0] {
        assert k !in rest by {
          forall i | 0 <= i < |rest|
            ensures rest[i] != k
          {
            assert rest[i] == ks[i + 1];
          }
        }
      }
      if Attribute(e, ks[0]).Some? {
        var d := [(ks[0], Attribute(e, ks[0]).value)] + Pairs(e, rest);
        assert Pairs(e, ks) == d && d[1..] == Pairs(e, rest);
      } else {
        assert Pairs(e, ks) == Pairs(e, rest);
      }
    }
  }

  lemma LookupPairsAll(e: Entry, ks: seq<Key>)
    requires forall i, j :: 0 <= i < j < |ks| ==> ks[i] != ks[j]
    ensures forall k :: Lookup(Pairs(e, ks), k) == if k in ks then Attribute(e, k) else None
  {
    forall k
      ensures Lookup(Pairs(e, ks), k) == if k in ks then Attribute(e, k) else None
    {
      LookupPairs(e, ks, k);
    }
  }

  /** Reading an entry back from its `to_dict` view, given its level. */
  function FromDict(level: Level, d: Dict): Option<Entry>
  {
    match (LookupNum(d, ValueKey), Lookup(d, HexKey))
    case (Some(v), Some(Text(hex))) =>
      if v < 0x1_0000_0000_0000_0000 then
        Some(Entry(level, v, hex,
          Number(d, PresentKey), Number(d, ReadWriteKey), Number(d, UserSupervisorKey),
          Number(d, PageWriteThroughKey), Number(d, PageCacheDisabledKey), Number(d, AccessedKey),
          Number(d, NxKey), LookupNum(d, HugeKey), LookupNum(d, DirtyKey), LookupNum(d, GlobalKey),
          LookupNum(d, PageAttributeTableKey)))
      else None
    case _ => None
  }

  /** `to_dict` keeps everything: the entry can be read back from it. */
  lemma FromToDict(e: Entry)
    ensures FromDict(e.level, ToDict(e)) == Some(e)
  {
    FromDictOf(e, ToDict(e));
  }

  /** Any dictionary holding exactly the entry's attributes reads back as the
      entry. */
  lemma FromDictOf(e: Entry, d: Dict)
    requires forall k :: Lookup(d, k) == Attribute(e, k)
    ensures FromDict(e.level, d) == Some(e)
  {
    assert Lookup(d, ValueKey) == Some(Num(e.value)) && Lookup(d, HexKey) == Some(Text(e.hex));
    assert Lookup(d, PresentKey) == Some(Num(e.present)) && Lookup(d, ReadWriteKey) == Some(Num(e.readWrite));
    assert Lookup(d, UserSupervisorKey) == Some(Num(e.userSupervisor));
    assert Lookup(d, PageWriteThroughKey) == Some(Num(e.pageWriteThrough));
    assert Lookup(d, PageCacheDisabledKey) == Some(Num(e.pageCacheDisabled));
    assert Lookup(d, AccessedKey) == Some(Num(e.accessed)) && Lookup(d, NxKey) == Some(Num(e.nx));
    assert Lookup(d, HugeKey) == Attribute(e, HugeKey);
    assert Lookup(d, DirtyKey) == NumOf(e.dirty) && Lookup(d, GlobalKey) == NumOf(e.global);
    assert Lookup(d, PageAttributeTableKey) == NumOf(e.pageAttributeTable);
    FromFields(e, d);
  }

  /** The same, from the thirteen lookups one by one. */
  lemma FromFields(e: Entry, d: Dict)
    requires Lookup(d, ValueKey) == Some(Num(e.value)) && Lookup(d, HexKey) == Some(Text(e.hex))
    requires Lookup(d, PresentKey) == Some(Num(e.present)) && Lookup(d, ReadWriteKey) == Some(Num(e.readWrite))
    requires Lookup(d, UserSupervisorKey) == Some(Num(e.userSupervisor))
    requires Lookup(d, PageWriteThroughKey) == Some(Num(e.pageWriteThrough))
    requires Lookup(d, PageCacheDisabledKey) == Some(Num(e.pageCacheDisabled))
    requires Lookup(d, AccessedKey) == Some(Num(e.accessed)) && Lookup(d, NxKey) == Some(Num(e.nx))
    requires Lookup(d, HugeKey) == Attribute(e, HugeKey)
    requires Lookup(d, DirtyKey) == NumOf(e.dirty) && Lookup(d, GlobalKey) == NumOf(e.global)
    requires Lookup(d, PageAttributeTableKey) == NumOf(e.pageAttributeTable)
    ensures FromDict(e.level, d) == Some(e)
  {
    assert LookupNum(d, HugeKey) == e.huge;
    assert LookupNum(d, DirtyKey) == e.dirty && LookupNum(d, GlobalKey) == e.global;
    assert LookupNum(d, PageAttributeTableKey) == e.pageAttributeTable;
  }

  /** The keys `to_dict` has: the ten every entry has, and Dirty, Global and
      PageAttributeTable exactly for a PT entry or a huge PUD or PMD entry. */
  lemma ToDictKeys(level: Level, value: u64, k: Key)
    ensures Lookup(ToDict(Decode(level, value)), k).Some? <==>
      || k !in {DirtyKey, GlobalKey, PageAttributeTableKey}
      || level == PtLevel || Decode(level, value).huge == Some(1)
  {
  }

}
