/** The input checks of utility.py. Where the source prints a message and
    calls `sys.exit(1)`, or lets `int()` raise, the model returns an error. */
module Utility {
  import opened Common
  import opened Bits
  import opened Hex

  /** Why an input was refused. */
  datatype InputError =
    | InvalidAddress(address: string) // "Invalid address: ..."
    | InvalidDelta(delta: string)     // "Invalid delta: ..."
    | NotIncreasing                   // "begin address must be less than end address."
    | NotHex(text: string)            // the ValueError of int(address, 16)

  /** The largest address accepted is one below all-ones. */
  const ADDRESS_LIMIT: nat := 0xffff_ffff_ffff_ffff

  /** The bounds `validate_range` puts on the step: 4 KiB and 1 << 21. */
  const DELTA_MIN: nat := 0x1000
  const DELTA_MAX: nat := 0x20_0000

  /** `validate_address`: the text must read as hex below all-ones; it is
      returned as given. */
  function ValidateAddress(address: string): (r: Result<string, InputError>)
    ensures r.Ok? <==> ParseHex(address).Some? && ParseHex(address).value < ADDRESS_LIMIT
    ensures r.Ok? ==> r.value == address
    ensures r.Err? ==> r.error == InvalidAddress(address)
  {
    match ParseHex(address)
    case Some(n) => if n < ADDRESS_LIMIT then Ok(address) else Err(InvalidAddress(address))
    case None => Err(InvalidAddress(address))
  }

  /** Every number below all-ones, written as `hex()` writes it, passes;
      all-ones itself does not. */
  lemma ValidateHexAddress(n: nat)
    ensures ValidateAddress(ToHex(n)).Ok? <==> n < ADDRESS_LIMIT
  {
    ParseToHex(n);
  }

  /** Python's `<` on strings: lexicographic by character, a proper prefix
      coming first. */
  predicate StrLess(a: string, b: string)
  {
    if |b| == 0 then false
    else if |a| == 0 then true
    else if a[0] != b[0] then a[0] < b[0]
    else StrLess(a[1..], b[1..])
  }

  /** `<` on strings is a strict order: irreflexive and transitive. */
  lemma {:induction false} StrLessIrreflexive(a: string)
    ensures !StrLess(a, a)
  {
    if |a| > 0 {
      StrLessIrreflexive(a[1..]);
    }
  }

  lemma {:induction false} StrLessTransitive(a: string, b: string, c: string)
    requires StrLess(a, b) && StrLess(b, c)
    ensures StrLess(a, c)
  {
    if |a| > 0 && a[0] == b[0] && b[0] == c[0] {
      StrLessTransitive(a[1..], b[1..], c[1..]);
    }
  }

  /** ... and total: of two different strings one is below the other. */
  lemma {:induction false} StrLessTotal(a: string, b: string)
    requires a != b
    ensures StrLess(a, b) || StrLess(b, a)
  {
    if |a| > 0 && |b| > 0 && a[0] == b[0] {
      assert a == [a[0]] + a[1..] && b == [b[0]] + b[1..];
      StrLessTotal(a[1..], b[1..]);
    }
  }

  /** `int(delta, 16)` within the sanity bounds. */
  predicate DeltaOk(delta: string)
  {
    ParseHex(delta).Some? && DELTA_MIN <= ParseHex(delta).value <= DELTA_MAX
  }

  /** `validate_range` as written: begin, then end, then the step, then
      `begin >= end` on the returned strings; the first failing check
      decides. */
  function ValidateRange(begin: string, end: string, delta: string): (r: Result<(), InputError>)
    ensures r.Ok? <==>
      ValidateAddress(begin).Ok? && ValidateAddress(end).Ok? && DeltaOk(delta) && StrLess(begin, end)
    ensures ValidateAddress(begin).Err? ==> r == Err(InvalidAddress(begin))
    ensures ValidateAddress(begin).Ok? && ValidateAddress(end).Err? ==> r == Err(InvalidAddress(end))
    ensures ValidateAddress(begin).Ok? && ValidateAddress(end).Ok? && !DeltaOk(delta) ==>
      r == Err(InvalidDelta(delta))
    ensures ValidateAddress(begin).Ok? && ValidateAddress(end).Ok? && DeltaOk(delta) && !StrLess(begin, end) ==>
      r == Err(NotIncreasing)
  {
    match ValidateAddress(begin)
    case Err(e) => Err(e)
    case Ok(b) =>
      match ValidateAddress(end)
      case Err(e) => Err(e)
      case Ok(e) =>
        if !DeltaOk(delta) then Err(InvalidDelta(delta))
        else if !StrLess(b, e) then Err(NotIncreasing)
        else Ok(())
  }

  /** Comparing the strings refuses a range whose begin is numerically
      below its end: 0x9 < 0x10, but "0x9" >= "0x10". */
  lemma ValidateRangeRefusesShortBegin()
    ensures ParseHex("0x9") == Some(9) && ParseHex("0x10") == Some(16)
    ensures ValidateRange("0x9", "0x10", "0x1000") == Err(NotIncreasing)
  {
    assert "0x9"[2..] == "9" && "0x10"[2..] == "10";
    assert "10"[..1] == "1";
    assert "0x1000"[2..] == "1000";
    assert "1000"[..3] == "100" && "100"[..2] == "10";
    assert StrLess("0x10", "0x9");
    StrLessIrreflexive("0x9");
    if StrLess("0x9", "0x10") {
      StrLessTransitive("0x9", "0x10", "0x9");
    }
  }

  /** The ordering check as evidently meant: on the numbers the two
      addresses denote. */
  function ValidateRangeNumeric(begin: string, end: string, delta: string): (r: Result<(), InputError>)
    ensures r.Ok? <==>
      && ValidateAddress(begin).Ok? && ValidateAddress(end).Ok? && DeltaOk(delta)
      && ParseHex(begin).value < ParseHex(end).value
    ensures r.Err? && r != Err(NotIncreasing) ==> r == ValidateRange(begin, end, delta)
    ensures (ValidateAddress(begin).Ok? && ValidateAddress(end).Ok? && DeltaOk(delta)
             && ParseHex(begin).value >= ParseHex(end).value) ==> r == Err(NotIncreasing)
  {
    match ValidateAddress(begin)
    case Err(e) => Err(e)
    case Ok(_) =>
      match ValidateAddress(end)
      case Err(e) => Err(e)
      case Ok(_) =>
        if !DeltaOk(delta) then Err(InvalidDelta(delta))
        else if ParseHex(begin).value >= ParseHex(end).value then Err(NotIncreasing)
        else Ok(())
  }

  /** The numeric check accepts exactly the ranges `hex()` writes in
      increasing order, whatever their lengths. */
  lemma ValidateRangeNumericOfHex(a: nat, b: nat, delta: string)
    requires a < ADDRESS_LIMIT && b < ADDRESS_LIMIT && DeltaOk(delta)
    ensures ValidateRangeNumeric(ToHex(a), ToHex(b), delta).Ok? <==> a < b
  {
    ParseToHex(a);
    ParseToHex(b);
  }

  /** The string check is right when both addresses have the same number of
      digits, as `hex()` writes them: then string order is numeric order. */
  lemma ValidateRangeOfSameWidth(a: nat, b: nat, delta: string)
    requires a < ADDRESS_LIMIT && b < ADDRESS_LIMIT && DeltaOk(delta)
    requires |Digits(a)| == |Digits(b)|
    ensures ValidateRange(ToHex(a), ToHex(b), delta).Ok? <==> a < b
  {
    ParseToHex(a);
    ParseToHex(b);
    DigitsOrder(a, b);
    StrLessPrefix("0x", Digits(a), Digits(b));
  }

  /** A common prefix does not change the order. */
  lemma {:induction false} StrLessPrefix(p: string, a: string, b: string)
    ensures StrLess(p + a, p + b) <==> StrLess(a, b)
  {
    if |p| > 0 {
      var pa, pb := p + a, p + b;
      assert pa[0] == p[0] == pb[0] && |pa| > 0 && |pb| > 0;
      assert pa[1..] == p[1..] + a && pb[1..] == p[1..] + b;
      StrLessPrefix(p[1..], a, b);
      assert StrLess(pa, pb) == StrLess(pa[1..], pb[1..]);
    } else {
      assert p + a == a && p + b == b;
    }
  }

  /** Strings of equal length compare by their fronts first, then their last
      characters. */
  lemma {:induction false} StrLessSnoc(x: string, c: char, y: string, d: char)
    requires |x| == |y|
    ensures StrLess(x + [c], y + [d]) <==> StrLess(x, y) || (x == y && c < d)
  {
    if |x| > 0 {
      assert (x + [c])[1..] == x[1..] + [c] && (y + [d])[1..] == y[1..] + [d];
      StrLessSnoc(x[1..], c, y[1..], d);
      if x[0] == y[0] {
        assert x == y <==> x[1..] == y[1..] by {
          assert x == [x[0]] + x[1..] && y == [y[0]] + y[1..];
        }
      }
    }
  }

  /** Lower-case digits of equal count compare as their numbers do. */
  lemma {:induction false} DigitsOrder(a: nat, b: nat)
    requires |Digits(a)| == |Digits(b)|
    ensures StrLess(Digits(a), Digits(b)) <==> a < b
    decreases a
  {
    if a < 16 {
      DigitCharOrder(a, b);
    } else {
      var x, y := Digits(a / 16), Digits(b / 16);
      assert Digits(a) == x + [DigitChar(a % 16, false)];
      assert Digits(b) == y + [DigitChar(b % 16, false)];
      DigitsOrder(a / 16, b / 16);
      StrLessSnoc(x, DigitChar(a % 16, false), y, DigitChar(b % 16, false));
      DigitCharOrder(a % 16, b % 16);
      assert x == y <==> a / 16 == b / 16 by {
        if x == y {
          assert DigitsValue(x) == a / 16 && DigitsValue(y) == b / 16;
        }
      }
    }
  }

  /** `hex()` digits are ordered as their values: '0'..'9' below 'a'..'f'. */
  lemma DigitCharOrder(a: nat, b: nat)
    requires a < 16 && b < 16
    ensures (DigitChar(a, false) < DigitChar(b, false)) <==> a < b
    ensures (DigitChar(a, false) == DigitChar(b, false)) <==> a == b
  {
  }

  /** `normalize_address`: the page-aligned address and the offset in the
      page, `int(address, 16) & ~0xfff` and `& 0xfff`. */
  function NormalizeAddress(address: string): (r: Result<(nat, nat), InputError>)
    ensures r.Ok? <==> ParseHex(address).Some?
    ensures r.Err? ==> r.error == NotHex(address)
    ensures r.Ok? ==>
      && r.value.0 % 0x1000 == 0 && r.value.1 < 0x1000
      && r.value.0 + r.value.1 == ParseHex(address).value
  {
    match ParseHex(address)
    case None => Err(NotHex(address))
    case Some(n) => Ok((n / 0x1000 * 0x1000, n % 0x1000))
  }

  /** An address already on a page boundary comes back as it is, with
      offset 0; the split of any address is the only one with an aligned
      part and an offset below 4096. */
  lemma NormalizeAligned(n: nat)
    requires n % 0x1000 == 0
    ensures NormalizeAddress(ToHex(n)) == Ok((n, 0))
  {
    ParseToHex(n);
  }

  lemma NormalizeUnique(address: string, base: nat, offset: nat)
    requires ParseHex(address).Some? && base % 0x1000 == 0 && offset < 0x1000
    requires base + offset == ParseHex(address).value
    ensures NormalizeAddress(address) == Ok((base, offset))
  {
    var n := ParseHex(address).value;
    DivUnique(n, 0x1000, base / 0x1000, offset);
  }
}
