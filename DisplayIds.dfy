/**
 * Human-readable patient ids `BN-<year>-NNNNNN`: how the next one is derived
 * from the ids already stored, and what that derivation does and does not
 * guarantee. The year comes from the clock and is a parameter.
 */
module DisplayIds {
  import opened Wrappers
  import opened Text
  import opened Decimal

  /** Width the sequence number is zero-padded to. */
  const Width: nat := 6

  /** `BN-${year}-`: the prefix the lookup filters on. */
  function Prefix(year: nat): string {
    "BN-" + NatToDecimal(year) + "-"
  }

  /** The id whose sequence number is `n`: the prefix followed by `n` padded to six digits. */
  function DisplayIdFor(year: nat, n: nat): string {
    Prefix(year) + PadStart(NatToDecimal(n), Width, '0')
  }

  /** `parseInt(id.split('-')[2], 10)`, None standing for NaN. */
  function SequenceNumber(id: string): Option<int> {
    var parts := Split(id, "-");
    if |parts| > 2 then ParseInt(parts[2]) else None
  }

  /** The stored ids that carry the prefix of `year`, in table order. */
  function OfYear(ids: seq<string>, year: nat): (r: seq<string>)
    ensures forall x :: x in r <==> x in ids && StartsWith(x, Prefix(year))
  {
    if ids == [] then []
    else (if StartsWith(ids[0], Prefix(year)) then [ids[0]] else []) + OfYear(ids[1..], year)
  }

  /** `lastNumber + 1`, with NaN staying NaN. */
  function Increment(n: Option<int>): Option<int> {
    match n
    case None => None
    case Some(k) => Some(k + 1)
  }

  /** The number the next id gets: 1 in a fresh year, else one more than the suffix of the greatest id. */
  function NextNumber(ids: seq<string>, year: nat): Option<int> {
    var ofYear := OfYear(ids, year);
    if ofYear == [] then Some(1) else Increment(SequenceNumber(MaxLex(ofYear)))
  }

  /** `nextNumber.toString().padStart(6, '0')`; NaN prints as "NaN". */
  function FormatNumber(n: Option<int>): (r: string)
    ensures |r| >= Width
  {
    match n
    case None => PadStart("NaN", Width, '0')
    case Some(k) => PadStart(IntToDecimal(k), Width, '0')
  }

  /** generateDisplayId over the display ids currently stored. */
  function NextDisplayId(ids: seq<string>, year: nat): (r: string)
    ensures StartsWith(r, Prefix(year)) && |r| >= |Prefix(year)| + Width
  {
    Prefix(year) + FormatNumber(NextNumber(ids, year))
  }

  /** A well-formed id of `year`: the prefix and six digits whose value is below `bound`. */
  predicate IsIdBelow(id: string, year: nat, bound: nat) {
    var p := Prefix(year);
    && StartsWith(id, p)
    && |id| == |p| + Width
    && AllDigits(id[|p|..])
    && DigitsValue(id[|p|..]) < bound
  }

  lemma PrefixFree(year: nat)
    ensures forall k :: 0 <= k < |NatToDecimal(year)| ==> NatToDecimal(year)[k] != '-'
  {
  }

  /** How the prefix splits: the year text is field 1 and what follows the prefix starts field 2. */
  lemma SplitPrefixed(year: nat, d: string)
    ensures Split(Prefix(year) + d, "-") == ["BN", NatToDecimal(year)] + Split(d, "-")
  {
    var y := NatToDecimal(year);
    PrefixFree(year);
    assert Prefix(year) + d == "BN" + "-" + (y + "-" + d);
    SplitAfter("BN", "-", y + "-" + d);
    SplitAfter(y, "-", d);
  }

  /** The sequence number of an id written as prefix + digits is the value of the digits. */
  lemma SequenceNumberOfDigits(year: nat, d: string)
    requires d != [] && AllDigits(d)
    ensures SequenceNumber(Prefix(year) + d) == Some(DigitsValue(d))
  {
    SplitPrefixed(year, d);
    SplitNone(d, "-");
    ParseIntDigits(d);
  }

  /** The padded numeral of `n`: all digits, of value `n`, six long when `n` has at most six digits. */
  lemma PaddedNumeral(n: nat)
    ensures AllDigits(PadStart(NatToDecimal(n), Width, '0'))
    ensures DigitsValue(PadStart(NatToDecimal(n), Width, '0')) == n
    ensures n < Pow10(Width) ==> |PadStart(NatToDecimal(n), Width, '0')| == Width
  {
    var s := NatToDecimal(n);
    var r := PadStart(s, Width, '0');
    var z := r[..|r| - |s|];
    assert r == z + s;
    DigitsValueLeadingZeros(z, s);
    NatToDecimalValue(n);
    if n < Pow10(Width) {
      NatToDecimalLength(n, Width);
    }
  }

  /** Round trip: the sequence number read back from a generated id is the number it was made from. */
  lemma {:induction false} SequenceNumberRoundTrip(year: nat, n: nat)
    ensures SequenceNumber(DisplayIdFor(year, n)) == Some(n)
  {
    PaddedNumeral(n);
    SequenceNumberOfDigits(year, PadStart(NatToDecimal(n), Width, '0'));
  }

  lemma {:induction false} NoneOfYear(ids: seq<string>, year: nat)
    requires forall id :: id in ids ==> !StartsWith(id, Prefix(year))
    ensures OfYear(ids, year) == []
  {
    if ids != [] {
      NoneOfYear(ids[1..], year);
    }
  }

  /** The first id of a year is BN-<year>-000001. */
  lemma FirstOfYear(ids: seq<string>, year: nat)
    requires forall id :: id in ids ==> !StartsWith(id, Prefix(year))
    ensures NextDisplayId(ids, year) == Prefix(year) + "000001"
    ensures NextDisplayId(ids, year) == DisplayIdFor(year, 1)
  {
    NoneOfYear(ids, year);
    var r := PadStart("1", Width, '0');
    assert |r| == 6 && r[5] == '1';
    assert forall k :: 0 <= k < 5 ==> r[k] == '0';
    assert r == "000001";
  }

  /**
   * Otherwise the next id carries one more than the sequence number of the
   * lexicographically greatest id of the year (NaN when that is unreadable).
   */
  lemma NextAfterGreatest(ids: seq<string>, year: nat, last: string)
    requires last in ids && StartsWith(last, Prefix(year))
    requires forall other :: other in ids && StartsWith(other, Prefix(year)) ==> !LexLess(last, other)
    ensures NextNumber(ids, year) == Increment(SequenceNumber(last))
    ensures SequenceNumber(last).Some? && SequenceNumber(last).value >= 0 ==>
              NextDisplayId(ids, year) == DisplayIdFor(year, SequenceNumber(last).value + 1)
  {
    MaxLexUnique(OfYear(ids, year), last);
  }

  /** Two equal-length digit strings are in lexicographic order exactly when their values are. */
  lemma {:induction false} DigitsOrder(a: string, b: string)
    requires |a| == |b| && AllDigits(a) && AllDigits(b)
    ensures LexLess(a, b) <==> DigitsValue(a) < DigitsValue(b)
  {
    if a != [] {
      var p := Pow10(|a| - 1);
      var da, db := DigitValue(a[0]), DigitValue(b[0]);
      var ra, rb := DigitsValue(a[1..]), DigitsValue(b[1..]);
      assert DigitsValue(a) == da * p + ra && DigitsValue(b) == db * p + rb;
      if da < db {
        assert a[0] < b[0];
        PlaceValue(da, db, p, ra, rb);
      } else if db < da {
        assert b[0] < a[0];
        PlaceValue(db, da, p, rb, ra);
      } else {
        assert a[0] == b[0];
        var lead := da * p;
        assert DigitsValue(a) == lead + ra && DigitsValue(b) == lead + rb;
        DigitsOrder(a[1..], b[1..]);
      }
    }
  }

  lemma {:induction false} PlaceValue(lo: nat, hi: nat, p: nat, rlo: nat, rhi: nat)
    requires lo < hi && rlo < p && rhi < p
    ensures lo * p + rlo < hi * p + rhi
    decreases hi - lo
  {
    assert hi * p == (hi - 1) * p + p;
    if hi > lo + 1 {
      PlaceValue(lo, hi - 1, p, rlo, rhi);
    }
  }

  /** A well-formed id that does not sort after the greatest one has a value no larger than it. */
  lemma NotAboveGreatest(id: string, m: string, year: nat)
    requires IsIdBelow(id, year, 999_999) && IsIdBelow(m, year, 999_999) && !LexLess(m, id)
    ensures IsIdBelow(id, year, DigitsValue(m[|Prefix(year)|..]) + 1)
  {
    var p := Prefix(year);
    var d, dm := id[|p|..], m[|p|..];
    assert id == p + d;
    assert m == p + dm;
    LexLessTotal(id, m);
    LexLessCommonPrefix(p, d, dm);
    DigitsOrder(d, dm);
  }

  /** Every well-formed id of the year is bounded by the value of the greatest one. */
  lemma BoundedByGreatest(ids: seq<string>, year: nat, m: string)
    requires forall id :: id in ids && StartsWith(id, Prefix(year)) ==> IsIdBelow(id, year, 999_999)
    requires m in ids && IsIdBelow(m, year, 999_999)
    requires forall other :: other in ids && StartsWith(other, Prefix(year)) ==> !LexLess(m, other)
    ensures forall id :: id in ids && StartsWith(id, Prefix(year)) ==> IsIdBelow(id, year, DigitsValue(m[|Prefix(year)|..]) + 1)
  {
    forall id | id in ids && StartsWith(id, Prefix(year))
      ensures IsIdBelow(id, year, DigitsValue(m[|Prefix(year)|..]) + 1)
    {
      NotAboveGreatest(id, m, year);
    }
  }

  /** The next number after a well-formed greatest id is one more than its value. */
  lemma NextAfterWellFormed(ids: seq<string>, year: nat, m: string)
    requires IsIdBelow(m, year, 999_999)
    requires m in ids
    requires forall other :: other in ids && StartsWith(other, Prefix(year)) ==> !LexLess(m, other)
    ensures NextNumber(ids, year) == Some(DigitsValue(m[|Prefix(year)|..]) + 1)
  {
    var p := Prefix(year);
    var dm := m[|p|..];
    assert m == p + dm;
    SequenceNumberOfDigits(year, dm);
    assert SequenceNumber(m) == Some(DigitsValue(dm));
    MaxLexUnique(OfYear(ids, year), m);
  }

  /** Under the bound, the next number is one more than the greatest stored value (1 in a fresh year). */
  lemma NextNumberBelowBound(ids: seq<string>, year: nat) returns (v: nat)
    requires forall id :: id in ids && StartsWith(id, Prefix(year)) ==> IsIdBelow(id, year, 999_999)
    ensures v < 999_999 && NextNumber(ids, year) == Some(v + 1)
    ensures forall id :: id in ids && StartsWith(id, Prefix(year)) ==> IsIdBelow(id, year, v + 1)
  {
    var ofYear := OfYear(ids, year);
    v := 0;
    if ofYear != [] {
      var m := MaxLex(ofYear);
      assert m in ids && StartsWith(m, Prefix(year));
      assert IsIdBelow(m, year, 999_999);
      v := DigitsValue(m[|Prefix(year)|..]);
      NextAfterWellFormed(ids, year, m);
      BoundedByGreatest(ids, year, m);
    }
  }

  /** A well-formed id whose value is below `n` sorts before, and reads smaller than, the id of `n`. */
  lemma BelowPrecedes(id: string, year: nat, n: nat)
    requires n < Pow10(Width) && IsIdBelow(id, year, n)
    ensures LexLess(id, DisplayIdFor(year, n))
    ensures SequenceNumber(id) == Some(DigitsValue(id[|Prefix(year)|..]))
  {
    var p := Prefix(year);
    var d := id[|p|..];
    var dn := PadStart(NatToDecimal(n), Width, '0');
    PaddedNumeral(n);
    assert id == p + d;
    SequenceNumberOfDigits(year, d);
    DigitsOrder(d, dn);
    LexLessCommonPrefix(p, d, dn);
  }

  /**
   * While every stored id of the year is a well-formed six-digit id below
   * 999999, the generated id is strictly greater than each of them, both in
   * text order and by sequence number, is itself a well-formed id, and is new.
   */
  lemma NextIsFresh(ids: seq<string>, year: nat)
    requires forall id :: id in ids && StartsWith(id, Prefix(year)) ==> IsIdBelow(id, year, 999_999)
    ensures var next := NextDisplayId(ids, year);
      && IsIdBelow(next, year, 1_000_000)
      && SequenceNumber(next).Some? && 0 < SequenceNumber(next).value
      && (forall id :: id in ids && StartsWith(id, Prefix(year)) ==>
            LexLess(id, next) && SequenceNumber(id).Some? && SequenceNumber(id).value < SequenceNumber(next).value)
      && next !in ids
  {
    var p := Prefix(year);
    var v := NextNumberBelowBound(ids, year);
    var next := NextDisplayId(ids, year);
    assert next == DisplayIdFor(year, v + 1);
    var dn := PadStart(NatToDecimal(v + 1), Width, '0');
    PaddedNumeral(v + 1);
    assert next == p + dn && next[|p|..] == dn;
    SequenceNumberRoundTrip(year, v + 1);
    forall id | id in ids && StartsWith(id, p)
      ensures LexLess(id, next) && SequenceNumber(id).Some? && SequenceNumber(id).value < SequenceNumber(next).value
    {
      BelowPrecedes(id, year, v + 1);
    }
    forall id | id in ids
      ensures id != next
    {
      if StartsWith(id, p) {
        LexLessIrreflexive(id);
      } else {
        assert next[..|p|] == p;
      }
    }
  }

  lemma CapacityNumerals()
    ensures NatToDecimal(999_999) == "999999"
    ensures NatToDecimal(1_000_000) == "1000000"
  {
    assert NatToDecimal(9) == "9";
    assert NatToDecimal(99) == "99";
    assert NatToDecimal(999) == "999";
    assert NatToDecimal(9999) == "9999";
    assert NatToDecimal(99999) == "99999";
    assert NatToDecimal(1) == "1";
    assert NatToDecimal(10) == "10";
    assert NatToDecimal(100) == "100";
    assert NatToDecimal(1000) == "1000";
    assert NatToDecimal(10000) == "10000";
    assert NatToDecimal(100000) == "100000";
  }

  /** BN-<year>-1000000 sorts before BN-<year>-999999. */
  lemma OverSortsFirst(year: nat)
    ensures LexLess(DisplayIdFor(year, 1_000_000), DisplayIdFor(year, 999_999))
  {
    var p := Prefix(year);
    CapacityNumerals();
    assert DisplayIdFor(year, 999_999) == p + "999999";
    assert DisplayIdFor(year, 1_000_000) == p + "1000000";
    assert LexLess("1000000", "999999");
    LexLessCommonPrefix(p, "1000000", "999999");
  }

  /** Whenever BN-<year>-999999 is the greatest id of the year, the next id is BN-<year>-1000000. */
  lemma NextAfterFull(ids: seq<string>, year: nat)
    requires DisplayIdFor(year, 999_999) in ids
    requires forall other :: other in ids && StartsWith(other, Prefix(year)) ==> !LexLess(DisplayIdFor(year, 999_999), other)
    ensures NextDisplayId(ids, year) == DisplayIdFor(year, 1_000_000)
  {
    var full := DisplayIdFor(year, 999_999);
    assert full[..|Prefix(year)|] == Prefix(year);
    NextAfterGreatest(ids, year, full);
    SequenceNumberRoundTrip(year, 999_999);
  }

  /**
   * Past 999999 the counter stalls. BN-<year>-1000000 sorts before
   * BN-<year>-999999, so the greatest id stays the latter and the generator
   * hands out BN-<year>-1000000 again and again: after it is stored, the next
   * id is the very same string.
   */
  lemma CounterStallsPastCapacity(year: nat)
    ensures var full, over := DisplayIdFor(year, 999_999), DisplayIdFor(year, 1_000_000);
      && LexLess(over, full)
      && NextDisplayId([full], year) == over
      && NextDisplayId([full, over], year) == over
  {
    var full, over := DisplayIdFor(year, 999_999), DisplayIdFor(year, 1_000_000);
    OverSortsFirst(year);
    LexLessAsymmetric(over, full);
    LexLessIrreflexive(full);
    NextAfterFull([full], year);
    NextAfterFull([full, over], year);
  }
}
