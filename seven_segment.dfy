/**
  determine_val (module/tuxctl-ioctl.c:290-413): the segment byte that
  shows a hexadecimal digit on one of the controller's four LED digits,
  with or without its decimal point.  Decode reads a segment byte back.
*/
module SevenSegment {
  import opened Wrappers

  /** VALL1..VALLF (module/tuxctl-ioctl.c:73-88): digits 0..F, decimal point off. */
  const PLAIN: seq<bv8> := [0xE7, 0x06, 0xCB, 0x8F, 0x2E, 0xAD, 0xED, 0x86,
                            0xEF, 0xAE, 0xEE, 0x6D, 0xE1, 0x4F, 0xE9, 0xE8]

  /** VAL0..VALF (module/tuxctl-ioctl.c:56-71): digits 0..F, decimal point on. */
  const WITH_DP: seq<bv8> := [0xF7, 0x16, 0xDB, 0x9F, 0x3E, 0xBD, 0xFD, 0x96,
                              0xFF, 0xBE, 0xFE, 0x7D, 0xF1, 0x5F, 0xF9, 0xF8]

  /** The segment that lights the decimal point. */
  const DP_SEGMENT: bv8 := 0x10

  /**
    determine_val on unsigned long (32 bits on the i386 kernel the driver
    is built for): the digit's byte for decimal point 1 or 0, 0 for a
    value that is not a digit, and the value itself for any other point.
  */
  function DetermineVal(val: bv32, dp: bv32): (r: bv32)
    ensures dp <= 1 ==> r < 0x100
    ensures dp <= 1 && 16 <= val ==> r == 0
    ensures 1 < dp ==> r == val
  {
    if dp == 1 then
      if val < 16 then WITH_DP[val as bv8 as int] as bv32 else 0
    else if dp == 0 then
      if val < 16 then PLAIN[val as bv8 as int] as bv32 else 0
    else val
  }

  /** The first index at or after from where table holds x. */
  function IndexOf(table: seq<bv8>, x: bv8, from: nat): (r: Option<nat>)
    requires from <= |table|
    ensures r.Some? ==> from <= r.value < |table| && table[r.value] == x
    ensures r.Some? ==> forall i :: from <= i < r.value ==> table[i] != x
    ensures r.None? ==> forall i :: from <= i < |table| ==> table[i] != x
    decreases |table| - from
  {
    if from == |table| then None
    else if table[from] == x then Some(from)
    else IndexOf(table, x, from + 1)
  }

  /** A digit shown on the display and whether its decimal point is lit. */
  datatype Shown = Shown(digit: nat, dp: bool)

  /**
    The digit a segment byte shows, if it shows one: the inverse of
    determine_val's tables, which the driver itself never needs.
  */
  function Decode(seg: bv8): (r: Option<Shown>)
    ensures r.Some? ==> r.value.digit < 16
  {
    match IndexOf(PLAIN, seg & !DP_SEGMENT, 0)
    case None => None
    case Some(i) => Some(Shown(i, seg & DP_SEGMENT != 0))
  }

  /** No digit's plain byte lights the decimal point; its dotted byte is the same byte with it lit. */
  lemma TableFacts(i: nat)
    requires i < 16
    ensures PLAIN[i] & DP_SEGMENT == 0
    ensures WITH_DP[i] == PLAIN[i] | DP_SEGMENT
  {
    if i < 8 {
      if i < 4 {
        if i < 2 {} else {}
      } else {
        if i < 6 {} else {}
      }
    } else {
      if i < 12 {
        if i < 10 {} else {}
      } else {
        if i < 14 {} else {}
      }
    }
  }

  /** Each digit's byte with the decimal point is its plain byte with DP_SEGMENT set. */
  lemma DpSetsSegment(v: bv32)
    requires v < 16
    ensures DetermineVal(v, 1) == DetermineVal(v, 0) | DP_SEGMENT as bv32
  {
    TableFacts(v as bv8 as int);
  }

  /** The sixteen plain bytes are pairwise distinct. */
  lemma PlainInjective(i: nat, j: nat)
    requires i < 16 && j < 16 && PLAIN[i] == PLAIN[j]
    ensures i == j
  {
    PlainDistinctFrom(i);
  }

  lemma PlainDistinctFrom(i: nat)
    requires i < 16
    ensures forall j :: 0 <= j < 16 && j != i ==> PLAIN[j] != PLAIN[i]
  {
    if i < 8 {
      if i < 4 {
        if i < 2 {} else {}
      } else {
        if i < 6 {} else {}
      }
    } else {
      if i < 12 {
        if i < 10 {} else {}
      } else {
        if i < 14 {} else {}
      }
    }
  }

  /** Setting the decimal point on a byte without it can be undone, and shows. */
  lemma PointBit(x: bv8)
    requires x & DP_SEGMENT == 0
    ensures x & !DP_SEGMENT == x && (x | DP_SEGMENT) & !DP_SEGMENT == x
    ensures (x | DP_SEGMENT) & DP_SEGMENT != 0
  {
  }

  /** Decode reads back the digit and decimal point of either table's byte. */
  lemma DecodeDigit(i: nat, dp: bool)
    requires i < 16
    ensures Decode(if dp then WITH_DP[i] else PLAIN[i]) == Some(Shown(i, dp))
  {
    TableFacts(i);
    PointBit(PLAIN[i]);
    var found := IndexOf(PLAIN, PLAIN[i], 0);
    PlainInjective(i, found.value);
  }

  /** Decode reads back the digit and decimal point determine_val encoded. */
  lemma DecodeDetermineVal(v: bv32, dp: bv32)
    requires v < 16 && dp <= 1
    ensures Decode(DetermineVal(v, dp) as bv8) == Some(Shown(v as bv8 as int, dp == 1))
  {
    var i := v as bv8 as int;
    assert DetermineVal(v, dp) as bv8 == if dp == 1 then WITH_DP[i] else PLAIN[i];
    DecodeDigit(i, dp == 1);
  }

  /** Different digits, or the same digit with a different decimal point, give different bytes. */
  lemma DetermineValInjective(v: bv32, dp: bv32, v': bv32, dp': bv32)
    requires v < 16 && dp <= 1 && v' < 16 && dp' <= 1
    requires DetermineVal(v, dp) == DetermineVal(v', dp')
    ensures v == v' && dp == dp'
  {
    DecodeDetermineVal(v, dp);
    DecodeDetermineVal(v', dp');
  }
}
