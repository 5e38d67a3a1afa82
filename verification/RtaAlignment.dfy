/** `RtaAlign` in its 8-bit arithmetic, and what it amounts to in numbers. Bit-vectors stay in this module. */
module RtaAlignment {
  /** The alignment of the supported systems: 4 or 8 bytes. */
  predicate IsAlignment(alignTo: nat) {
    alignTo == 4 || alignTo == 8
  }

  ghost predicate IsAligned(off: nat, alignTo: nat) {
    if alignTo == 4 then off % 4 == 0 else off % 8 == 0
  }

  lemma MultipleOf4(k: int)
    ensures 4 * k % 4 == 0
  {
  }

  lemma MultipleOf8(k: int)
    ensures 8 * k % 8 == 0
  {
  }

  lemma SumAligned(x: nat, y: nat, alignTo: nat)
    requires IsAligned(x, alignTo) && IsAligned(y, alignTo)
    ensures IsAligned(x + y, alignTo)
  {
    if alignTo == 4 {
      assert x + y == 4 * (x / 4 + y / 4);
      MultipleOf4(x / 4 + y / 4);
    } else {
      assert x + y == 8 * (x / 8 + y / 8);
      MultipleOf8(x / 8 + y / 8);
    }
  }

  /** A length byte as a number. */
  ghost function SaLen(n: bv8): nat {
    n as int
  }

  /** The lengths that 8-bit rounding cannot represent. */
  ghost predicate Wraps(n: nat, alignTo: nat) {
    n + alignTo > 256
  }

  /** The rounding in numbers: up to the next multiple, at least one, and nothing for the lengths that wrap. */
  ghost function RoundUp(n: nat, alignTo: nat): nat {
    if n == 0 then alignTo
    else if Wraps(n, alignTo) then 0
    else if alignTo == 4 then (n + 3) / 4 * 4
    else (n + 7) / 8 * 8
  }

  lemma RoundUpMeaning(n: nat, alignTo: nat)
    requires IsAlignment(alignTo)
    ensures var r := RoundUp(n, alignTo);
      && IsAligned(r, alignTo)
      && (Wraps(n, alignTo) <==> r == 0)
      && (!Wraps(n, alignTo) ==> n <= r < n + alignTo || (n == 0 && r == alignTo))
  {
  }

  lemma LeastMultiple4(n: nat, q: nat)
    requires q % 4 == 0 && n <= q
    ensures (n + 3) / 4 * 4 <= q
  {
  }

  lemma LeastMultiple8(n: nat, q: nat)
    requires q % 8 == 0 && n <= q
    ensures (n + 7) / 8 * 8 <= q
  {
  }

  /** The least positive multiple that is no smaller than `n`, where 8 bits can hold it, and zero where they cannot. */
  lemma RoundUpIsLeast(n: nat, alignTo: nat)
    requires alignTo == 4 || alignTo == 8
    ensures var r := RoundUp(n, alignTo);
      if n + alignTo > 256 then r == 0
      else
        && r > 0 && r % alignTo == 0 && n <= r
        && forall q: nat :: q > 0 && q % alignTo == 0 && n <= q ==> r <= q
    ensures RoundUp(0, alignTo) == alignTo
  {
    forall q: nat | q > 0 && q % alignTo == 0 && n <= q && n + alignTo <= 256 ensures RoundUp(n, alignTo) <= q {
      if alignTo == 4 {
        LeastMultiple4(n, q);
      } else {
        LeastMultiple8(n, q);
      }
    }
  }

  /** Rounds up in 8-bit arithmetic, as the source does. */
  function RtaAlign(n: bv8, alignTo: bv8): bv8 {
    if n == 0 then alignTo else (n + (alignTo - 1)) & !(alignTo - 1)
  }

  /** The number of bytes by which `ParseAddrs` skips a sockaddr whose first byte is `n`. */
  function SkipLen(n: bv8, alignTo: nat): nat {
    if alignTo == 4 then RtaAlign(n, 4) as int else RtaAlign(n, 8) as int
  }

  lemma Mask4(x: bv8)
    ensures (x & 0xFC) as int == (x as int) / 4 * 4
  {
  }

  lemma Mask8(x: bv8)
    ensures (x & 0xF8) as int == (x as int) / 8 * 8
  {
  }

  lemma Add3(n: bv8)
    ensures (n + 3) as int == (n as int + 3) % 256
  {
  }

  lemma Add7(n: bv8)
    ensures (n + 7) as int == (n as int + 7) % 256
  {
  }

  lemma Rounds4(n: bv8)
    ensures RtaAlign(n, 4) as int == RoundUp(n as int, 4)
  {
    Mask4(n + 3);
    Add3(n);
  }

  lemma Rounds8(n: bv8)
    ensures RtaAlign(n, 8) as int == RoundUp(n as int, 8)
  {
    Mask8(n + 7);
    Add7(n);
  }

  /** 8-bit rounding is exact up to `256 - alignTo`, and zero exactly above it. */
  lemma RtaAlignMeaning(n: bv8, alignTo: nat)
    requires IsAlignment(alignTo)
    ensures SkipLen(n, alignTo) == RoundUp(SaLen(n), alignTo)
  {
    if alignTo == 4 {
      Rounds4(n);
    } else {
      Rounds8(n);
    }
  }
}
