/** The sockaddrs that follow a routing message header, and `ParseAddrs`, which finds them. */
module SockAddrs {
  import opened RtaAlignment
  import opened Wrappers

  const SIZEOF_SOCKADDR_INET4 := 16

  predicate HasBit(mask: bv32, i: nat)
    requires i < 32
  {
    mask & (1 << i) != 0
  }

  lemma HasBitMeaning(mask: bv32, i: nat)
    requires i < 32
    ensures HasBit(mask, i) <==> mask & (1 << i) != 0
  {
  }

  lemma BothBits()
    ensures HasBit(0x3, 0) && HasBit(0x3, 1)
  {
  }

  ghost function Nils(n: nat): seq<Option<nat>> {
    seq(n, _ => None)
  }

  /** The pointers for address slots `i..n`, as offsets into `b`, when parsing has reached `off`. */
  ghost function Offsets(b: seq<bv8>, mask: bv32, alignTo: nat, i: nat, n: nat, off: nat): (r: seq<Option<nat>>)
    requires i <= n <= 32 && off <= |b|
    ensures |r| == n - i
    decreases n - i
  {
    if i == n then []
    else if !HasBit(mask, i) then [None] + Offsets(b, mask, alignTo, i + 1, n, off)
    else
      var here := if |b| - off >= SIZEOF_SOCKADDR_INET4 then Some(off) else None;
      if off == |b| || |b| - off < RoundUp(SaLen(b[off]), alignTo) then [here] + Nils(n - i - 1)
      else [here] + Offsets(b, mask, alignTo, i + 1, n, off + RoundUp(SaLen(b[off]), alignTo))
  }

  lemma OffsetsUnfold(b: seq<bv8>, mask: bv32, alignTo: nat, i: nat, n: nat, off: nat)
    requires i < n <= 32 && off <= |b|
    ensures var r := Offsets(b, mask, alignTo, i, n, off);
      if !HasBit(mask, i) then
        r[0] == None && r[1..] == Offsets(b, mask, alignTo, i + 1, n, off)
      else
        && r[0] == (if |b| - off >= SIZEOF_SOCKADDR_INET4 then Some(off) else None)
        && r[1..] ==
          if off == |b| || |b| - off < RoundUp(SaLen(b[off]), alignTo) then Nils(n - i - 1)
          else Offsets(b, mask, alignTo, i + 1, n, off + RoundUp(SaLen(b[off]), alignTo))
  {
    hide HasBit, RoundUp, SaLen;
  }

  method ParseAddrs(dst: array<Option<nat>>, b: seq<bv8>, mask: bv32, alignTo: nat)
    requires dst.Length <= 32 && IsAlignment(alignTo)
    modifies dst
    ensures var all := Offsets(b, mask, alignTo, 0, dst.Length, 0);
      forall k :: 0 <= k < dst.Length ==> dst[k] == if all[k].Some? then all[k] else old(dst[k])
  {
    hide HasBit, RoundUp, SkipLen, SaLen, IsAlignment, Offsets;
    ghost var all := Offsets(b, mask, alignTo, 0, dst.Length, 0);
    var rest, off := b, 0;
    for i := 0 to dst.Length
      invariant off <= |b| && rest == b[off..]
      invariant all[i..] == Offsets(b, mask, alignTo, i, dst.Length, off)
      invariant forall k :: 0 <= k < i ==> dst[k] == if all[k].Some? then all[k] else old(dst[k])
      invariant forall k :: i <= k < dst.Length ==> dst[k] == old(dst[k])
    {
      OffsetsUnfold(b, mask, alignTo, i, dst.Length, off);
      assert all[i] == all[i..][0] && all[i + 1..] == all[i..][1..];
      if !HasBit(mask, i) {
        continue;
      }
      if |rest| >= SIZEOF_SOCKADDR_INET4 {
        dst[i] := Some(off);
      }
      if |rest| == 0 {
        assert forall k :: i < k < dst.Length ==> all[k] == all[i + 1..][k - i - 1];
        return;
      }
      RtaAlignMeaning(rest[0], alignTo);
      var alignedLen := SkipLen(rest[0], alignTo);
      if |rest| < alignedLen {
        assert forall k :: i < k < dst.Length ==> all[k] == all[i + 1..][k - i - 1];
        return;
      }
      rest := rest[alignedLen..];
      off := off + alignedLen;
    }
  }

  // ----- arbitrary bytes

  lemma AdvanceAligned(off: nat, n: nat, alignTo: nat)
    requires IsAlignment(alignTo) && IsAligned(off, alignTo)
    ensures IsAligned(off + RoundUp(n, alignTo), alignTo)
  {
    hide RoundUp, Wraps, IsAlignment, IsAligned;
    RoundUpMeaning(n, alignTo);
    SumAligned(off, RoundUp(n, alignTo), alignTo);
  }

  lemma {:induction false} OffsetFacts(b: seq<bv8>, mask: bv32, alignTo: nat, i: nat, n: nat, off: nat, k: nat)
    requires i <= n <= 32 && off <= |b| && IsAlignment(alignTo) && IsAligned(off, alignTo)
    requires k < n - i && Offsets(b, mask, alignTo, i, n, off)[k].Some?
    ensures var o := Offsets(b, mask, alignTo, i, n, off)[k].value;
      HasBit(mask, i + k) && off <= o <= |b| - SIZEOF_SOCKADDR_INET4 && IsAligned(o, alignTo)
    decreases n - i
  {
    hide HasBit, RoundUp, IsAlignment, IsAligned, Wraps, SaLen, Offsets;
    OffsetsUnfold(b, mask, alignTo, i, n, off);
    if k == 0 {
    } else {
      assert Offsets(b, mask, alignTo, i, n, off)[k] == Offsets(b, mask, alignTo, i, n, off)[1..][k - 1];
      if !HasBit(mask, i) {
        OffsetFacts(b, mask, alignTo, i + 1, n, off, k - 1);
      } else {
        AdvanceAligned(off, SaLen(b[off]), alignTo);
        OffsetFacts(b, mask, alignTo, i + 1, n, off + RoundUp(SaLen(b[off]), alignTo), k - 1);
      }
    }
  }

  /** Every recorded sockaddr belongs to a set bit, is aligned, and has the bytes of a `sockaddr_in` left. */
  lemma OffsetInBounds(b: seq<bv8>, mask: bv32, alignTo: nat, i: nat, n: nat, off: nat, k: nat)
    requires i <= n <= 32 && off <= |b| && IsAlignment(alignTo) && IsAligned(off, alignTo)
    requires k < n - i && Offsets(b, mask, alignTo, i, n, off)[k].Some?
    ensures var o := Offsets(b, mask, alignTo, i, n, off)[k].value;
      mask & (1 << (i + k)) != 0 && off <= o <= |b| - 16 && IsAligned(o, alignTo)
  {
    hide HasBit, RoundUp, IsAlignment, IsAligned, SaLen, Offsets;
    OffsetFacts(b, mask, alignTo, i, n, off, k);
    HasBitMeaning(mask, i + k);
  }

  /** A length that wraps pins the parser to one place. */
  lemma {:induction false} OffsetStuck(b: seq<bv8>, mask: bv32, alignTo: nat, i: nat, n: nat, off: nat, k: nat)
    requires i <= n <= 32 && off < |b| && IsAlignment(alignTo) && Wraps(SaLen(b[off]), alignTo)
    requires k < n - i && Offsets(b, mask, alignTo, i, n, off)[k].Some?
    ensures Offsets(b, mask, alignTo, i, n, off)[k].value == off
    decreases n - i
  {
    hide HasBit, RoundUp, IsAlignment, IsAligned, Wraps, SaLen;
    if k == 0 {
    } else {
      RoundUpMeaning(SaLen(b[off]), alignTo);
      OffsetStuck(b, mask, alignTo, i + 1, n, off, k - 1);
    }
  }

  /** Between any two recorded sockaddrs: the later lies past the earlier one, unless its length wraps. */
  lemma {:induction false} OffsetsOrdered(
      b: seq<bv8>, mask: bv32, alignTo: nat, i: nat, n: nat, off: nat, j: nat, k: nat)
    requires i <= n <= 32 && off <= |b| && IsAlignment(alignTo) && IsAligned(off, alignTo)
    requires j < k < n - i
    requires Offsets(b, mask, alignTo, i, n, off)[j].Some? && Offsets(b, mask, alignTo, i, n, off)[k].Some?
    ensures var o, o' := Offsets(b, mask, alignTo, i, n, off)[j].value, Offsets(b, mask, alignTo, i, n, off)[k].value;
      && o < |b|
      && if Wraps(SaLen(b[o]), alignTo) then o' == o else o' > o && o + SaLen(b[o]) <= o' <= |b|
    decreases n - i
  {
    hide HasBit, RoundUp, IsAlignment, IsAligned, Wraps, SaLen, Offsets;
    OffsetsUnfold(b, mask, alignTo, i, n, off);
    assert Offsets(b, mask, alignTo, i, n, off)[k] == Offsets(b, mask, alignTo, i, n, off)[1..][k - 1];
    if j > 0 {
      assert Offsets(b, mask, alignTo, i, n, off)[j] == Offsets(b, mask, alignTo, i, n, off)[1..][j - 1];
    }
    if !HasBit(mask, i) {
      OffsetsOrdered(b, mask, alignTo, i + 1, n, off, j - 1, k - 1);
    } else {
      var next := off + RoundUp(SaLen(b[off]), alignTo);
      AdvanceAligned(off, SaLen(b[off]), alignTo);
      if j > 0 {
        OffsetsOrdered(b, mask, alignTo, i + 1, n, next, j - 1, k - 1);
      } else {
        RoundUpMeaning(SaLen(b[off]), alignTo);
        OffsetFacts(b, mask, alignTo, i + 1, n, next, k - 1);
        if Wraps(SaLen(b[off]), alignTo) {
          OffsetStuck(b, mask, alignTo, i + 1, n, next, k - 1);
        }
      }
    }
  }

  /** A first sockaddr of length 255 is not skipped at all: two set bits give the same pointer twice. */
  lemma LongLengthRepeatsPointer(alignTo: nat)
    requires IsAlignment(alignTo)
    ensures var b := [255, 1, 2, 3, 4, 5, 6, 7, 8, 9, 10, 11, 12, 13, 14, 15];
      && Wraps(SaLen(b[0]), alignTo)
      && Offsets(b, 0x3, alignTo, 0, 2, 0) == [Some(0), Some(0)]
  {
    hide HasBit, Offsets;
    var b: seq<bv8> := [255, 1, 2, 3, 4, 5, 6, 7, 8, 9, 10, 11, 12, 13, 14, 15];
    BothBits();
    OffsetsUnfold(b, 0x3, alignTo, 0, 2, 0);
    OffsetsUnfold(b, 0x3, alignTo, 1, 2, 0);
    assert Offsets(b, 0x3, alignTo, 0, 2, 0)[1] == Offsets(b, 0x3, alignTo, 0, 2, 0)[1..][0];
  }

  // ----- laid-out sockaddrs

  /** A sockaddr states its own length first, and is short enough to be rounded; it may be empty. */
  ghost predicate IsSockAddr(sa: seq<bv8>, alignTo: nat) {
    !Wraps(|sa|, alignTo) && (sa != [] ==> SaLen(sa[0]) == |sa|)
  }

  ghost predicate AreSockAddrs(sas: seq<seq<bv8>>, alignTo: nat) {
    IsAlignment(alignTo) && forall k :: 0 <= k < |sas| ==> IsSockAddr(sas[k], alignTo)
  }

  ghost function Zeros(n: nat): (r: seq<bv8>)
    ensures |r| == n
  {
    seq(n, _ => 0)
  }

  /** A sockaddr with its padding. */
  ghost function Padded(sa: seq<bv8>, alignTo: nat): (r: seq<bv8>)
    requires IsAlignment(alignTo) && IsSockAddr(sa, alignTo)
    ensures |r| == RoundUp(|sa|, alignTo) > 0 && SaLen(r[0]) == |sa| && sa <= r
  {
    RoundUpMeaning(|sa|, alignTo);
    sa + Zeros(RoundUp(|sa|, alignTo) - |sa|)
  }

  ghost function Layout(sas: seq<seq<bv8>>, alignTo: nat): seq<bv8>
    requires AreSockAddrs(sas, alignTo)
  {
    if sas == [] then [] else Padded(sas[0], alignTo) + Layout(sas[1..], alignTo)
  }

  /** The sum of the first `k` aligned lengths. */
  ghost function AlignedTotal(sas: seq<seq<bv8>>, alignTo: nat, k: nat): nat
    requires AreSockAddrs(sas, alignTo) && k <= |sas|
    decreases k
  {
    if k == 0 then 0 else RoundUp(|sas[0]|, alignTo) + AlignedTotal(sas[1..], alignTo, k - 1)
  }

  /** How many of the address bits `i..n` are set. */
  ghost function BitCount(mask: bv32, i: nat, n: nat): nat
    requires i <= n <= 32
    decreases n - i
  {
    if i == n then 0 else (if HasBit(mask, i) then 1 else 0) + BitCount(mask, i + 1, n)
  }

  lemma {:induction false} BitCountGrows(mask: bv32, i: nat, j: nat, n: nat)
    requires i <= j <= n <= 32
    ensures BitCount(mask, i, j) <= BitCount(mask, i, n)
    decreases j - i
  {
    hide HasBit;
    if i == j {
    } else {
      BitCountGrows(mask, i + 1, j, n);
    }
  }

  lemma {:induction false} BitCountNext(mask: bv32, i: nat, j: nat, n: nat)
    requires i <= j < n <= 32 && HasBit(mask, j)
    ensures BitCount(mask, i, j) < BitCount(mask, i, n)
    decreases j - i
  {
    hide HasBit;
    if i == j {
    } else {
      BitCountNext(mask, i + 1, j, n);
    }
  }

  /** The pointer for slot `j`, when the laid-out sockaddrs for the bits `i..n` start at `off`. */
  ghost function Expected(
      sas: seq<seq<bv8>>, size: nat, mask: bv32, alignTo: nat, i: nat, j: nat, off: nat): Option<nat>
    requires i <= j < 32 && AreSockAddrs(sas, alignTo) && BitCount(mask, i, j) <= |sas|
  {
    var o := off + AlignedTotal(sas, alignTo, BitCount(mask, i, j));
    if HasBit(mask, j) && size - o >= SIZEOF_SOCKADDR_INET4 then Some(o) else None
  }

  lemma {:induction false} ParsesLayoutFrom(
      pre: seq<bv8>, sas: seq<seq<bv8>>, tail: seq<bv8>, mask: bv32, alignTo: nat, i: nat, n: nat, j: nat)
    requires i <= j < n <= 32 && AreSockAddrs(sas, alignTo) && |sas| == BitCount(mask, i, n)
    ensures var b := pre + Layout(sas, alignTo) + tail;
      && BitCount(mask, i, j) <= |sas|
      && Offsets(b, mask, alignTo, i, n, |pre|)[j - i] == Expected(sas, |b|, mask, alignTo, i, j, |pre|)
    decreases n - i
  {
    hide HasBit, RoundUp, SaLen, Padded, Offsets, IsSockAddr, IsAlignment;
    var b := pre + Layout(sas, alignTo) + tail;
    BitCountGrows(mask, i, j, n);
    OffsetsUnfold(b, mask, alignTo, i, n, |pre|);
    if i == j {
      return;
    }
    assert Offsets(b, mask, alignTo, i, n, |pre|)[j - i] == Offsets(b, mask, alignTo, i, n, |pre|)[1..][j - i - 1];
    if HasBit(mask, i) {
      var first := Padded(sas[0], alignTo);
      var after := Layout(sas[1..], alignTo);
      assert b == pre + first + after + tail;
      ParsesLayoutFrom(pre + first, sas[1..], tail, mask, alignTo, i + 1, n, j);
      assert b[|pre|] == first[0];
    } else {
      ParsesLayoutFrom(pre, sas, tail, mask, alignTo, i + 1, n, j);
    }
  }

  /** The `k`-th sockaddr begins at the sum of the aligned lengths before it. */
  lemma {:induction false} LayoutAt(sas: seq<seq<bv8>>, tail: seq<bv8>, alignTo: nat, k: nat)
    requires AreSockAddrs(sas, alignTo) && k < |sas|
    ensures var o := AlignedTotal(sas, alignTo, k);
      o <= |Layout(sas, alignTo)| && sas[k] <= (Layout(sas, alignTo) + tail)[o..]
  {
    hide RoundUp, SaLen, Padded, IsSockAddr, IsAlignment;
    var first := Padded(sas[0], alignTo);
    var after := Layout(sas[1..], alignTo);
    if k == 0 {
      assert Layout(sas, alignTo) + tail == sas[0] + first[|sas[0]|..] + after + tail;
    } else {
      var o := AlignedTotal(sas[1..], alignTo, k - 1);
      LayoutAt(sas[1..], tail, alignTo, k - 1);
      assert (Layout(sas, alignTo) + tail)[|first| + o..] == (after + tail)[o..];
    }
  }

  /** Layout round trip: every set slot points at its own sockaddr, if enough of the buffer remains there. */
  lemma ParsesLayout(sas: seq<seq<bv8>>, tail: seq<bv8>, mask: bv32, alignTo: nat, n: nat)
    requires n <= 32 && AreSockAddrs(sas, alignTo) && |sas| == BitCount(mask, 0, n)
    ensures var b := Layout(sas, alignTo) + tail;
      forall j :: 0 <= j < n ==>
        && BitCount(mask, 0, j) <= |sas|
        && var o := AlignedTotal(sas, alignTo, BitCount(mask, 0, j));
          && Offsets(b, mask, alignTo, 0, n, 0)[j] ==
            (if mask & (1 << j) != 0 && |b| - o >= 16 then Some(o) else None)
          && (mask & (1 << j) != 0 ==>
                BitCount(mask, 0, j) < |sas| && o <= |b| && sas[BitCount(mask, 0, j)] <= b[o..])
  {
    hide HasBit, RoundUp, Padded, Layout, Offsets, AlignedTotal;
    var b := Layout(sas, alignTo) + tail;
    assert [] + Layout(sas, alignTo) + tail == b;
    forall j | 0 <= j < n
      ensures BitCount(mask, 0, j) <= |sas|
      ensures HasBit(mask, j) <==> mask & (1 << j) != 0
      ensures Offsets(b, mask, alignTo, 0, n, 0)[j] == Expected(sas, |b|, mask, alignTo, 0, j, 0)
      ensures HasBit(mask, j) ==> BitCount(mask, 0, j) < |sas|
      ensures var o := AlignedTotal(sas, alignTo, BitCount(mask, 0, j));
        HasBit(mask, j) ==> o <= |Layout(sas, alignTo)| && sas[BitCount(mask, 0, j)] <= b[o..]
    {
      HasBitMeaning(mask, j);
      ParsesLayoutFrom([], sas, tail, mask, alignTo, 0, n, j);
      if HasBit(mask, j) {
        BitCountNext(mask, 0, j, n);
        LayoutAt(sas, tail, alignTo, BitCount(mask, 0, j));
      }
    }
  }
}
