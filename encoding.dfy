/** The bit layout of the Elias-Fano codec in ef.go, as functions of the
    inputs: where element `i` puts its high bit and its low field, what
    `SetBits` writes, what the read loop of `Next` assembles, what
    `Compress` leaves in the bitset and how `Next` turns bits back into a
    value. The lemmas show that the high bits and the low fields never
    collide and that decoding undoes encoding. */
module Encoding {

  import opened Wrappers
  import opened Uint64
  import opened Bitset

  // ---------------------------------------------------------------------
  // Layout

  /** The layout in which no index computed by `Compress` or `Next` wraps
      around: the low region starts right after the high region of
      `n + (universe >> lb) + 2` bits and ends inside the 64-bit range. */
  predicate Fits(universe: nat, n: nat, lb: nat, offset: nat) {
    && lb < 64
    && offset == n + Shr(universe, lb) + 2
    && offset + n * lb < LIMIT
  }

  /** Where element `i` of value `elem` sets its high bit: `(elem >> lb) + i + 1`. */
  function HighPos(elem: nat, i: nat, lb: nat): (r: nat)
    ensures i < r <= elem + i + 1
  {
    Shr(elem, lb) + i + 1
  }

  /** The low part `elem & mask` of an element: its low `lb` bits
      (`LowBits`, to which `MaskLow` equates the masking). Naming it
      separately keeps the recursive `LowBits` folded in the codec's
      proofs. */
  function Low(elem: nat, lb: nat): (r: nat)
    ensures r < Pow2(lb) && r <= elem
  {
    LowBits(elem, lb)
  }

  /** Where bit `j` (counted from the most significant) of the low field of
      element `i` is stored: one past `offset + i * lb + j`. */
  function FieldIndex(offset: nat, i: nat, lb: nat, j: nat): nat {
    offset + i * lb + j + 1
  }

  predicate Sorted(elems: seq<u64>) {
    forall i, j :: 0 <= i < j < |elems| ==> elems[i] <= elems[j]
  }

  predicate InUniverse(elems: seq<u64>, universe: nat) {
    forall i :: 0 <= i < |elems| ==> elems[i] <= universe
  }

  // ---------------------------------------------------------------------
  // Writing and reading one low field

  /** The bitset after the first `k` rounds of `SetBits(b, offset, bits,
      length)`: round `j` sets bit `offset + j + 1` to bit `length - 1 - j`
      of `bits`. */
  function WriteField(b: seq<bool>, offset: u64, bits: u64, length: u64, k: nat): (r: seq<bool>)
    requires k <= length
    decreases k
    ensures |b| <= |r|
    ensures |b| <= LIMIT ==> |r| <= LIMIT
  {
    if k == 0 then b
    else SetTo(WriteField(b, offset, bits, length, k - 1), Wrap(offset + k), Bit(bits, length - k))
  }

  /** `SetBits` writes `bits` most significant bit first into the `k`
      indices after `offset` and leaves every other index as it was. */
  lemma {:induction false} WriteFieldTests(b: seq<bool>, offset: u64, bits: u64, length: u64, k: nat)
    requires k <= length && offset + length < LIMIT
    ensures forall idx: nat :: Test(WriteField(b, offset, bits, length, k), idx) ==
              if offset < idx <= offset + k then Bit(bits, length - (idx - offset)) else Test(b, idx)
  {
    if k > 0 {
      WriteFieldTests(b, offset, bits, length, k - 1);
    }
  }

  /** The value the read loop of `Next` assembles from the `k` bits after
      `offset`, the first bit read being the most significant. */
  function FieldValue(b: seq<bool>, offset: u64, k: nat): (r: nat)
    ensures r < Pow2(k)
  {
    if k == 0 then 0
    else 2 * FieldValue(b, offset, k - 1) + (if Test(b, Wrap(offset + k)) then 1 else 0)
  }

  /** The top `k` of the `length` low bits of `v`, taken most significant
      first, as a number. */
  function TopBits(v: nat, length: nat, k: nat): nat
    requires k <= length
  {
    if k == 0 then 0 else 2 * TopBits(v, length, k - 1) + (if Bit(v, length - k) then 1 else 0)
  }

  /** The top `k` of the `length` low bits of `v` are the low `k` bits of
      `v >> (length - k)`. */
  lemma {:induction false} TopBitsValue(v: nat, length: nat, k: nat)
    requires k <= length
    ensures TopBits(v, length, k) == LowBits(Shr(v, length - k), k)
  {
    if k > 0 {
      TopBitsValue(v, length, k - 1);
      var s := length - k;
      ShrSucc(v, s);
      assert length - (k - 1) == s + 1;
    }
  }

  /** Reading `k` bits of a field holding `v` gives the top `k` of its
      `length` bits. */
  lemma {:induction false} FieldValueReads(b: seq<bool>, offset: u64, length: nat, v: nat, k: nat)
    requires k <= length && offset + length < LIMIT
    requires forall idx: nat :: offset < idx <= offset + length ==>
               Test(b, idx) == Bit(v, length - (idx - offset))
    ensures FieldValue(b, offset, k) == TopBits(v, length, k)
  {
    if k > 0 {
      FieldValueReads(b, offset, length, v, k - 1);
      var idx := offset + k;
      DivModUnique(idx, LIMIT, 0, idx);
      assert Test(b, idx) == Bit(v, length - k);
    }
  }

  /** Reading back a field that `SetBits` wrote gives its low `length` bits. */
  lemma FieldRoundTrip(b: seq<bool>, offset: u64, bits: u64, length: u64)
    requires offset + length < LIMIT
    ensures FieldValue(WriteField(b, offset, bits, length, length), offset, length) == LowBits(bits, length)
  {
    WriteFieldTests(b, offset, bits, length, length);
    FieldValueReads(WriteField(b, offset, bits, length, length), offset, length, bits, length);
    TopBitsValue(bits, length, length);
  }

  // ---------------------------------------------------------------------
  // Encoding a sequence

  /** Where the low field of element `i` starts: one before its first bit,
      `lowerBitsOffset + i * lowerBits` in Go's wrapping arithmetic. */
  function FieldStart(offset: u64, i: nat, lb: u64): (r: u64)
    ensures i == 0 ==> r == offset
  {
    WrapId(offset);
    Wrap(offset + i * lb)
  }

  /** Go wraps the product before the sum; the start is the same. */
  lemma FieldStartWraps(offset: u64, i: nat, lb: u64)
    ensures FieldStart(offset, i, lb) == Wrap(offset + Wrap(i * lb))
  {
    WrapAdd(offset, i * lb);
  }

  /** One round of the `Compress` loop: set the high bit of element `i`,
      then write its low field. */
  function EncodeElem(b: seq<bool>, elem: u64, i: nat, lb: u64, offset: u64): (r: seq<bool>)
    ensures |b| <= LIMIT ==> |r| <= LIMIT
  {
    var high := Wrap(HighPos(elem, i, lb));
    WriteField(Set(b, high), FieldStart(offset, i, lb), Low(elem, lb), lb, lb)
  }

  /** The bitset after `Compress` has encoded all of `elems` into `b`. */
  function Encode(b: seq<bool>, elems: seq<u64>, lb: u64, offset: u64): (r: seq<bool>)
    decreases |elems|
    ensures |b| <= |r|
    ensures |b| <= LIMIT ==> |r| <= LIMIT
  {
    if |elems| == 0 then b
    else EncodeElem(Encode(b, elems[..|elems| - 1], lb, offset), elems[|elems| - 1], |elems| - 1, lb, offset)
  }

  /** Encoding one more element of a prefix is one more round. */
  lemma EncodePrefix(b: seq<bool>, elems: seq<u64>, i: nat, lb: u64, offset: u64, pre: seq<bool>, r: seq<bool>)
    requires i < |elems|
    requires pre == Encode(b, elems[..i], lb, offset)
    requires r == EncodeElem(pre, elems[i], i, lb, offset)
    ensures r == Encode(b, elems[..i + 1], lb, offset)
    ensures |pre| <= LIMIT ==> |r| <= LIMIT
  {
    assert elems[..i + 1][..i] == elems[..i];
  }

  /** What a bitset holding `elems` looks like: every element's high bit is
      set, no other bit below `offset` is, every low field holds the low
      bits of its element, and nothing is set at `offset` or past the last
      field. */
  ghost predicate Encodes(b: seq<bool>, elems: seq<u64>, lb: nat, offset: nat) {
    && HighBitsSet(b, elems, lb)
    && OnlyHighBits(b, elems, lb, offset)
    && FieldsHold(b, elems, lb, offset)
    && NothingPastFields(b, elems, lb, offset)
  }

  /** Every element's high bit is set. */
  predicate HighBitsSet(b: seq<bool>, elems: seq<u64>, lb: nat) {
    forall i :: 0 <= i < |elems| ==> Test(b, HighPos(elems[i], i, lb))
  }

  /** Below `offset`, only elements' high bits are set. */
  ghost predicate OnlyHighBits(b: seq<bool>, elems: seq<u64>, lb: nat, offset: nat) {
    forall k: nat :: k < offset && Test(b, k) ==>
      exists i :: 0 <= i < |elems| && HighPos(elems[i], i, lb) == k
  }

  /** Every low field holds the low bits of its element, most significant first. */
  predicate FieldsHold(b: seq<bool>, elems: seq<u64>, lb: nat, offset: nat) {
    forall i, j :: 0 <= i < |elems| && 0 <= j < lb ==>
      Test(b, FieldIndex(offset, i, lb, j)) == Bit(Low(elems[i], lb), lb - 1 - j)
  }

  /** Nothing is set at `offset` or past the last field. */
  ghost predicate NothingPastFields(b: seq<bool>, elems: seq<u64>, lb: nat, offset: nat) {
    forall k: nat :: offset <= k && Test(b, k) ==> offset < k <= offset + |elems| * lb
  }

  /** The high bit of an element within the universe lies in [1, offset). */
  lemma HighPosInRegion(elem: nat, i: nat, universe: nat, n: nat, lb: nat, offset: nat)
    requires elem <= universe && i < n && offset == n + Shr(universe, lb) + 2
    ensures 1 <= HighPos(elem, i, lb) < offset
  {
    ShrMonotone(elem, universe, lb);
  }

  /** The high bits of a sorted sequence are strictly increasing, so no two
      elements share one, even when their high parts are equal. */
  lemma HighPosIncreasing(elems: seq<u64>, lb: nat, i: nat, j: nat)
    requires Sorted(elems) && i < j < |elems|
    ensures HighPos(elems[i], i, lb) < HighPos(elems[j], j, lb)
  {
    ShrMonotone(elems[i], elems[j], lb);
  }

  /** Low fields of distinct elements do not overlap: every bit of field `i`
      lies before every bit of field `i2 > i`, all of them after `offset`
      and none past `offset + n * lb`. */
  lemma FieldsDisjoint(offset: nat, n: nat, lb: nat, i: nat, j: nat, i2: nat, j2: nat)
    requires i < i2 < n && j < lb && j2 < lb
    ensures offset < FieldIndex(offset, i, lb, j) < FieldIndex(offset, i2, lb, j2) <= offset + n * lb
  {
    MulNext(i, i2, lb);
    MulNext(i2, n, lb);
  }

  /** A field of an element before `m` ends at or before `offset + m * lb`. */
  lemma FieldBefore(offset: nat, m: nat, lb: nat, i: nat, j: nat)
    requires i < m && j < lb
    ensures offset < FieldIndex(offset, i, lb, j) <= offset + m * lb
  {
    MulNext(i, m, lb);
  }

  /** How one round of `Compress` changes the bitset: the `lb` bits after
      `fo` now hold `low`, bit `h` is set, and every other bit is as it was. */
  ghost predicate Step(b: seq<bool>, b2: seq<bool>, h: nat, fo: nat, lb: nat, low: nat) {
    forall k: nat :: Test(b2, k) ==
      if fo < k <= fo + lb then Bit(low, lb - (k - fo)) else (k == h || Test(b, k))
  }

  /** One round of `Compress`, with no index wrapping around, is a `Step`. */
  lemma EncodeElemStep(b: seq<bool>, e: u64, m: nat, lb: u64, offset: u64)
    requires HighPos(e, m, lb) < LIMIT && offset + m * lb + lb < LIMIT
    ensures Step(b, EncodeElem(b, e, m, lb, offset), HighPos(e, m, lb), offset + m * lb, lb, Low(e, lb))
  {
    var h, fo := HighPos(e, m, lb), offset + m * lb;
    WrapId(h);
    WrapId(fo);
    WriteFieldTests(Set(b, h), fo, Low(e, lb), lb, lb);
  }

  /** A round keeps every earlier high bit set and sets its own. */
  lemma HighBitsStep(b: seq<bool>, b2: seq<bool>, elems: seq<u64>, m: nat, lb: nat, fo: nat,
                     universe: nat, offset: nat)
    requires m < |elems| && InUniverse(elems, universe) && offset <= fo
    requires offset == |elems| + Shr(universe, lb) + 2
    requires Step(b, b2, HighPos(elems[m], m, lb), fo, lb, Low(elems[m], lb))
    requires HighBitsSet(b, elems[..m], lb)
    ensures HighBitsSet(b2, elems[..m + 1], lb)
  {
    var post := elems[..m + 1];
    forall i | 0 <= i < |post|
      ensures Test(b2, HighPos(post[i], i, lb))
    {
      assert post[i] == elems[i];
      HighPosInRegion(elems[i], i, universe, |elems|, lb, offset);
      if i < m {
        assert elems[..m][i] == elems[i];
      }
    }
  }

  /** A round sets no bit below `offset` except its own high bit. */
  lemma OnlyHighStep(b: seq<bool>, b2: seq<bool>, elems: seq<u64>, m: nat, lb: nat, fo: nat, offset: nat)
    requires m < |elems| && offset <= fo
    requires Step(b, b2, HighPos(elems[m], m, lb), fo, lb, Low(elems[m], lb))
    requires OnlyHighBits(b, elems[..m], lb, offset)
    ensures OnlyHighBits(b2, elems[..m + 1], lb, offset)
  {
    var pre, post := elems[..m], elems[..m + 1];
    forall k: nat | k < offset && Test(b2, k)
      ensures exists i :: 0 <= i < |post| && HighPos(post[i], i, lb) == k
    {
      if k != HighPos(elems[m], m, lb) {
        var i :| 0 <= i < |pre| && HighPos(pre[i], i, lb) == k;
        assert post[i] == pre[i];
      } else {
        assert post[m] == elems[m];
      }
    }
  }

  /** A round writes its own field and leaves earlier fields intact. */
  lemma FieldsStep(b: seq<bool>, b2: seq<bool>, elems: seq<u64>, m: nat, lb: nat, offset: nat)
    requires m < |elems|
    requires HighPos(elems[m], m, lb) < offset
    requires Step(b, b2, HighPos(elems[m], m, lb), offset + m * lb, lb, Low(elems[m], lb))
    requires FieldsHold(b, elems[..m], lb, offset)
    ensures FieldsHold(b2, elems[..m + 1], lb, offset)
  {
    var pre, post := elems[..m], elems[..m + 1];
    forall i, j | 0 <= i < |post| && 0 <= j < lb
      ensures Test(b2, FieldIndex(offset, i, lb, j)) == Bit(Low(post[i], lb), lb - 1 - j)
    {
      assert post[i] == elems[i];
      if i < m {
        assert pre[i] == elems[i];
        FieldBefore(offset, m, lb, i, j);
      }
    }
  }

  /** A round sets nothing past its own field. */
  lemma NothingPastStep(b: seq<bool>, b2: seq<bool>, elems: seq<u64>, m: nat, lb: nat, offset: nat)
    requires m < |elems|
    requires HighPos(elems[m], m, lb) < offset
    requires Step(b, b2, HighPos(elems[m], m, lb), offset + m * lb, lb, Low(elems[m], lb))
    requires NothingPastFields(b, elems[..m], lb, offset)
    ensures NothingPastFields(b2, elems[..m + 1], lb, offset)
  {
    var fo := offset + m * lb;
    assert |elems[..m + 1]| * lb == m * lb + lb;
    forall k: nat | offset <= k && Test(b2, k)
      ensures offset < k <= fo + lb
    {
      if !(fo < k <= fo + lb) {
        assert Test(b, k);
      }
    }
  }

  /** Adding element `m` to a bitset that holds `elems[..m]` gives one that
      holds `elems[..m + 1]`. */
  lemma EncodeElemEncodes(b: seq<bool>, elems: seq<u64>, m: nat, universe: u64, lb: u64, offset: u64)
    requires m < |elems| && InUniverse(elems, universe)
    requires Fits(universe, |elems|, lb, offset)
    requires Encodes(b, elems[..m], lb, offset)
    ensures Encodes(EncodeElem(b, elems[m], m, lb, offset), elems[..m + 1], lb, offset)
  {
    var e := elems[m];
    HighPosInRegion(e, m, universe, |elems|, lb, offset);
    MulNext(m, |elems|, lb);
    MulLe(0, m, lb);
    var fo := offset + m * lb;
    assert offset <= fo && fo + lb < LIMIT;
    EncodeElemStep(b, e, m, lb, offset);
    var b2 := EncodeElem(b, e, m, lb, offset);
    HighBitsStep(b, b2, elems, m, lb, fo, universe, offset);
    OnlyHighStep(b, b2, elems, m, lb, fo, offset);
    FieldsStep(b, b2, elems, m, lb, offset);
    NothingPastStep(b, b2, elems, m, lb, offset);
  }

  /** `Compress` on a bitset with no bit set, over elements within the
      universe, leaves a bitset that holds exactly those elements. */
  lemma {:induction false} EncodeEncodes(b: seq<bool>, elems: seq<u64>, m: nat, universe: u64, lb: u64, offset: u64)
    requires forall k: nat :: !Test(b, k)
    requires m <= |elems| && InUniverse(elems, universe)
    requires Fits(universe, |elems|, lb, offset)
    ensures Encodes(Encode(b, elems[..m], lb, offset), elems[..m], lb, offset)
  {
    if m > 0 {
      EncodeEncodes(b, elems, m - 1, universe, lb, offset);
      var pre := Encode(b, elems[..m - 1], lb, offset);
      EncodeElemEncodes(pre, elems, m - 1, universe, lb, offset);
      EncodePrefix(b, elems, m - 1, lb, offset, pre, EncodeElem(pre, elems[m - 1], m - 1, lb, offset));
    }
  }

  // ---------------------------------------------------------------------
  // Decoding

  /** Where `Next` starts its search for a set bit: one past
      `high_bits_pos`, or 0 when it is 0. */
  function SearchFrom(highBitsPos: u64): (r: u64)
    ensures 0 < highBitsPos < LIMIT - 1 ==> r == highBitsPos + 1
    ensures highBitsPos == LIMIT - 1 ==> r == 0
  {
    WrapSucc(highBitsPos);
    if highBitsPos > 0 then Wrap(highBitsPos + 1) else 0
  }

  /** The index `Next` moves `high_bits_pos` to: the next set bit after it
      (from 0 when it is 0), and 0 when there is none. */
  function NextHigh(b: seq<bool>, highBitsPos: u64): (r: nat)
    ensures (exists k: nat :: SearchFrom(highBitsPos) <= k && Test(b, k)) ==> SearchFrom(highBitsPos) <= r && Test(b, r)
    ensures forall k: nat :: SearchFrom(highBitsPos) <= k < r ==> !Test(b, k)
    ensures (forall k: nat :: SearchFrom(highBitsPos) <= k ==> !Test(b, k)) ==> r == 0
  {
    match NextSet(b, SearchFrom(highBitsPos))
    case Some(p) => p
    case None => 0
  }

  /** What the read loop of `Next` leaves in `low` after its final
      `low >> 1`: the field's value, of which the `low << 1` steps keep 63
      bits. */
  function LowPart(b: seq<bool>, offset: u64, length: nat): (r: nat)
    ensures length == 0 ==> r == 0
  {
    LowBitsZero(63);
    LowBits(FieldValue(b, offset, length), 63)
  }

  /** A field of at most 63 bits comes back whole. */
  lemma LowPartExact(b: seq<bool>, offset: u64, length: nat)
    requires length <= 63
    ensures LowPart(b, offset, length) == FieldValue(b, offset, length)
  {
    var v := FieldValue(b, offset, length);
    Pow2Monotone(length, 63);
    LowBitsSmall(v, 63);
  }

  /** The value `Next` rebuilds at `position`:
      `((high_bits_pos - position - 1) << lb) | low`. */
  function Decode(b: seq<bool>, highBitsPos: u64, position: u64, lb: u64, offset: u64): (r: u64)
    ensures lb == 0 ==> r == Wrap(highBitsPos - position - 1)
  {
    var high := ShiftLeft(Wrap(highBitsPos - position - 1), lb);
    var low := LowPart(b, FieldStart(offset, position, lb), lb);
    NoLowBits(b, FieldStart(offset, position, lb), Wrap(highBitsPos - position - 1));
    Pow2Limit();
    Pow2Monotone(63, 64);
    OrBelow(high, low, 64);
    Or(high, low)
  }

  /** With no low bits, `x << 0` is `x`, the read loop yields 0, and
      `x | 0` is `x`. */
  lemma NoLowBits(b: seq<bool>, offset: u64, x: u64)
    ensures ShiftLeft(x, 0) == x && LowPart(b, offset, 0) == 0 && Or(x, 0) == x
  {
    WrapId(x);
    LowBitsZero(63);
  }

  /** No bit is set strictly between the high bits of elements `k` and `k + 1`. */
  lemma NoHighBetween(b: seq<bool>, elems: seq<u64>, lb: nat, offset: nat, k: nat)
    requires Sorted(elems) && OnlyHighBits(b, elems, lb, offset)
    requires k + 1 < |elems| && HighPos(elems[k + 1], k + 1, lb) < offset
    ensures forall idx: nat :: HighPos(elems[k], k, lb) < idx < HighPos(elems[k + 1], k + 1, lb) ==> !Test(b, idx)
  {
    forall idx: nat | HighPos(elems[k], k, lb) < idx < HighPos(elems[k + 1], k + 1, lb)
      ensures !Test(b, idx)
    {
      if Test(b, idx) {
        var i :| 0 <= i < |elems| && HighPos(elems[i], i, lb) == idx;
        if i <= k {
          if i < k {
            HighPosIncreasing(elems, lb, i, k);
          }
        } else if k + 1 < i {
          HighPosIncreasing(elems, lb, k + 1, i);
        }
      }
    }
  }

  /** From a non-zero `high_bits_pos`, `Next` moves to the first set bit after it. */
  lemma NextHighFinds(b: seq<bool>, hp: u64, t: nat)
    requires 0 < hp < t < LIMIT && Test(b, t)
    requires forall idx: nat :: hp < idx < t ==> !Test(b, idx)
    ensures NextHigh(b, hp) == t
  {
    WrapId(hp + 1);
    NextSetFinds(b, hp + 1, t);
  }

  /** From the high bit of element `k`, the next set bit is the high bit
      of element `k + 1`. */
  lemma NextHighIsSuccessor(b: seq<bool>, elems: seq<u64>, universe: u64, lb: u64, offset: u64, k: nat)
    requires Sorted(elems) && InUniverse(elems, universe)
    requires offset == |elems| + Shr(universe, lb) + 2
    requires HighBitsSet(b, elems, lb) && OnlyHighBits(b, elems, lb, offset)
    requires k + 1 < |elems|
    ensures HighPos(elems[k], k, lb) < LIMIT
    ensures NextHigh(b, HighPos(elems[k], k, lb)) == HighPos(elems[k + 1], k + 1, lb)
  {
    var hp, t := HighPos(elems[k], k, lb), HighPos(elems[k + 1], k + 1, lb);
    HighPosInRegion(elems[k], k, universe, |elems|, lb, offset);
    HighPosInRegion(elems[k + 1], k + 1, universe, |elems|, lb, offset);
    HighPosIncreasing(elems, lb, k, k + 1);
    NoHighBetween(b, elems, lb, offset, k);
    NextHighFinds(b, hp, t);
  }

  /** From `high_bits_pos == 0`, the first set bit is the high bit of element 0. */
  lemma NextHighFromZero(b: seq<bool>, elems: seq<u64>, universe: u64, lb: u64, offset: u64)
    requires Sorted(elems) && InUniverse(elems, universe)
    requires Fits(universe, |elems|, lb, offset)
    requires Encodes(b, elems, lb, offset)
    requires 0 < |elems|
    ensures NextHigh(b, 0) == HighPos(elems[0], 0, lb)
  {
    var t := HighPos(elems[0], 0, lb);
    HighPosInRegion(elems[0], 0, universe, |elems|, lb, offset);
    forall idx: nat | idx < t
      ensures !Test(b, idx)
    {
      if Test(b, idx) {
        var i :| 0 <= i < |elems| && HighPos(elems[i], i, lb) == idx;
        if 0 < i {
          HighPosIncreasing(elems, lb, 0, i);
        }
      }
    }
    NextSetFinds(b, 0, t);
  }

  /** At the high bit of element `i`, `(high_bits_pos - i - 1) << lb` is
      that element with its low `lb` bits cleared, and or-ing its low bits
      back in rebuilds it. */
  lemma DecodeHigh(e: u64, i: nat, lb: nat)
    ensures Or(ShiftLeft(Wrap(HighPos(e, i, lb) - i - 1), lb), Low(e, lb)) == e
  {
    var q := Shr(e, lb);
    ShrSplit(e, lb);
    WrapId(q);
    WrapId(q * Pow2(lb));
    OrDisjoint(q, lb, Low(e, lb));
  }

  /** The read loop of `Next` at position `i` yields the low bits of element `i`. */
  lemma DecodeLow(b: seq<bool>, elems: seq<u64>, lb: u64, offset: u64, i: nat)
    requires lb < 64 && offset + |elems| * lb < LIMIT
    requires FieldsHold(b, elems, lb, offset)
    requires i < |elems|
    ensures LowPart(b, FieldStart(offset, i, lb), lb) == Low(elems[i], lb)
  {
    var low := Low(elems[i], lb);
    MulNext(i, |elems|, lb);
    var fo := offset + i * lb;
    WrapId(fo);
    forall idx: nat | fo < idx <= fo + lb
      ensures Test(b, idx) == Bit(low, lb - (idx - fo))
    {
      assert idx == FieldIndex(offset, i, lb, idx - fo - 1);
    }
    FieldValueReads(b, fo, lb, low, lb);
    TopBitsValue(low, lb, lb);
    LowBitsSmall(low, lb);
    Pow2Monotone(lb, 63);
    LowBitsSmall(low, 63);
  }

  /** At the high bit of element `i`, `Next`'s arithmetic rebuilds exactly
      element `i`: the high part undoes the `+ i + 1` shift and the field
      supplies the low bits. */
  lemma DecodeRecovers(b: seq<bool>, elems: seq<u64>, universe: u64, lb: u64, offset: u64, i: nat)
    requires InUniverse(elems, universe)
    requires Fits(universe, |elems|, lb, offset)
    requires FieldsHold(b, elems, lb, offset)
    requires i < |elems|
    ensures HighPos(elems[i], i, lb) < LIMIT
    ensures Decode(b, HighPos(elems[i], i, lb), i, lb, offset) == elems[i]
  {
    var e := elems[i];
    HighPosInRegion(e, i, universe, |elems|, lb, offset);
    var h := HighPos(e, i, lb);
    DecodeHigh(e, i, lb);
    DecodeLow(b, elems, lb, offset, i);
    assert Decode(b, h, i, lb, offset) == Or(ShiftLeft(Wrap(h - i - 1), lb), Low(e, lb));
  }

  /** Forward iteration: from the cursor at element `k`, `Next` finds the
      high bit of element `k + 1` and decodes element `k + 1` there. */
  lemma NextDecodes(b: seq<bool>, elems: seq<u64>, universe: u64, lb: u64, offset: u64, k: nat)
    requires Sorted(elems) && InUniverse(elems, universe)
    requires Fits(universe, |elems|, lb, offset)
    requires Encodes(b, elems, lb, offset)
    requires k + 1 < |elems|
    ensures HighPos(elems[k], k, lb) < LIMIT && HighPos(elems[k + 1], k + 1, lb) < LIMIT
    ensures NextHigh(b, HighPos(elems[k], k, lb)) == HighPos(elems[k + 1], k + 1, lb)
    ensures Decode(b, HighPos(elems[k + 1], k + 1, lb), k + 1, lb, offset) == elems[k + 1]
  {
    NextHighIsSuccessor(b, elems, universe, lb, offset, k);
    DecodeRecovers(b, elems, universe, lb, offset, k + 1);
  }

  /** Starting over: searching from bit 0 finds the high bit of element 0,
      where element 0 decodes. */
  lemma FirstDecodes(b: seq<bool>, elems: seq<u64>, universe: u64, lb: u64, offset: u64)
    requires Sorted(elems) && InUniverse(elems, universe)
    requires Fits(universe, |elems|, lb, offset)
    requires Encodes(b, elems, lb, offset)
    requires 0 < |elems|
    ensures HighPos(elems[0], 0, lb) < LIMIT
    ensures NextHigh(b, 0) == HighPos(elems[0], 0, lb)
    ensures Decode(b, HighPos(elems[0], 0, lb), 0, lb, offset) == elems[0]
  {
    NextHighFromZero(b, elems, universe, lb, offset);
    DecodeRecovers(b, elems, universe, lb, offset, 0);
  }

  /** Every set bit lies at or before `offset + n * lb`; when there is a low
      region, that last index holds bit 0 of the last element. So the
      encoding occupies `offset + n * lb + 1` bits, one more than the
      `offset + n * lb` that ef.go allocates. */
  lemma EncodedFootprint(b: seq<bool>, elems: seq<u64>, lb: u64, offset: u64)
    requires Encodes(b, elems, lb, offset)
    ensures forall k: nat :: Test(b, k) ==> k <= offset + |elems| * lb
    ensures 0 < |elems| && 0 < lb ==>
      FieldIndex(offset, |elems| - 1, lb, lb - 1) == offset + |elems| * lb &&
      Test(b, offset + |elems| * lb) == Bit(elems[|elems| - 1], 0)
  {
    if 0 < |elems| && 0 < lb {
      var last := |elems| - 1;
      assert FieldIndex(offset, last, lb, lb - 1) == offset + |elems| * lb;
      LowBitsKeepBit0(elems[last], lb);
    }
  }
}
