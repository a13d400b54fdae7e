/** The Elias-Fano codec of ef.go: construction of the layout, `Compress`,
    `SetBits`, forward iteration with `Next`, `Reset` and the getters.

    The bitset that the Go struct holds by pointer is the field `b`, a
    value that every operation reassigns. The process abort of
    `log.Fatal` in `Compress` becomes a returned error. */
module Ef {

  import opened Wrappers
  import opened Uint64
  import opened Bitset
  import opened Encoding

  /** The failures of `Compress` (reported by `log.Fatal` in ef.go) and of
      `Next`. */
  datatype Error = NotSorted | AboveUniverse(elem: u64) | EndReached

  // ---------------------------------------------------------------------
  // Input checks of `Compress`

  /** The check `Compress` makes on element `i`: first order, then the
      universe bound. */
  function Violation(elems: seq<u64>, universe: u64, i: nat): (r: Option<Error>)
    requires i < |elems|
    ensures r.None? <==> (i == 0 || elems[i - 1] <= elems[i]) && elems[i] <= universe
    ensures r == Some(NotSorted) <==> i > 0 && elems[i] < elems[i - 1]
  {
    if i > 0 && elems[i] < elems[i - 1] then Some(NotSorted)
    else if elems[i] > universe then Some(AboveUniverse(elems[i]))
    else None
  }

  /** The index of the first element at or after `from` that fails its
      check, or `|elems|` when none does. */
  function Scan(elems: seq<u64>, universe: u64, from: nat): (r: nat)
    requires from <= |elems|
    decreases |elems| - from
    ensures from <= r <= |elems|
    ensures forall k :: from <= k < r ==> Violation(elems, universe, k).None?
    ensures r < |elems| ==> Violation(elems, universe, r).Some?
  {
    if from == |elems| then from
    else if Violation(elems, universe, from).Some? then from
    else Scan(elems, universe, from + 1)
  }

  /** Below the first failing index, the index checked is the first
      failing one exactly when its own check fails. */
  lemma ScanAt(elems: seq<u64>, universe: u64, i: nat)
    requires i <= Scan(elems, universe, 0) && i < |elems|
    ensures Scan(elems, universe, 0) == i <==> Violation(elems, universe, i).Some?
  {
  }

  /** Neighbours in order make the whole sequence sorted. */
  lemma {:induction false} AdjacentChain(elems: seq<u64>, i: nat, j: nat)
    requires forall k :: 0 < k < |elems| ==> elems[k - 1] <= elems[k]
    requires i <= j < |elems|
    ensures elems[i] <= elems[j]
    decreases j - i
  {
    if i < j {
      AdjacentChain(elems, i, j - 1);
      assert elems[j - 1] <= elems[j];
    }
  }

  /** `Compress` accepts its whole input exactly when the input is sorted
      and within the universe. */
  lemma ScanAccepts(elems: seq<u64>, universe: u64)
    ensures Scan(elems, universe, 0) == |elems| <==> Sorted(elems) && InUniverse(elems, universe)
  {
    var r := Scan(elems, universe, 0);
    if r == |elems| {
      forall k | 0 < k < |elems|
        ensures elems[k - 1] <= elems[k]
      {
        assert Violation(elems, universe, k).None?;
      }
      forall i, j | 0 <= i < j < |elems|
        ensures elems[i] <= elems[j]
      {
        AdjacentChain(elems, i, j);
      }
      forall i | 0 <= i < |elems|
        ensures elems[i] <= universe
      {
        assert Violation(elems, universe, i).None?;
      }
    } else if Sorted(elems) {
      assert r > 0 ==> elems[r - 1] <= elems[r];
      assert elems[r] > universe;
    }
  }

  // ---------------------------------------------------------------------
  // The loops of `SetBits` and of `Next`

  /** `SetBits`: write the low `length` bits of `bits` into the bits after
      `offset`, most significant first. */
  method SetBits(b: seq<bool>, offset: u64, bits: u64, length: u64) returns (r: seq<bool>)
    ensures r == WriteField(b, offset, bits, length, length)
  {
    r := b;
    var i: u64 := 0;
    while i < length
      invariant i <= length
      invariant r == WriteField(b, offset, bits, length, i)
    {
      var val := And(bits, ShiftLeft(1, length - i - 1));
      MaskedBit(bits, length - i - 1);
      r := SetTo(r, Wrap(offset + i + 1), val > 0);
      i := i + 1;
    }
  }

  /** The body of the `Compress` loop for element `elem` at index `i`: set
      its high bit, then write `elem & mask` into its low field. `b` holds
      the elements before it, encoded into `b0`. */
  method EncodeOne(b: seq<bool>, elem: u64, i: nat, lb: u64, mask: u64, lowerBitsOffset: u64,
                   ghost b0: seq<bool>, ghost elems: seq<u64>)
    returns (r: seq<bool>, high: u64)
    requires mask == Wrap(ShiftLeft(1, lb) - 1)
    requires i < |elems| && elems[i] == elem
    requires b == Encode(b0, elems[..i], lb, lowerBitsOffset) && |b| <= LIMIT
    ensures high == Wrap(HighPos(elem, i, lb))
    ensures r == Encode(b0, elems[..i + 1], lb, lowerBitsOffset) && |r| <= LIMIT
  {
    high := Wrap(HighPos(elem, i, lb));
    MaskLow(elem, lb);
    var low := And(elem, mask);
    r := Set(b, high);
    var offset := FieldStart(lowerBitsOffset, i, lb);
    r := SetBits(r, offset, low, lb);
    EncodePrefix(b0, elems, i, lb, lowerBitsOffset, b, r);
  }

  /** The loop of `Compress` over the bitset `b` and the cursor (`cv`,
      `hbp`): check each element against its predecessor and the universe,
      encode it, and let the first element place the cursor. */
  method EncodeAll(b: seq<bool>, elems: seq<u64>, universe: u64, lb: u64, mask: u64,
                   lowerBitsOffset: u64, cv: u64, hbp: u64)
    returns (r: seq<bool>, err: Option<Error>, cv': u64, hbp': u64)
    requires |b| <= LIMIT && mask == Wrap(ShiftLeft(1, lb) - 1)
    ensures |r| <= LIMIT
    ensures var j := Scan(elems, universe, 0);
      && err == (if j < |elems| then Violation(elems, universe, j) else None)
      && r == Encode(b, elems[..j], lb, lowerBitsOffset)
      && (j > 0 ==> cv' == elems[0] && hbp' == Wrap(HighPos(elems[0], 0, lb)))
      && (j == 0 ==> cv' == cv && hbp' == hbp)
  {
    r, cv', hbp' := b, cv, hbp;
    var last: u64 := 0;
    var i: nat := 0;
    while i < |elems|
      invariant i <= |elems| && |r| <= LIMIT
      invariant i <= Scan(elems, universe, 0)
      invariant i > 0 ==> last == elems[i - 1]
      invariant r == Encode(b, elems[..i], lb, lowerBitsOffset)
      invariant i > 0 ==> cv' == elems[0] && hbp' == Wrap(HighPos(elems[0], 0, lb))
      invariant i == 0 ==> cv' == cv && hbp' == hbp
    {
      var elem := elems[i];
      ScanAt(elems, universe, i);
      if i > 0 && elem < last {
        return r, Some(NotSorted), cv', hbp';
      }
      if elem > universe {
        return r, Some(AboveUniverse(elem)), cv', hbp';
      }
      var high;
      r, high := EncodeOne(r, elem, i, lb, mask, lowerBitsOffset, b, elems);
      last := elem;
      if i == 0 {
        cv', hbp' := elem, high;
      }
      i := i + 1;
    }
    assert elems[..i] == elems;
    return r, None, cv', hbp';
  }

  /** One round of the read loop: `low` holds twice the bits read so far,
      modulo 2^64, and stays even, so `low++` cannot wrap. */
  lemma ReadStep(low: u64, x: nat, bit: nat)
    requires low == Wrap(2 * x) && bit <= 1
    ensures low + bit < LIMIT
    ensures ShiftLeft(low + bit, 1) == Wrap(2 * (2 * x + bit))
  {
    assert ShiftLeft(low + bit, 1) == Wrap(2 * (low + bit)) by {
      assert Pow2(1) == 2;
    }
    var q := (2 * x) / LIMIT;
    assert 2 * x == q * LIMIT + low;
    var y := 2 * (2 * x + bit);
    assert 2 * (low + bit) == y - 2 * q * LIMIT;
    DivModUnique(2 * (low + bit), LIMIT, y / LIMIT - 2 * q, Wrap(y));
  }

  /** After the loop, `low >> 1` drops the extra shift and keeps 63 bits. */
  lemma ReadEnd(x: nat)
    ensures Shr(Wrap(2 * x), 1) == LowBits(x, 63)
  {
    ShrSplit(x, 63);
    Pow2Below(63);
    Pow2Limit();
    assert Pow2(64) == 2 * Pow2(63);
    var h := Shr(x, 63);
    assert 2 * x == h * LIMIT + 2 * LowBits(x, 63);
    DivModUnique(2 * x, LIMIT, h, 2 * LowBits(x, 63));
    assert Shr(Wrap(2 * x), 1) == Shr(Wrap(2 * x) / 2, 0);
  }

  /** The read loop of `Next`: assemble the `length` bits after `offset`,
      most significant first, shifting one place too far and back. */
  method ReadLow(b: seq<bool>, offset: u64, length: u64) returns (low: u64)
    ensures low == LowPart(b, offset, length)
  {
    low := 0;
    var i: u64 := 0;
    while i < length
      invariant i <= length
      invariant low == Wrap(2 * FieldValue(b, offset, i))
    {
      var bit := if Test(b, Wrap(offset + i + 1)) then 1 else 0;
      ReadStep(low, FieldValue(b, offset, i), bit);
      if Test(b, Wrap(offset + i + 1)) {
        WrapId(low + 1);
        low := Wrap(low + 1);
      }
      low := ShiftLeft(low, 1);
      i := i + 1;
    }
    ReadEnd(FieldValue(b, offset, length));
    assert low == Wrap(2 * FieldValue(b, offset, length));
    low := Shr(low, 1);
    assert low == LowBits(FieldValue(b, offset, length), 63);
  }

  /** The high-bit step of `Next`: search from one past `highBitsPos`, or
      from 0 when it is 0; no set bit found gives 0. */
  method SeekHigh(b: seq<bool>, highBitsPos: u64) returns (pos: u64)
    requires |b| <= LIMIT
    ensures pos == NextHigh(b, highBitsPos)
  {
    pos := highBitsPos;
    if pos > 0 {
      pos := Wrap(pos + 1);
    }
    var found := NextSet(b, pos);
    pos := if found.Some? then found.value else 0;
  }

  /** The decoding step of `Next`: read the low field at `position` and
      combine it with the high part `highBitsPos - position - 1`. */
  method DecodeValue(b: seq<bool>, highBitsPos: u64, position: u64, lb: u64, lowerBitsOffset: u64)
    returns (v: u64)
    ensures v == Decode(b, highBitsPos, position, lb, lowerBitsOffset)
  {
    var offset := FieldStart(lowerBitsOffset, position, lb);
    var low := ReadLow(b, offset, lb);
    var high := ShiftLeft(Wrap(highBitsPos - position - 1), lb);
    ValueFits(high, low);
    v := Or(high, low);
  }

  /** `lower_bits` of a codec over `n` elements in [0, universe], where
      `ratioBits` is what `msb(universe / n)` returns. */
  function LowerBits(universe: u64, n: u64, ratioBits: u64): (r: u64)
    ensures universe <= n ==> r == 0
    ensures universe > n ==> r == ratioBits
  {
    if universe > n then ratioBits else 0
  }

  /** The layout of `New(universe, n)` leaves room for every index that
      `Compress` and `Next` compute, with no wrap-around. */
  predicate LayoutFits(universe: u64, n: u64, ratioBits: u64) {
    var lb := LowerBits(universe, n, ratioBits);
    lb < 64 && n + Shr(universe, lb) + 2 + n * lb < LIMIT
  }

  /** When the layout fits, none of the sums of `New` wraps around. */
  lemma LayoutWraps(universe: u64, n: u64, lb: u64)
    requires n + Shr(universe, lb) + 2 + n * lb < LIMIT
    ensures Wrap(n + Shr(universe, lb) + 2) == n + Shr(universe, lb) + 2
    ensures FieldStart(n + Shr(universe, lb) + 2, n, lb) == n + Shr(universe, lb) + 2 + n * lb
  {
    var off, m := n + Shr(universe, lb) + 2, n * lb;
    WrapId(off);
    WrapId(off + m);
  }

  class EliasFano {
    const universe: u64
    const n: u64
    const lowerBits: u64
    const higherBitsLength: u64
    const mask: u64
    const lowerBitsOffset: u64
    const bvLen: u64
    var b: seq<bool>
    var curValue: u64
    var position: u64
    var highBitsPos: u64

    /** The layout fields as `New` computes them, in uint64 arithmetic. */
    predicate Layout()
      ensures Layout() && lowerBits < 64 ==> mask + 1 == Pow2(lowerBits)
      ensures Layout() && lowerBits >= 64 ==> mask == LIMIT - 1
    {
      MaskValue(lowerBits);
      && higherBitsLength == Wrap(n + Shr(universe, lowerBits) + 2)
      && mask == Wrap(ShiftLeft(1, lowerBits) - 1)
      && lowerBitsOffset == higherBitsLength
      && bvLen == Wrap(lowerBitsOffset + Wrap(n * lowerBits))
    }

    ghost predicate Valid()
      reads this
    {
      Layout() && |b| <= LIMIT
    }

    /** The bitset holds `elems`, a valid input whose layout does not wrap. */
    ghost predicate Holds(elems: seq<u64>)
      reads this
    {
      && Valid()
      && |elems| == n
      && Sorted(elems) && InUniverse(elems, universe)
      && Fits(universe, n, lowerBits, lowerBitsOffset)
      && Encodes(b, elems, lowerBits, lowerBitsOffset)
    }

    /** The cursor stands at element `k` of `elems`. */
    ghost predicate At(elems: seq<u64>, k: nat)
      reads this
    {
      && Holds(elems)
      && k < |elems|
      && position == k
      && highBitsPos == HighPos(elems[k], k, lowerBits)
      && curValue == elems[k]
    }

    /** `New(universe, n)`, with `ratioBits` standing for `msb(universe / n)`:
        Go divides by `n` when `universe > n`, which panics when `n == 0`. */
    constructor New(universe: u64, n: u64, ratioBits: u64)
      requires universe > n ==> n > 0
      ensures this.universe == universe && this.n == n
      ensures lowerBits == LowerBits(universe, n, ratioBits)
      ensures Layout() && Valid()
      ensures b == Zeros(bvLen)
      ensures curValue == 0 && position == 0 && highBitsPos == 0
      ensures LayoutFits(universe, n, ratioBits) ==>
        Fits(universe, n, lowerBits, lowerBitsOffset) && bvLen == lowerBitsOffset + n * lowerBits
    {
      var lb: u64 := 0;
      if universe > n {
        lb := ratioBits;
      }
      var hbl := Wrap(n + Shr(universe, lb) + 2);
      var m := Wrap(ShiftLeft(1, lb) - 1);
      var off := hbl;
      var len := FieldStart(off, n, lb);
      FieldStartWraps(off, n, lb);
      if LayoutFits(universe, n, ratioBits) {
        LayoutWraps(universe, n, lb);
      }
      this.universe := universe;
      this.n := n;
      lowerBits := lb;
      higherBitsLength := hbl;
      mask := m;
      lowerBitsOffset := off;
      bvLen := len;
      b := Zeros(len);
      curValue := 0;
      position := 0;
      highBitsPos := 0;
    }

    /** `Compress(elems)`: encode every element, stopping at the first that
        is out of order or above the universe; the first element also
        places the cursor. */
    method Compress(elems: seq<u64>) returns (err: Option<Error>)
      requires Valid()
      modifies this
      ensures Valid()
      ensures var j := Scan(elems, universe, 0);
        && err == (if j < |elems| then Violation(elems, universe, j) else None)
        && b == Encode(old(b), elems[..j], lowerBits, lowerBitsOffset)
        && (j > 0 ==> curValue == elems[0] && highBitsPos == Wrap(HighPos(elems[0], 0, lowerBits)))
        && (j == 0 ==> curValue == old(curValue) && highBitsPos == old(highBitsPos))
      ensures position == old(position)
    {
      var err0, cv, hbp;
      b, err0, cv, hbp := EncodeAll(b, elems, universe, lowerBits, mask, lowerBitsOffset, curValue, highBitsPos);
      curValue, highBitsPos := cv, hbp;
      return err0;
    }

    /** `Next()`: advance the position; past the last element report
        `EndReached` (the position has still moved), otherwise move to the
        next high bit and decode the value there. */
    method Next() returns (v: u64, err: Option<Error>)
      requires Valid()
      modifies this
      ensures Valid()
      ensures b == old(b) && position == Wrap(old(position) + 1)
      ensures position >= n ==>
        v == 0 && err == Some(EndReached) && curValue == old(curValue) && highBitsPos == old(highBitsPos)
      ensures position < n ==>
        && err == None
        && highBitsPos == NextHigh(b, old(highBitsPos))
        && curValue == Decode(b, highBitsPos, position, lowerBits, lowerBitsOffset)
        && v == curValue
    {
      position := Wrap(position + 1);
      if position >= Size() {
        return 0, Some(EndReached);
      }
      highBitsPos := SeekHigh(b, highBitsPos);
      curValue := DecodeValue(b, highBitsPos, position, lowerBits, lowerBitsOffset);
      return Value(), None;
    }

    /** `Reset()`: only the position returns to 0. */
    method Reset()
      modifies this
      ensures position == 0
      ensures b == old(b) && curValue == old(curValue) && highBitsPos == old(highBitsPos)
    {
      position := 0;
    }

    /** A reset that also returns the cursor to the first element: the high
        bit is searched from 0 and the value at position 0 decoded again. */
    method Rewind()
      requires Valid()
      modifies this
      ensures Valid()
      ensures b == old(b) && position == 0
      ensures highBitsPos == NextHigh(b, 0)
      ensures curValue == Decode(b, highBitsPos, 0, lowerBits, lowerBitsOffset)
    {
      position := 0;
      highBitsPos := SeekHigh(b, 0);
      curValue := DecodeValue(b, highBitsPos, 0, lowerBits, lowerBitsOffset);
    }

    /** `Value()`: the value at the cursor. */
    function Value(): (v: u64)
      reads this
      ensures forall elems: seq<u64>, k: nat :: At(elems, k) ==> v == elems[k]
    {
      curValue
    }

    /** `Position()`: the index of the element at the cursor. */
    function Position(): (p: u64)
      reads this
      ensures forall elems: seq<u64>, k: nat :: At(elems, k) ==> p == k
    {
      position
    }

    /** `Size()`: the number of elements the codec was built for. */
    function Size(): (r: u64)
      reads this
      ensures forall elems: seq<u64> :: Holds(elems) ==> r == |elems|
    {
      n
    }
  }

  /** The value `Next` assembles is a u64. */
  lemma ValueFits(high: u64, low: u64)
    ensures Or(high, low) < LIMIT
  {
    Pow2Limit();
    OrBelow(high, low, 64);
  }
}
