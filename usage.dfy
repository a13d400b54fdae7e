/** Callers of the codec: encoding a sequence and reading it back in
    order, and the two ways of starting over, `Reset` and `Rewind`. */
module Usage {

  import opened Wrappers
  import opened Uint64
  import opened Bitset
  import opened Encoding
  import opened Ef

  /** After `Compress` has accepted all of `elems` into a fresh codec, the
      bitset holds them and the cursor stands at element 0. */
  lemma CompressedAt(ef: EliasFano, elems: seq<u64>, b0: seq<bool>)
    requires ef.Valid() && |elems| == ef.n
    requires Fits(ef.universe, ef.n, ef.lowerBits, ef.lowerBitsOffset)
    requires forall k: nat :: !Test(b0, k)
    requires Sorted(elems) && InUniverse(elems, ef.universe)
    requires ef.b == Encode(b0, elems[..|elems|], ef.lowerBits, ef.lowerBitsOffset)
    requires 0 < |elems| && ef.position == 0
    requires ef.curValue == elems[0]
    requires ef.highBitsPos == Wrap(HighPos(elems[0], 0, ef.lowerBits))
    ensures ef.At(elems, 0)
  {
    var lb := ef.lowerBits;
    HighPosInRegion(elems[0], 0, ef.universe, ef.n, lb, ef.lowerBitsOffset);
    WrapId(Shr(elems[0], lb) + 1);
    assert ef.highBitsPos == HighPos(elems[0], 0, lb);
    EncodeEncodes(b0, elems, |elems|, ef.universe, lb, ef.lowerBitsOffset);
    assert elems[..|elems|] == elems;
    assert Encodes(ef.b, elems, lb, ef.lowerBitsOffset);
  }

  /** One call of `Next` from the cursor at element `k` moves it to element
      `k + 1` and returns that element. */
  method Step(ef: EliasFano, ghost elems: seq<u64>, ghost k: nat) returns (v: u64)
    requires ef.At(elems, k) && k + 1 < |elems|
    modifies ef
    ensures ef.At(elems, k + 1) && v == elems[k + 1]
  {
    NextDecodes(ef.b, elems, ef.universe, ef.lowerBits, ef.lowerBitsOffset, k);
    WrapId(k + 1);
    var err;
    v, err := ef.Next();
    assert ef.position == k + 1 && ef.highBitsPos == HighPos(elems[k + 1], k + 1, ef.lowerBits);
    assert ef.Holds(elems);
  }

  /** Read the rest of the sequence with `Next`, from the cursor at element
      0 to the last element. */
  method ReadAll(ef: EliasFano, ghost elems: seq<u64>) returns (out: seq<u64>)
    requires ef.At(elems, 0)
    modifies ef
    ensures out == elems
    ensures ef.At(elems, |elems| - 1)
  {
    out := [ef.Value()];
    while |out| < ef.Size()
      invariant 1 <= |out| <= |elems| == ef.n
      invariant out == elems[..|out|]
      invariant ef.At(elems, |out| - 1)
      decreases |elems| - |out|
    {
      var v := Step(ef, elems, |out| - 1);
      assert elems[..|out| + 1] == out + [v];
      out := out + [v];
    }
  }

  /** Encode `elems` into a codec of the same size, read them back with
      `Value` and `Next`, see `Next` report the end, rewind and read them
      back again. */
  method RoundTrip(universe: u64, elems: seq<u64>, ratioBits: u64)
    returns (err: Option<Error>, first: seq<u64>, endErr: Option<Error>, again: seq<u64>)
    requires 0 < |elems| < LIMIT
    requires LayoutFits(universe, |elems|, ratioBits)
    ensures err.None? <==> Sorted(elems) && InUniverse(elems, universe)
    ensures err.None? ==> first == elems && endErr == Some(EndReached) && again == elems
  {
    var ef := new EliasFano.New(universe, |elems|, ratioBits);
    ghost var b0 := ef.b;
    err := ef.Compress(elems);
    ScanAccepts(elems, universe);
    if err.Some? {
      return err, [], None, [];
    }
    CompressedAt(ef, elems, b0);
    first := ReadAll(ef, elems);
    var v;
    v, endErr := ef.Next();
    WrapId(|elems|);
    FirstDecodes(ef.b, elems, universe, ef.lowerBits, ef.lowerBitsOffset);
    ef.Rewind();
    again := ReadAll(ef, elems);
  }

  /** A codec over [0, 3] holding `[0, 1, 2]`, with no low bits, its
      cursor at element 0. */
  method CompressSmall() returns (ef: EliasFano)
    ensures fresh(ef) && ef.At([0, 1, 2], 0)
    ensures ef.lowerBits == 0 && ef.lowerBitsOffset == 8
  {
    var elems: seq<u64> := [0, 1, 2];
    ef := new EliasFano.New(3, 3, 0);
    ghost var b0 := ef.b;
    assert Sorted(elems) && InUniverse(elems, 3);
    ScanAccepts(elems, 3);
    var err := ef.Compress(elems);
    CompressedAt(ef, elems, b0);
  }

  /** In the bitset of `[0, 1, 2]` with no low bits, nothing is set after
      the last high bit (index 5), so the search from there finds none. */
  lemma NothingAfterLastHigh(b: seq<bool>)
    requires Encodes(b, [0, 1, 2], 0, 8)
    ensures NextHigh(b, 5) == 0
  {
    var elems: seq<u64> := [0, 1, 2];
    forall k: nat | 6 <= k
      ensures !Test(b, k)
    {
      if k < 8 {
        assert HighPos(elems[0], 0, 0) == 1;
        assert HighPos(elems[1], 1, 0) == 3;
        assert HighPos(elems[2], 2, 0) == 5;
      }
    }
    WrapId(6);
  }

  /** With the high bit at 0 and the position at 1, `Next` decodes
      `(0 - 1 - 1) << 0`, which wraps to 2^64 - 2. */
  lemma DecodeWraps(b: seq<bool>)
    ensures Decode(b, 0, 1, 0, 8) == LIMIT - 2
  {
    assert ShiftLeft(Wrap(0 - 1 - 1), 0) == LIMIT - 2;
    assert LowPart(b, FieldStart(8, 1, 0), 0) == 0;
  }

  /** `Reset` after reading `[0, 1, 2]` to its end leaves the cursor's high
      bit at element 2 while the position says 0: the next `Next` finds no
      set bit after it and returns 2^64 - 2 instead of element 1. */
  method ResetThenNext() returns (v: u64)
    ensures v == LIMIT - 2
  {
    var ef := ReadSmallToEnd();
    DecodeWraps(ef.b);
    ef.Reset();
    var err;
    v, err := ef.Next();
  }

  /** `[0, 1, 2]` read with `Next` up to its last element, whose high bit
      is at index 5, with no set bit after it. */
  method ReadSmallToEnd() returns (ef: EliasFano)
    ensures fresh(ef) && ef.Valid() && ef.n == 3
    ensures ef.lowerBits == 0 && ef.lowerBitsOffset == 8
    ensures ef.highBitsPos == 5 && NextHigh(ef.b, 5) == 0
  {
    var elems: seq<u64> := [0, 1, 2];
    ef := CompressSmall();
    var v := Step(ef, elems, 0);
    v := Step(ef, elems, 1);
    NothingAfterLastHigh(ef.b);
  }

  /** The same run with `Rewind` in place of `Reset`: `Next` then yields
      element 1 again. */
  method RewindThenNext() returns (v: u64)
    ensures v == 1
  {
    var elems: seq<u64> := [0, 1, 2];
    var ef := CompressSmall();
    v := Step(ef, elems, 0);
    v := Step(ef, elems, 1);
    FirstDecodes(ef.b, elems, 3, 0, 8);
    ef.Rewind();
    v := Step(ef, elems, 0);
  }
}
