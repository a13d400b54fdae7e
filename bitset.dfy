/** The Option datatype, for results that may be absent. */
module Wrappers {

  datatype Option<+T> = None | Some(value: T)
}

/** The operations of the growable bitset (github.com/willf/bitset) that
    ef.go calls. A bitset is the sequence of its bits, as long as the
    bitset's current length: setting a bit past the end grows it to just
    hold that bit, while clearing or testing a bit past the end changes
    nothing and reads 0. */
module Bitset {

  import opened Wrappers

  /** `b.Test(i)`: a bit past the end reads 0. */
  predicate Test(b: seq<bool>, i: nat)
    ensures Test(b, i) ==> i < |b|
  {
    i < |b| && b[i]
  }

  /** `bitset.New(len)`: `len` bits, none of them set. */
  function Zeros(len: nat): (b: seq<bool>)
    ensures |b| == len
    ensures forall i: nat :: !Test(b, i)
  {
    seq(len, _ => false)
  }

  /** `b.Set(i)`, growing the bitset when `i` is past its end. */
  function Set(b: seq<bool>, i: nat): (r: seq<bool>)
    ensures |r| == if i < |b| then |b| else i + 1
    ensures forall k: nat :: Test(r, k) == (k == i || Test(b, k))
  {
    if i < |b| then b[i := true] else b + Zeros(i - |b|) + [true]
  }

  /** `b.Clear(i)`; a no-op past the end. */
  function Clear(b: seq<bool>, i: nat): (r: seq<bool>)
    ensures |r| == |b|
    ensures forall k: nat :: Test(r, k) == (k != i && Test(b, k))
  {
    if i < |b| then b[i := false] else b
  }

  /** `b.SetTo(i, value)`: only a set bit can grow the bitset. */
  function SetTo(b: seq<bool>, i: nat, value: bool): (r: seq<bool>)
    ensures |r| == if value && i >= |b| then i + 1 else |b|
    ensures forall k: nat :: Test(r, k) == if k == i then value else Test(b, k)
  {
    if value then Set(b, i) else Clear(b, i)
  }

  /** `b.NextSet(from)`: the smallest set index at or after `from`, if any. */
  function NextSet(b: seq<bool>, from: nat): (r: Option<nat>)
    decreases |b| - from
    ensures r.Some? ==> from <= r.value < |b| && Test(b, r.value)
    ensures r.Some? ==> forall k: nat :: from <= k < r.value ==> !Test(b, k)
    ensures r.None? ==> forall k: nat :: from <= k ==> !Test(b, k)
  {
    if from >= |b| then None
    else if b[from] then Some(from)
    else NextSet(b, from + 1)
  }

  /** A set bit with no set bit between `from` and it is the one `NextSet` finds. */
  lemma NextSetFinds(b: seq<bool>, from: nat, t: nat)
    requires from <= t && Test(b, t)
    requires forall k: nat :: from <= k < t ==> !Test(b, k)
    ensures NextSet(b, from) == Some(t)
  {
  }
}
