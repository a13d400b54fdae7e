# Elias-Fano codec of go-ef, in Dafny

This project models `ef.go` of go-ef: an Elias-Fano encoder and decoder for a
non-decreasing sequence of `uint64` values bounded by a universe.

`New(universe, n)` lays out one bitset in two regions:

- **High region.** Its first `n + (universe >> lower_bits) + 2` bits hold one
  set bit per element `i`, at `(elem >> lower_bits) + i + 1`.
- **Low region.** It starts at `lower_bits_offset`. Element `i` owns a field of
  `lower_bits` bits that starts one bit after `lower_bits_offset + i * lower_bits`.
  The field holds `elem & mask`, most significant bit first.

`Compress` writes every element into this layout. `Next` moves a cursor
forward: it finds the next set high bit, reads the element's low field, and
rebuilds the value as `((high_bits_pos - position - 1) << lower_bits) | low`.

The model has six modules:

- **`Wrappers`**: the `Option` datatype, for results that may be absent.

- **`Uint64`**: Go's unsigned 64-bit arithmetic, stated on integers.
  - `Wrap` is reduction modulo 2^64.
  - `<<` is multiplication by 2^k modulo 2^64.
  - `>>`, `&` and `|` are defined by halving.
  - Lemmas tie the operators to arithmetic. For example, the mask
    `(1 << k) - 1` keeps the low `k` bits, and `bits & (1 << s) > 0` reads
    bit `s`.
- **`Bitset`**: the operations of github.com/willf/bitset that ef.go calls,
  on a `seq<bool>`.
  - `Set` grows the bitset.
  - `Clear` and `Test` past the end change nothing and read 0.
  - `NextSet` returns the first set index at or after its argument, or nothing.
- **`Encoding`**: the layout and the codec as functions of their inputs.
  - `EncodeElem` is one round of the `Compress` loop, and `Encode` is the whole
    loop.
  - `WriteField` is what `SetBits` writes. `FieldValue` and `LowPart` are what
    the read loop of `Next` assembles. `NextHigh` is where `Next` moves
    `high_bits_pos`, and `Decode` is the value it rebuilds.
  - `Encodes` describes, bit by bit, a bitset that holds a sequence.
  - The lemmas prove the layout free of collisions and show that `Next`
    decodes exactly the encoded elements.
- **`Ef`**: the class `EliasFano`, with the Go struct's fields.
  - The layout fields are `const`.
  - The bitset and the cursor (`curValue`, `position`, `highBitsPos`) are
    `var`s that the methods update.
  - The loops of `SetBits`, `Compress` and `Next` are methods with loop
    invariants. Each is proved against the corresponding `Encoding` function.
- **`Usage`**: callers of the codec.
  - A full round trip: compress, read everything back with `Next`, see the
    end reported, rewind, and read again.
  - The behaviour of `Reset` on a concrete codec.

**Go's arithmetic.** Every `uint64` sum, difference, product and shift that Go
computes is computed with wrap-around in the model too. The correctness lemmas
are stated under `Fits`, meaning the layout's indices stay below 2^64. `Usage`
reaches `Fits` through `LayoutFits` on the inputs of `New`.

**63 bits from the read loop.** The read loop of `Next` shifts once more than
it reads and then shifts back by one. As a result it keeps 63 bits of the
field (`LowPart`). Under `Fits`, every field has fewer than 64 bits, so the
value is unaffected (`DecodeLow`).

**One bit past `bv_len`.** The last low field ends at index
`lower_bits_offset + n * lower_bits`, which equals `bv_len`, one past the bits
that `New` allocates (`EncodedFootprint`). The bitset grows when `Set` writes
that bit, so nothing is lost.

**Behaviour a caller might expect that ef.go does not have.** The model
follows ef.go in both cases:

- A caller would expect `Reset` to return the cursor to element 0. It only
  sets `position` to 0 and does not decode the first element again (see
  Findings).
- A caller would expect a failed `Next` to leave the cursor alone. `Next`
  past the end still increments `position`.

**The repository's test.** The test in `ef_test.go` calls `Next` before it
reads the first element. By this model, `Next` right after `Compress` moves
the cursor to element 1 (`Usage.Step` from `Usage.CompressedAt`).

## Model

| member | source | states |
|---|---|---|
| Uint64.MaskedBit | ef.go:74 | `bits & (1 << s) > 0` holds exactly when bit `s` of `bits` is set, for every shift `s`, including `s >= 64`, where Go's shift yields 0 |
| Uint64.MaskLow | ef.go:41 | `x & ((1 << k) - 1)` is the low `k` bits of `x` for every `k`; from `k = 64` on, the mask wraps to all ones |
| Uint64.ShiftOne | ef.go:41 | `1 << s` is 2^s below 64 and 0 from 64 on |
| Uint64.MaskValue | ef.go:41 | `mask = (1 << lower_bits) - 1` is 2^lower_bits - 1 below 64 bits and all ones (2^64 - 1) from 64 on |
| Uint64.ShrSplit | ef.go:58-59 | a value is its part above bit `k`, shifted back, plus its low `k` bits |
| Uint64.OrDisjoint | ef.go:100 | `(h << k) \| low` is `h * 2^k + low` when `low` fits in `k` bits |
| Uint64.OrBelow | ef.go:100 | `\|` of two values below 2^k stays below 2^k |
| Bitset.Test | ef.go:94 | `b.Test(i)`: a bit past the end of the bitset reads 0 |
| Bitset.Zeros | ef.go:44 | `bitset.New(len)` has length `len` and no bit set |
| Bitset.Set | ef.go:60 | after `Set(i)`, bit `i` is set and every other bit is unchanged; the bitset grows just enough to hold `i` |
| Bitset.SetTo | ef.go:75 | `SetTo(i, v)` makes bit `i` read `v` and leaves the others; only setting a bit past the end grows the bitset |
| Bitset.Clear | ef.go:75 | `Clear(i)` makes bit `i` read 0, leaves the others and never changes the length |
| Bitset.NextSet | ef.go:89 | the result is the first set index at or after `from`, or none when no bit from `from` on is set |
| Encoding.WriteField | ef.go:71-77 | the bitset after the first `k` rounds of the `SetBits` loop, round `j` setting bit `offset + j + 1` to bit `length - 1 - j` of `bits`; it never shrinks the bitset, nor grows it past 2^64 bits (its bit-by-bit contents are `WriteFieldTests`) |
| Encoding.FieldValue | ef.go:91-98 | the value the read loop assembles from the `k` bits after `offset`, the first bit read being the most significant; it is below 2^k |
| Encoding.WriteFieldTests | ef.go:71-77 | after `k` rounds of `SetBits`, the `k` bits after `offset` hold the top `k` of the `length` low bits of `bits`, most significant first; every other bit is unchanged |
| Encoding.FieldValueReads | ef.go:91-98 | reading `k` bits of a field that holds `v` gives the top `k` of its bits |
| Encoding.FieldRoundTrip | ef.go:71-77 | reading back a field that `SetBits` wrote gives the low `length` bits of what was written |
| Encoding.Low | ef.go:59 | `elem & mask`: the low `lower_bits` bits of `elem`, below 2^lower_bits and at most `elem` |
| Encoding.HighPos | ef.go:58 | the unwrapped high position `(elem >> lower_bits) + i + 1` lies above `i` and at most `elem + i + 1` |
| Encoding.EncodeElem | ef.go:58-62 | one round of the `Compress` loop: set bit `(elem >> lower_bits) + i + 1`, then write `elem & mask` into field `i`; a bitset of at most 2^64 bits stays so (`EncodeElemStep` gives the round bit by bit) |
| Encoding.Encode | ef.go:51-68 | the bitset after the `Compress` loop has run over all of `elems`; it never shrinks and stays within 2^64 bits (`EncodeEncodes` says what it holds) |
| Encoding.FieldStart | ef.go:61 | the start of field `i`, `lower_bits_offset + i * lower_bits` modulo 2^64; field 0 starts at `lower_bits_offset` itself (`FieldStartWraps` gives Go's order of wrapping) |
| Encoding.FieldStartWraps | ef.go:61 | `lower_bits_offset + uint64(i) * lower_bits`, with its product wrapped first, is the field start |
| Encoding.HighPosInRegion | ef.go:40 | the high bit of an element within the universe lies in `[1, lower_bits_offset)`, so it is below the low region |
| Encoding.HighPosIncreasing | ef.go:58 | in a sorted sequence, later elements have strictly greater high bits, even when their high parts are equal |
| Encoding.FieldsDisjoint | ef.go:61-62 | the low fields of different elements do not overlap; all of them lie after `lower_bits_offset` and end by `lower_bits_offset + n * lower_bits` |
| Encoding.EncodeElemStep | ef.go:58-62 | one round of `Compress` sets the element's high bit and writes its low field; every other bit is unchanged |
| Encoding.EncodePrefix | ef.go:51-62 | encoding one more element of a prefix is one more round of the loop |
| Encoding.HighBitsStep | ef.go:60 | a round keeps every earlier high bit and adds its own |
| Encoding.OnlyHighStep | ef.go:60-62 | a round sets nothing below the low region except its own high bit |
| Encoding.FieldsStep | ef.go:61-62 | a round writes its own field and leaves every earlier field intact |
| Encoding.NothingPastStep | ef.go:61-62 | after a round, still nothing is set at `lower_bits_offset` or after the last field written so far |
| Encoding.EncodeElemEncodes | ef.go:58-62 | adding element `m` to a bitset that holds `elems[..m]` gives one that holds `elems[..m+1]` |
| Encoding.EncodeEncodes | ef.go:48-69 | compressing valid elements into an empty bitset yields one that holds exactly them: every high bit set, no other high-region bit, each low field holding its element's low bits, nothing after the last field |
| Encoding.SearchFrom | ef.go:85-88 | where the search of `Next` starts: 0 from 0, otherwise `high_bits_pos + 1`, which wraps to 0 when `high_bits_pos` is 2^64 - 1 |
| Encoding.NextHigh | ef.go:85-90 | whenever a bit at or after `SearchFrom(high_bits_pos)` is set, the result is such a bit, with no set bit between the start and it; 0 when no bit from the start on is set |
| Encoding.LowPart | ef.go:91-99 | the value of `low` after the final `low >> 1`: the low 63 bits of the field's value; an empty field gives 0 |
| Encoding.LowPartExact | ef.go:91-99 | a field of at most 63 bits is read back whole: `low` is the field's value |
| Encoding.Decode | ef.go:100 | the value `((high_bits_pos - position - 1) << lower_bits) \| low`, with `low` from the read loop at field `position`; with no low bits it is the wrapped gap `high_bits_pos - position - 1` (`DecodeRecovers` shows it undoes the encoding) |
| Encoding.NoHighBetween | ef.go:85-89 | in a bitset that holds a sorted sequence, no bit is set between the high bits of neighbouring elements |
| Encoding.NextHighFinds | ef.go:85-89 | from a non-zero `high_bits_pos`, `Next` moves to the first set bit after it |
| Encoding.NextHighIsSuccessor | ef.go:85-90 | from the high bit of element `k`, `Next` moves to the high bit of element `k + 1` |
| Encoding.NextHighFromZero | ef.go:85-90 | from `high_bits_pos == 0`, the search finds the high bit of element 0 |
| Encoding.DecodeHigh | ef.go:100 | at the high bit of element `i`, `(high_bits_pos - i - 1) << lower_bits` is the element with its low bits cleared; or-ing its low bits back in rebuilds it |
| Encoding.DecodeLow | ef.go:91-99 | the read loop at position `i` yields the low bits of element `i`, despite keeping only 63 bits |
| Encoding.DecodeRecovers | ef.go:91-100 | at the high bit of element `i`, `Next`'s arithmetic rebuilds exactly element `i` |
| Encoding.NextDecodes | ef.go:80-101 | from the cursor at element `k`, `Next` finds the high bit of element `k + 1` and decodes element `k + 1` there |
| Encoding.FirstDecodes | ef.go:85-100 | searching from bit 0 finds the high bit of element 0, where element 0 decodes |
| Encoding.EncodedFootprint | ef.go:43 | every set bit lies at or before `lower_bits_offset + n * lower_bits` (`bv_len`); when `lower_bits > 0`, that index holds bit 0 of the last element |
| Ef.Violation | ef.go:52-57 | the check on element `i`: no error exactly when it is first or not below its predecessor, and within the universe; `NotSorted` exactly when it is below its predecessor, which is checked first |
| Ef.Scan | ef.go:51-57 | the first index whose element is out of order or above the universe, or `len(elems)`; every earlier index passes both checks |
| Ef.ScanAccepts | ef.go:51-57 | `Compress` accepts the whole input exactly when it is sorted and within the universe |
| Ef.SetBits | ef.go:71-77 | the loop leaves the bitset as `WriteField` describes: the low `length` bits of `bits` after `offset`, most significant first |
| Ef.EncodeOne | ef.go:58-62 | one loop body: the returned `high` is `(elem >> lower_bits) + i + 1`; the bitset becomes the encoding of one more element |
| Ef.EncodeAll | ef.go:49-68 | the loop stops at the first failing element with its error; the bitset then holds exactly the elements before it; the first accepted element places the cursor |
| Ef.ReadStep | ef.go:94-97 | one round of the read loop: `low++` cannot wrap, and `low << 1` doubles the bits read so far, modulo 2^64 |
| Ef.ReadEnd | ef.go:99 | the final `low >> 1` leaves the low 63 bits of the field's value |
| Ef.ReadLow | ef.go:91-99 | the read loop computes `LowPart`, the low 63 bits of the field's value |
| Ef.SeekHigh | ef.go:85-90 | `high_bits_pos` moves to the next set bit after it (from 0 when it is 0), or to 0 when there is none |
| Ef.DecodeValue | ef.go:91-100 | the decoded value is `((high_bits_pos - position - 1) << lower_bits) \| low` |
| Ef.ValueFits | ef.go:100 | the value `Next` assembles fits in 64 bits |
| Ef.LowerBits | ef.go:36-39 | `lower_bits` is 0 when `universe <= n`, and `msb(universe / n)` (the parameter `ratioBits`) otherwise |
| Ef.LayoutWraps | ef.go:40-43 | when the layout fits, `higher_bits_length` and `bv_len` are computed without wrap-around |
| Ef.EliasFano.Layout | ef.go:40-43 | the layout fields follow ef.go's uint64 formulas; `mask + 1` is 2^lower_bits when `lower_bits < 64`, and `mask` is all ones otherwise |
| Ef.EliasFano.New | ef.go:35-46 | `lower_bits` is 0 unless `universe > n`; the layout fields follow ef.go's formulas in uint64 arithmetic; the bitset has `bv_len` zero bits; the cursor is at 0; when the layout fits, `bv_len` is `lower_bits_offset + n * lower_bits` |
| Ef.EliasFano.Compress | ef.go:48-69 | rejects the first element that is out of order or above the universe with its error; the bitset gains exactly the encoding of the accepted elements; the first accepted element sets `cur_value` and `high_bits_pos`; `position` is unchanged |
| Ef.EliasFano.Next | ef.go:80-103 | `position` always increments (with wrap-around); past the end the result is `(0, EndReached)` and the rest of the cursor is unchanged; otherwise `high_bits_pos` moves to the next set bit and `cur_value`, which is also returned, is the decoded value |
| Ef.EliasFano.Position | ef.go:105-107 | with the cursor at element `k`, `Position()` is `k` |
| Ef.EliasFano.Value | ef.go:124-126 | with the cursor at element `k`, `Value()` is element `k` |
| Ef.EliasFano.Size | ef.go:128-130 | for a codec holding `elems`, `Size()` is the number of elements |
| Ef.EliasFano.Reset | ef.go:109-111 | only `position` becomes 0; the bitset, `cur_value` and `high_bits_pos` are kept |
| Ef.EliasFano.Rewind | ef.go:109-111 | corrected reset: position 0, `high_bits_pos` at the first set bit, and `cur_value` decoded there |
| Usage.CompressedAt | ef.go:64-67 | after `Compress` accepts all elements of a fresh codec, the bitset holds them and the cursor stands at element 0 with its value |
| Usage.Step | ef.go:80-101 | from the cursor at element `k`, `Next` returns element `k + 1` and leaves the cursor there |
| Usage.ReadAll | ef.go:80-101 | from element 0, calling `Next` until the last element yields the whole sequence, with the cursor left at the last element |
| Usage.RoundTrip | ef.go:35-103 | `Compress` succeeds exactly for sorted inputs within the universe; then `Value` and `Next` return the sequence in order, the next `Next` reports `EndReached`, and after `Rewind` the sequence reads back again |
| Usage.CompressSmall | ef.go:35-69 | `New(3, 3)` with `[0, 1, 2]` has no low bits, its low region at 8, and the cursor at element 0 |
| Usage.NothingAfterLastHigh | ef.go:85-89 | in that bitset, the search after the last high bit (5) finds nothing and yields 0 |
| Usage.DecodeWraps | ef.go:100 | with `high_bits_pos` 0 at position 1, the decoded value wraps to 2^64 - 2 |
| Usage.ReadSmallToEnd | ef.go:80-101 | reading `[0, 1, 2]` to its last element leaves `high_bits_pos` at 5, with no set bit after it |
| Usage.ResetThenNext | ef.go:109-111 | `Next` after `Next, Next, Reset` on `[0, 1, 2]` returns 2^64 - 2 |
| Usage.RewindThenNext | ef.go:109-111 | `Next` after `Next, Next, Rewind` on `[0, 1, 2]` returns element 1 |

## Left out

- `msb` and `round` (ef.go:117-122, 136-138) use floating-point `math.Log2`. `New` therefore takes `ratioBits` as a parameter, standing for `msb(universe / n)`, and nothing is proved about how it is computed.
- Ef.EliasFano.New: requires `n > 0` when `universe > n`; ef.go divides by `n` there and panics on 0.
- `Info` (logging) and `Bitsize` (the bitset's serialised size) are not modelled. github.com/willf/bitset is not part of this model: its operations are stated from their documented behaviour, not from its code.
- `log.Fatal` and `log.Fatalf` end the process. Here, `Compress` returns the error instead, and its contract says what had been encoded by then.
- Ef.EliasFano.Compress: the loop runs in `Ef.EncodeAll` over values, and `Compress` stores the bitset and cursor into the fields after it, rather than inside the loop. The two are indistinguishable: nothing can observe the fields between rounds.
- The bitset that the Go struct holds by pointer is a value field here, so aliasing of the bitset is not modelled.
- Encoding.DecodeRecovers, Encoding.NextDecodes: they are proved only under `Fits`, for layouts where no index wraps past 2^64 and `lower_bits < 64`. The operations compute Go's wrapped indices in every case, but nothing is proved about values decoded from a layout that wraps.
- Usage.RoundTrip: `LayoutFits` excludes `lower_bits = 64`. ef.go reaches it only with `n = 1` and `universe` of at least about 2^63.5: `msb` rounds `log2(universe)` up to 64. A 64-bit field would lose its top bit in the 63-bit read loop, but with `n = 1` `Next` decodes nothing until `position` wraps around. The round trip is also not proved for layouts that wrap past 2^64.
- Go's `uint` is taken to be 64 bits wide. On a 32-bit platform, the `uint(...)` conversions at ef.go:44, 60, 75, 85 and 94 would truncate indices to 32 bits, and `pos++` at ef.go:87 would wrap at 2^32; the model does neither.
- Nothing models concurrency, since ef.go has none.

## Findings

| source | as written | input that shows it | evidently intended | confidence | as-written member | corrected member |
|---|---|---|---|---|---|---|
| ef.go:109-111 | `Reset` sets `position` to 0 but keeps `high_bits_pos` and `cur_value` from the old cursor, so the next `Next` resumes its search after the old high bit | `New(3, 3)`, `Compress([0, 1, 2])`, `Next`, `Next`, `Reset`, `Next`: the search after bit 5 finds nothing, and `Next` returns `(0 - 1 - 1) << 0` = 2^64 - 2 | `Reset` returns the cursor to element 0, so the next `Next` returns element 1 | not executed | Usage.ResetThenNext | Ef.EliasFano.Rewind (with Usage.RewindThenNext and Usage.RoundTrip) |
