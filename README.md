# Bit streams of Jellyfish, modelled in Dafny

This project models `jellyfish/bstream.hpp`. That file holds two classes:

- `obstream` packs fields of at most one machine word into a stream of whole words.
- `ibstream` unpacks such fields again.

The writer keeps a one-word `buffer` and a bit offset `boff`. Each `write(w, len)` ORs the low `len` bits of `w` in above the pending bits. When the word fills up, it is written to the output stream and the rest of the field is carried into a fresh buffer. `align`, `byte_align` and `one_pad` finish the current word (or byte) with zero or one bits. `close` is `align`.

The reader keeps the last word it fetched in `buffer` and the number of its unread bits in `bleft`. `read(len)` serves a request from the buffer when it can. Otherwise it fetches the next word and joins the two parts. `align` forgets the unread bits.

Modelling choices:

- A word is a natural number below 2^`bword`. `bword` is a per-object constant: any positive multiple of 8. It stands for `sizeof(word) * 8`.
- The output stream is the sequence `out` of emitted words.
- The input stream is a constant sequence `source` of words plus a cursor `pos`.
- `|` and `&` are bitwise functions on naturals (`WordOps.Or`, `WordOps.And`).
- `x << n` is the shift truncated to the word (`WordOps.Shl`).
- The external helpers are modelled as follows. Their source file is not part of this model.
  - `bitmask(n)` is 2^n - 1 (`BitArith.Bitmask`).
  - `rshift(x, n)` is floor division by 2^n, which is 0 when n is at least the width (`BitArith.Rshift`).

The meaning of the stream is stated on sequences of bits, lowest bit first:

- `Bits(x, n)` is the low `n` bits of `x`.
- `Flatten(ws, w)` is the bits of a sequence of `w`-bit words, in order.
- `OBStream.Stream()` is everything written so far: the emitted words, then the pending bits.
- `IBStream.Remaining()` is everything not yet read: the unread buffered bits, then the words not yet fetched.

Each operation is proved against these views. `write` appends exactly the field's bits. The aligns append exactly their padding. `read` removes exactly the bits it returns. `RoundTrip` joins the two classes: fields written and then word-aligned read back as the low bits of the values written.

The files:

- `bitarith.dfy`: powers of two, `bitmask`, `rshift`, division lemmas.
- `bitseqs.dfy`: bit sequences and their lemmas.
- `wordops.dfy`: `|`, `&`, `<<` on words.
- `obstream.dfy`: the writer.
- `ibstream.dfy`: the reader.
- `roundtrip.dfy`: writer and reader together.
- `scenarios.dfy`: concrete 8-bit runs.

## Model

| member | source | states |
|---|---|---|
| BitArith.Rshift | jellyfish/bstream.hpp:48 | `rshift(x, n)` never exceeds `x`, and is 0 when `x` has no bit at or above `n`, including a shift by the whole word width |
| WordOps.Shl | jellyfish/bstream.hpp:43 | `x << n` on a word is the low width - n bits of `x` moved up by `n`, and stays below 2^width |
| WordOps.AndBitmask | jellyfish/bstream.hpp:41 | `w & bitmask(len)` keeps exactly the low `len` bits of `w` (it is `w mod 2^len`) |
| WordOps.OrDisjoint | jellyfish/bstream.hpp:43 | ORing a value into bits above the pending bits is addition: no bit is lost or merged |
| BitSeqs.BitsOnes | jellyfish/bstream.hpp:77 | `bitmask(n)` is `n` one bits |
| OBStreams.WriteStep | jellyfish/bstream.hpp:41-48 | the merged word holds the pending bits followed by the field up to the word boundary; when the boundary is crossed, the carried `rshift` holds the rest of the field |
| OBStreams.WriteEffect | jellyfish/bstream.hpp:39-50 | the state after `write` keeps the writer invariant and extends the written bits by exactly the field; a word-sized write on an empty buffer emits the value itself |
| OBStreams.ZeroPadEffect | jellyfish/bstream.hpp:62-72 | advancing the offset over zero bits, and emitting when the word fills, extends the written bits by exactly those zeros |
| OBStreams.OnePadWord | jellyfish/bstream.hpp:77 | `buffer` ORed with `bitmask(bword) << boff` is the pending bits followed by ones up to the top of the word |
| OBStreams.OBStream.constructor | jellyfish/bstream.hpp:31 | a new writer has nothing pending and nothing emitted |
| OBStreams.OBStream.Write | jellyfish/bstream.hpp:39-50 | the written bits grow by the low `len` bits of `w`; a word is emitted exactly when the offset reaches the word size; the emitted word is the pending bits plus the start of the field; the rest of the field stays pending |
| OBStreams.OBStream.Align | jellyfish/bstream.hpp:53-59 | a partial word is emitted as it is and the state is reset; with nothing pending nothing is emitted (idempotent); the written bits grow by zeros up to the word boundary |
| OBStreams.OBStream.ByteAlign | jellyfish/bstream.hpp:62-72 | afterwards the offset is a multiple of 8; the written bits grow by the zeros up to the next byte; a word is emitted exactly when that reaches the word size |
| OBStreams.OBStream.OnePad | jellyfish/bstream.hpp:75-82 | a partial word is emitted with every bit above the offset set, and the written bits grow by those ones; with nothing pending nothing is emitted |
| OBStreams.OBStream.Close | jellyfish/bstream.hpp:34 | the same effect as `align` |
| IBStreams.ReadBuffered | jellyfish/bstream.hpp:110-117 | a request served from the buffer returns its low `len` bits and leaves the remaining bits, shifted down and still clean |
| IBStreams.ReadRefill | jellyfish/bstream.hpp:103-117 | after a refill, the masked OR of `buffer` and `word << bleft` is the buffered bits followed by the first `len - bleft` bits of the new word, and the shifted word holds that word's other bits |
| IBStreams.RefillStream | jellyfish/bstream.hpp:103-117 | a refill on a clean buffer returns exactly the next `len` input bits and leaves exactly the input after them |
| IBStreams.ReadEffect | jellyfish/bstream.hpp:101-118 | the state after `read` in both branches; on a clean buffer the result is the next `len` bits of the input and the buffer stays clean |
| IBStreams.IBStream.constructor | jellyfish/bstream.hpp:93 | a new reader has no buffered bits and has all of the input still to read |
| IBStreams.IBStream.Read | jellyfish/bstream.hpp:101-118 | the result is below 2^len; a word is fetched exactly when `len > bleft`; the new buffer and count in each branch; on a clean buffer the result followed by what is left is what was left before |
| IBStreams.IBStream.Align | jellyfish/bstream.hpp:121 | the unread count becomes 0 but the buffer is kept; the reader stays clean exactly when the dropped bits were all zero |
| IBStreams.IBStream.Close | jellyfish/bstream.hpp:96 | the same effect as `align` |
| IBStreams.IBStream.AlignCleared | jellyfish/bstream.hpp:120-121 | word alignment as its comment describes it: the unread bits are dropped and cleared, so the next read starts at the next input word |
| BitStreamProps.ReadAvailable | jellyfish/bstream.hpp:101-118 | `read(len)` on a clean reader with at least `len` bits left returns exactly the next `len` bits and stays clean |
| BitStreamProps.WriteFields | jellyfish/bstream.hpp:39-59 | writing fields and then closing emits the fields' bits in order, followed by less than a word of zero padding |
| BitStreamProps.ReadFields | jellyfish/bstream.hpp:101-118 | reading the same widths back from words that begin with the fields' bits yields each value's low `len` bits |
| BitStreamProps.RoundTrip | jellyfish/bstream.hpp:39-118 | write, close, then read back in the same widths: every value comes back modulo 2^len |
| BitStreamScenarios.PackTwoFields | jellyfish/bstream.hpp:39-118 | with 8-bit words, writing 5 in 3 bits and then 3 in 2 bits emits the single word 29, which reads back as 5 and 3 |
| BitStreamScenarios.AlignLeak | jellyfish/bstream.hpp:101-121 | with 8-bit words [255, 0]: `read(3)` gives 7, then `align()`, then `read(8)` gives 31, not the next word 0 |
| BitStreamScenarios.AlignClearedNoLeak | jellyfish/bstream.hpp:101-121 | the same reads with the cleared alignment give 7 and then 0 |

## Left out

- Stream I/O is not modelled. The `std::ostream` becomes the sequence of emitted words. The `std::istream` becomes a fixed sequence of words. The byte order in which a word is stored is not modelled.
- End of input is not modelled. `Read` requires a next word whenever it needs one. The source reads from the `istream` without checking, and what it returns at end of input is not modelled.
- The static counters `written` and `_read` are not modelled. They are never read.
- The `stream()` accessors are not modelled.
- The destructors are not modelled. They call `close()`, which is modelled.
- The template parameter `word` is replaced by the constant `bword`. It can be any positive multiple of 8, not only the widths of the C++ integer types.
- `bitmask` and `rshift` are defined in a file that is not part of this model. They are modelled by the behaviour their names and uses call for.
- WordOps.Shl: requires a shift smaller than the width. That is C++'s own condition for a defined shift, and every shift in the file meets it.
- OBStreams.OBStream.Write: requires `w` below 2^bword and `len` at most `bword`. The first is the range of the word type; the second is the documented precondition of `write`.
- IBStreams.IBStream.Read: states that the result is the next `len` input bits only when the buffer is clean. After `align` has dropped nonzero bits, only the exact values the code computes are stated (see Findings).
- The reader has no end-of-data signal. `Read` cannot tell the zero padding of the last word from written bits, and the model does not add such a signal.

## Findings

| source | as written | input that shows it | evidently intended | confidence | as-written member | corrected member |
|---|---|---|---|---|---|---|
| jellyfish/bstream.hpp:121 | `ibstream::align` sets `bleft = 0` but leaves the dropped bits in `buffer`. The next `read` starts from `res = buffer` and ORs those stale bits into its result. | 8-bit words [255, 0]: `read(3)` returns 7, `align()`, then `read(8)` returns 31 instead of the next word 0 | "Read and ignore up to next word boundary": the dropped bits are also cleared, so the next read returns the next word's bits. This is harmless when the dropped bits are a writer's zero padding. | medium; not executed | BitStreamScenarios.AlignLeak | IBStreams.IBStream.AlignCleared |
