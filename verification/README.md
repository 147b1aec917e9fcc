# Tight single-column iterator of shipyard, in Dafny

This project models `Tight1`, shipyard's tight iterator over one densely
packed storage column. A tight iterator visits every row in its range, skips
nothing, and reads items through an unchecked index into the column view.
The cursor holds a view plus a half-open range `[current, end)`. It can be
consumed from the front (`next`, built from `first_pass` and `post_process`)
or from the back (`next_back`). It reports its exact length (`len`,
`size_hint`) and the identity key of the row just before `current`, which is
the row it last read from the front, if it has read one (`last_id`). For
parallel consumption it splits in two with `split_at`. It can also be turned
into a chunk iterator or a chunk-exact iterator (`into_chunk`,
`into_chunk_exact`).

Layout:

- `tight_spec.dfy` (module `TightSpec`) covers the value-level part:
  - the column view `AbsView`, with items and identity keys per row and its two unchecked reads;
  - the range `Span`;
  - what a range yields forward (`Forward`) and backward (`Backward`);
  - the `split_at` partition (`SplitSpan`);
  - the lemmas that tie these together.
- `chunk.dfy` (module `Chunk`) holds the two chunk views as values, together with the contract their documentation promises:
  - a chunk iterator returns `size` rows at a time and a shorter slice last;
  - a chunk-exact iterator returns only full slices and leaves the rest to its remainder.

  The two functions `Slices` and `ExactSplit` say which slices these are. They are linked to Euclidean quotient and remainder through `StepsIsDivMod`.
- `tight.dfy` (module `Tight`) defines the class `Tight1`:
  - its fields `current` and `end` are updated in place by `first_pass`, `next`, `next_back` and `split_at`;
  - `Valid()` is the range invariant `current <= end <= |column|` that makes every unchecked read in bounds;
  - a ghost history records which rows were read from either end, so the class can state that no row is read twice;
  - `Remaining()` is the forward yield of the range that is left, and every mutating method states its effect on it.

## Model

| member | source | states |
|---|---|---|
| TightSpec.Forward | src/iter/iterators/s_tight.rs:93-102 | Calling `first_pass` until exhaustion yields exactly the column's items at rows `current, current + 1, ..., end - 1`, in ascending order. |
| TightSpec.Backward | src/iter/iterators/s_tight.rs:52-60 | Calling `next_back` until exhaustion yields `end - current` items, the k-th being the item at row `end - 1 - k`. |
| TightSpec.BackwardReversesForward | src/iter/iterators/s_tight.rs:51-60 | The full reverse yield is the full forward yield in reverse order. |
| TightSpec.ForwardDropLast | src/iter/iterators/s_tight.rs:52-60 | Taking one item from the back leaves the forward yield minus its last item, so the two ends consume one sequence. |
| TightSpec.SplitSpan | src/iter/iterators/s_tight.rs:79-87 | The left range is `[current, current + index)` and the right range is `[current + index, end)`. They are contiguous and their lengths sum to the original. No row is in both. A row is in the original exactly when it is in one of them. |
| TightSpec.ForwardSplit | src/iter/iterators/s_tight.rs:79-87 | The left piece's full yield followed by the right piece's full yield is the original full yield. |
| TightSpec.SplitSpanExample | src/iter/iterators/s_tight.rs:79-87 | Splitting `[0, 7)` at 3 gives `[0, 3)` of length 3 and `[3, 7)` of length 4. |
| Chunk.Slices | src/iter/iterators/s_tight.rs:14-16 | The slices a chunk iterator returns concatenate back to the range's items. Every slice has between 1 and `size` items, and all but the last have exactly `size`. |
| Chunk.SlicesCount | src/iter/iterators/s_tight.rs:14-16 | There is one slice per whole `size` step, plus one more exactly when a leftover exists. |
| Chunk.SlicesLast | src/iter/iterators/s_tight.rs:16 | The last slice is shorter than `size` exactly when `size` does not divide the length, and it then holds the leftover. |
| Chunk.ExactSplit | src/iter/iterators/s_tight.rs:25-29 | A chunk-exact iterator's slices all have length `size`, one per whole step. The remainder has fewer than `size` items. Slices followed by the remainder give back the range's items. |
| Chunk.StepsIsDivMod | src/iter/iterators/s_tight.rs:14-29 | The slice counts and leftover above are the Euclidean quotient and remainder of the length by `size`. |
| Chunk.Chunk1.ChunkShape | src/iter/iterators/s_tight.rs:14-16 | A chunk iterator over `len` rows returns `len / size` full slices, plus a last slice of `len % size` rows when that is not zero. |
| Chunk.ChunkExact1.ExactShape | src/iter/iterators/s_tight.rs:25-29 | A chunk-exact iterator over `len` rows returns `len / size` slices, and its remainder holds `len % size < size` rows. |
| Chunk.ChunkSizesExample | src/iter/iterators/s_tight.rs:14-29 | With 10 rows and size 3, the chunk slices are 4 and the last holds 1 row. The exact slices are 3, with 1 row left over. |
| Tight.Tight1.constructor | src/iter/iterators/s_tight.rs:7-11 | A cursor over an in-bounds range `[current, end)` of a well-formed view satisfies the range invariant and has read nothing. |
| Tight.Tight1.FirstPass | src/iter/iterators/s_tight.rs:93-102 | On a non-empty range it returns the old `current` with its item, increments `current` by one, and leaves the rest of the yield. On an empty range it returns `None` and changes nothing. |
| Tight.Tight1.PostProcess | src/iter/iterators/s_tight.rs:103-106 | The index is dropped and the item read by `first_pass` is always handed on: a tight iterator filters nothing. |
| Tight.Tight1.Next | src/iter/iterators/s_tight.rs:42-45 | Returns an item exactly when items remain. That item is the one at the old `current`, which increments by one, and the remaining yield loses its first item. Exhaustion changes nothing. |
| Tight.Tight1.NextBack | src/iter/iterators/s_tight.rs:52-60 | Returns an item exactly when items remain. `end` decrements by one, the item is the one at the new `end`, and the remaining yield loses its last item. Exhaustion changes nothing. |
| Tight.Tight1.Len | src/iter/iterators/s_tight.rs:64-66 | The number of items still to be yielded, which is zero exactly when `current == end`. |
| Tight.Tight1.SizeHint | src/iter/iterators/s_tight.rs:46-48 | Lower and upper bound both equal the number of items still to be yielded. |
| Tight.Tight1.LastId | src/iter/iterators/s_tight.rs:107-110 | The identity key at row `current - 1`, which is the row most recently read from the front when a row has been read from the front. Callers must ensure `current > 0`. |
| Tight.Tight1.SplitAt | src/iter/iterators/s_tight.rs:79-87 | This cursor keeps the left range and a fresh cursor over the same view owns the right range, as `SplitSpan` partitions them. Both are valid, and their remaining yields concatenate to the original one. |
| Tight.Tight1.IntoChunk | src/iter/iterators/s_tight.rs:17-24 | The chunk iterator carries the same view, `current` and `end`, with `step == size`. For `size > 0` its slices concatenate to the cursor's remaining yield. |
| Tight.Tight1.IntoChunkExact | src/iter/iterators/s_tight.rs:30-37 | The chunk-exact iterator carries the same view, `current` and `end`, with `step == size`. For `size > 0` its slices followed by its remainder are the cursor's remaining yield. |
| Tight.Tight1.ReadsAreDistinct | src/iter/iterators/s_tight.rs:51-60 | Under any interleaving of `next` and `next_back`, no row is read twice. Rows read from the front lie in `[lo, current)` and rows read from the back in `[end, hi)`, where `[lo, hi)` is the range the cursor started with. |

## Left out

- `src/erased_serde/macros.rs`: `macro_rules!` generators of `serde::Serialize` implementations for trait objects. This is compile-time code generation, unrelated to the iterator, so it is not part of this model.
- The rayon `Producer` plumbing (`into_iter`, the `Send` bound, the `parallel` feature gate) and work-stealing scheduling are left out. Only the `split_at` range partition is modelled, sequentially.
- Lifetimes, `unsafe` and the shallow clone of the view handle are left out. The view is an immutable value that both pieces of a split share, so aliasing of the column is not modelled.
- Consumption of `self`: `into_chunk`, `into_chunk_exact` and `split_at` take the cursor by value. Dafny has no move semantics, so `split_at` mutates the receiver into the left piece and the conversions read the receiver without invalidating it.
- `Tight.Tight1.SplitAt`: both pieces start a fresh ghost read history. Rows read before the split are not carried across it.
- `Tight.Tight1.SplitAt`: does not model `usize` overflow of `current + index`. The requirement `index <= end - current` excludes it, as the producer contract does.
- `Tight.Tight1.LastId`: the source subtracts without a check. With `current == 0` the source underflows; the model requires `current > 0`.
- The iteration bodies of the chunk iterators are not modelled. Their slices and remainder are given by the functions `Chunks` and `Remainder` over the range.
- `Chunk.Chunk1.ChunkShape`, `Chunk.ChunkExact1.ExactShape`: the chunk contract is stated only for `size > 0`. The conversions accept any `size`, since the source checks nothing, while a chunk size of zero gives no meaningful slicing.
- Item references: the source hands out references or mutable references into the column. The model hands out the item values.
