/** The tight iterator over a single column: a cursor over the half-open
    range `[current, end)` of a column view, consumed from the front by
    `next`, from the back by `next_back`, split in two by `split_at`, and
    converted into a chunk or chunk-exact iterator. */
module Tight {
  import opened TightSpec
  import opened Chunk

  class Tight1<Item, Key> {
    /** The column view; the cursor never changes it. */
    const data: AbsView<Item, Key>
    var current: nat
    var end: nat

    /** The range the cursor was created with (or got from `split_at`). */
    ghost var lo: nat
    ghost var hi: nat
    /** The indices read from the front and from the back, in reading order. */
    ghost var front: seq<nat>
    ghost var back: seq<nat>

    /** The range invariant that makes every unchecked read in bounds,
        `current <= end <= |items|`, together with the history: the front has
        read `lo, lo + 1, ..., current - 1` and the back has read
        `hi - 1, hi - 2, ..., end`. */
    ghost predicate Valid()
      reads this
    {
      data.WellFormed() &&
      lo <= current <= end <= hi <= |data.items| &&
      |front| == current - lo && (forall k :: 0 <= k < |front| ==> front[k] == lo + k) &&
      |back| == hi - end && (forall k :: 0 <= k < |back| ==> back[k] == hi - 1 - k)
    }

    /** The cursor's range as a value. */
    ghost function Range(): Span
      reads this
    {
      Span(current, end)
    }

    /** What the cursor has still to yield, front to back. */
    ghost function Remaining(): seq<Item>
      reads this
      requires Valid()
    {
      Forward(data, current, end)
    }

    /** A cursor over `[current, end)` of `data`. The storage that hands out
        the cursor guarantees the range lies inside the column. */
    constructor (data: AbsView<Item, Key>, current: nat, end: nat)
      requires data.WellFormed() && current <= end <= |data.items|
      ensures Valid()
      ensures this.data == data && this.current == current && this.end == end
      ensures lo == current && hi == end && front == [] && back == []
    {
      this.data := data;
      this.current := current;
      this.end := end;
      lo, hi, front, back := current, end, [], [];
    }

    /** `first_pass`: reads the item at `current` and moves `current` up by
        one, or reports exhaustion and changes nothing. */
    method FirstPass() returns (r: Option<(nat, Item)>)
      requires Valid()
      modifies this`current, this`front
      ensures Valid()
      ensures old(current) < end ==>
        r == Some((old(current), data.items[old(current)])) &&
        current == old(current) + 1 && front == old(front) + [old(current)]
      ensures old(current) >= end ==>
        r == None && current == old(current) && front == old(front)
      ensures r.Some? ==> [r.value.1] + Remaining() == old(Remaining())
    {
      var i := current;
      if i < end {
        current := current + 1;
        front := front + [i];
        var item := data.GetData(i);
        r := Some((i, item));
      } else {
        r := None;
      }
    }

    /** `post_process`: hands the item read by `first_pass` back unchanged;
        a tight iterator filters nothing. */
    function PostProcess(first: (nat, Item)): (r: Option<Item>)
      ensures r.Some? && r.value == first.1
    {
      Some(first.1)
    }

    /** `next`: the item at the old `current`, which moves up by one, while
        the range is not empty; exhaustion otherwise, with no change. */
    method Next() returns (r: Option<Item>)
      requires Valid()
      modifies this`current, this`front
      ensures Valid()
      ensures old(current) < end ==>
        r == Some(data.items[old(current)]) &&
        current == old(current) + 1 && front == old(front) + [old(current)]
      ensures old(current) >= end ==>
        r == None && current == old(current) && front == old(front)
      ensures r.Some? <==> old(|Remaining()|) > 0
      ensures r.Some? ==> [r.value] + Remaining() == old(Remaining())
    {
      var first := FirstPass();
      if first.None? {
        return None;
      }
      r := PostProcess(first.value);
    }

    /** `next_back`: moves `end` down by one and reads the item at the new
        `end` while the range is not empty; exhaustion otherwise, with no
        change. */
    method NextBack() returns (r: Option<Item>)
      requires Valid()
      modifies this`end, this`back
      ensures Valid()
      ensures current < old(end) ==>
        end == old(end) - 1 && r == Some(data.items[end]) && back == old(back) + [end]
      ensures current >= old(end) ==>
        r == None && end == old(end) && back == old(back)
      ensures r.Some? <==> old(|Remaining()|) > 0
      ensures r.Some? ==> Remaining() + [r.value] == old(Remaining())
    {
      if end > current {
        end := end - 1;
        back := back + [end];
        ForwardDropLast(data, current, end + 1);
        r := Some(data.GetData(end));
      } else {
        r := None;
      }
    }

    /** `len`: the exact number of items left to yield. */
    function Len(): (n: nat)
      reads this
      requires Valid()
      ensures n == |Remaining()|
      ensures n == 0 <==> current == end
    {
      end - current
    }

    /** `size_hint`: lower and upper bound both equal the exact number of
        items left to yield. */
    function SizeHint(): (h: (nat, Option<nat>))
      reads this
      requires Valid()
      ensures h.0 == |Remaining()| && h.1 == Some(|Remaining()|)
    {
      (Len(), Some(Len()))
    }

    /** `last_id`: the identity key of the row just before `current`, which
        is the row most recently read from the front when there is one. */
    function LastId(): (k: Key)
      reads this
      requires Valid() && current > 0
      ensures current - 1 < |data.ids| && k == data.ids[current - 1]
      ensures front != [] ==> k == data.ids[front[|front| - 1]]
    {
      data.IdAt(current - 1)
    }

    /** `split_at`: this cursor keeps `[current, current + index)` and the
        returned one owns `[current + index, end)`, over the same view; both
        start a fresh history. */
    method SplitAt(index: nat) returns (right: Tight1<Item, Key>)
      requires Valid() && index <= end - current
      modifies this`end, this`lo, this`hi, this`front, this`back
      ensures Valid() && right.Valid() && fresh(right)
      ensures right.data == data && current == old(current)
      ensures (Range(), right.Range()) == SplitSpan(old(Range()), index)
      ensures Remaining() + right.Remaining() == old(Remaining())
      ensures lo == current && hi == end && front == [] && back == []
      ensures right.lo == right.current && right.hi == right.end && right.front == [] && right.back == []
    {
      ForwardSplit(data, Range(), index);
      right := new Tight1(data, current + index, end);
      end := right.current;
      lo, hi, front, back := current, end, [], [];
    }

    /** `into_chunk`: the same view and range with chunk size `size`. */
    function IntoChunk(size: nat): (c: Chunk1<Item, Key>)
      reads this
      requires Valid()
      ensures c.Valid()
      ensures c.data == data && c.current == current && c.end == end && c.step == size
      ensures size > 0 ==> Concat(c.Chunks()) == Remaining()
    {
      Chunk1(data, current, end, size)
    }

    /** `into_chunk_exact`: the same view and range with chunk size `size`. */
    function IntoChunkExact(size: nat): (c: ChunkExact1<Item, Key>)
      reads this
      requires Valid()
      ensures c.Valid()
      ensures c.data == data && c.current == current && c.end == end && c.step == size
      ensures size > 0 ==> Concat(c.Chunks()) + c.Remainder() == Remaining()
    {
      ChunkExact1(data, current, end, size)
    }

    /** No row is read twice, whatever the interleaving of `next` and
        `next_back`, and every row read lies in the cursor's range. */
    lemma ReadsAreDistinct()
      requires Valid()
      ensures forall i, j :: 0 <= i < |front| && 0 <= j < |back| ==> front[i] != back[j]
      ensures forall i, j :: 0 <= i < j < |front| ==> front[i] != front[j]
      ensures forall i, j :: 0 <= i < j < |back| ==> back[i] != back[j]
      ensures forall i :: 0 <= i < |front| ==> lo <= front[i] < current
      ensures forall j :: 0 <= j < |back| ==> end <= back[j] < hi
    {
    }
  }
}
