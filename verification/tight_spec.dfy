/** The column view a tight iterator reads through, and the value-level
    specification of what a cursor over a half-open range `[current, end)`
    of that column yields. */
module TightSpec {

  datatype Option<+T> = None | Some(value: T)

  /** A view of one storage column: the item and the stable identity key of
      every row. The iterator never checks an index itself; both reads below
      are only defined inside the column, so every call site has to prove
      its index in bounds. */
  datatype AbsView<Item, Key> = AbsView(items: seq<Item>, ids: seq<Key>) {

    /** Every row has both an item and an identity key. */
    predicate WellFormed() { |items| == |ids| }

    /** Unchecked read of the item at row `i`. */
    function GetData(i: nat): Item
      requires i < |items|
    {
      items[i]
    }

    /** Unchecked read of the identity key at row `i`. */
    function IdAt(i: nat): Key
      requires i < |ids|
    {
      ids[i]
    }
  }

  /** A half-open index range `[current, end)`. */
  datatype Span = Span(current: nat, end: nat) {

    predicate Ordered() { current <= end }

    function Len(): nat
      requires Ordered()
    {
      end - current
    }

    /** Whether row `k` lies in the range. */
    predicate Covers(k: nat) { current <= k < end }
  }

  /** What a cursor over `[current, end)` yields when `next` is called until
      it reports exhaustion: each step reads the item at `current` and moves
      `current` up by one, leaving `end` alone. */
  function Forward<Item, Key>(v: AbsView<Item, Key>, current: nat, end: nat): (r: seq<Item>)
    requires current <= end <= |v.items|
    ensures r == v.items[current..end]
    decreases end - current
  {
    if current < end then [v.GetData(current)] + Forward(v, current + 1, end) else []
  }

  /** What a cursor over `[current, end)` yields when `next_back` is called
      until it reports exhaustion: each step moves `end` down by one and
      reads the item at the new `end`, leaving `current` alone. */
  function Backward<Item, Key>(v: AbsView<Item, Key>, current: nat, end: nat): (r: seq<Item>)
    requires current <= end <= |v.items|
    ensures |r| == end - current
    ensures forall k :: 0 <= k < |r| ==> r[k] == v.items[end - 1 - k]
    decreases end - current
  {
    if end > current then [v.GetData(end - 1)] + Backward(v, current, end - 1) else []
  }

  /** The range partition performed by `split_at`: the left piece keeps the
      first `index` rows, the right piece the rest. */
  function SplitSpan(s: Span, index: nat): (r: (Span, Span))
    requires s.Ordered() && index <= s.Len()
    ensures r.0.Ordered() && r.1.Ordered()
    ensures r.0.current == s.current && r.0.end == r.1.current && r.1.end == s.end
    ensures r.0.Len() == index && r.0.Len() + r.1.Len() == s.Len()
    ensures forall k: nat :: !(r.0.Covers(k) && r.1.Covers(k))
    ensures forall k: nat :: s.Covers(k) <==> r.0.Covers(k) || r.1.Covers(k)
  {
    (Span(s.current, s.current + index), Span(s.current + index, s.end))
  }

  /** Adjacent slices of one sequence join into one slice. */
  lemma SliceJoin<T>(s: seq<T>, i: nat, j: nat, k: nat)
    requires i <= j <= k <= |s|
    ensures s[i..j] + s[j..k] == s[i..k]
  {
  }

  /** Consuming the whole range from the back yields the forward yield in
      reverse order. */
  lemma BackwardReversesForward<Item, Key>(v: AbsView<Item, Key>, current: nat, end: nat)
    requires current <= end <= |v.items|
    ensures |Backward(v, current, end)| == |Forward(v, current, end)|
    ensures forall k :: 0 <= k < end - current ==>
      Backward(v, current, end)[k] == Forward(v, current, end)[end - current - 1 - k]
  {
  }

  /** Taking one item from the back leaves exactly the forward yield without
      its last item: forward and reverse consumption eat the same sequence
      from its two ends. */
  lemma ForwardDropLast<Item, Key>(v: AbsView<Item, Key>, current: nat, end: nat)
    requires current < end <= |v.items|
    ensures Forward(v, current, end) == Forward(v, current, end - 1) + [v.items[end - 1]]
  {
    SliceJoin(v.items, current, end - 1, end);
    assert v.items[end - 1..end] == [v.items[end - 1]];
  }

  /** After `split_at`, the left piece's full forward yield followed by the
      right piece's is the original range's full forward yield. */
  lemma ForwardSplit<Item, Key>(v: AbsView<Item, Key>, s: Span, index: nat)
    requires s.Ordered() && s.end <= |v.items| && index <= s.Len()
    ensures var (l, r) := SplitSpan(s, index);
      Forward(v, l.current, l.end) + Forward(v, r.current, r.end) == Forward(v, s.current, s.end)
  {
    SliceJoin(v.items, s.current, s.current + index, s.end);
  }

  /** Splitting `[0, 7)` at 3 gives `[0, 3)` of three rows and `[3, 7)` of
      four. */
  lemma SplitSpanExample()
    ensures SplitSpan(Span(0, 7), 3) == (Span(0, 3), Span(3, 7))
    ensures SplitSpan(Span(0, 7), 3).0.Len() == 3 && SplitSpan(Span(0, 7), 3).1.Len() == 4
  {
  }
}
