/** The two chunked views a tight iterator converts into, and the contract
    their documentation promises: a chunk iterator hands out `step` items at
    a time with a shorter slice last, a chunk-exact iterator hands out only
    full slices and leaves the rest to its remainder. */
module Chunk {
  import opened TightSpec

  /** A chunk iterator: the cursor's view and range with a chunk size. */
  datatype Chunk1<Item, Key> = Chunk1(data: AbsView<Item, Key>, current: nat, end: nat, step: nat) {

    /** The range invariant the tight cursor keeps, carried over. */
    predicate Valid() { data.WellFormed() && current <= end <= |data.items| }

    /** The slices this iterator hands out, in order. */
    function Chunks(): seq<seq<Item>>
      requires Valid() && step > 0
    {
      Slices(Forward(data, current, end), step)
    }

    /** For a range of `len` rows: `len / step` full slices, then one short
        slice of `len % step` rows exactly when that is not zero. */
    lemma ChunkShape()
      requires Valid() && step > 0
      ensures |Chunks()| == (end - current) / step + (if (end - current) % step == 0 then 0 else 1)
      ensures forall k :: 0 <= k < |Chunks()| - 1 ==> |Chunks()[k]| == step
      ensures current < end ==>
        |Chunks()[|Chunks()| - 1]| == if (end - current) % step == 0 then step else (end - current) % step
    {
      var s := Forward(data, current, end);
      SlicesCount(s, step);
      if s != [] {
        SlicesLast(s, step);
      }
      StepsIsDivMod(|s|, step);
    }
  }

  /** A chunk-exact iterator: the cursor's view and range with a chunk size. */
  datatype ChunkExact1<Item, Key> = ChunkExact1(data: AbsView<Item, Key>, current: nat, end: nat, step: nat) {

    /** The range invariant the tight cursor keeps, carried over. */
    predicate Valid() { data.WellFormed() && current <= end <= |data.items| }

    /** The full-size slices this iterator hands out, in order. */
    function Chunks(): seq<seq<Item>>
      requires Valid() && step > 0
    {
      ExactSplit(Forward(data, current, end), step).0
    }

    /** The items left once the full-size slices are exhausted. */
    function Remainder(): seq<Item>
      requires Valid() && step > 0
    {
      ExactSplit(Forward(data, current, end), step).1
    }

    /** For a range of `len` rows: `len / step` full slices and a remainder
        of `len % step` rows, fewer than `step`. */
    lemma ExactShape()
      requires Valid() && step > 0
      ensures |Chunks()| == (end - current) / step
      ensures |Remainder()| == (end - current) % step < step
    {
      StepsIsDivMod(end - current, step);
    }
  }

  /** The flattening of a sequence of slices. */
  function Concat<T>(ss: seq<seq<T>>): seq<T> {
    if ss == [] then [] else ss[0] + Concat(ss[1..])
  }

  lemma ConcatCons<T>(s: seq<T>, ss: seq<seq<T>>)
    ensures Concat([s] + ss) == s + Concat(ss)
  {
  }

  /** Associativity of concatenation, stated once so that the solver need
      not search for it inside `ExactSplit`. */
  lemma AppendAssoc<T>(a: seq<T>, b: seq<T>, c: seq<T>)
    ensures (a + b) + c == a + (b + c)
  {
  }

  /** How many whole steps fit in `n`, counted by repeated subtraction. */
  function Steps(n: nat, step: nat): nat
    requires step > 0
    decreases n
  {
    if step <= n then 1 + Steps(n - step, step) else 0
  }

  /** What is left of `n` once no further whole step fits. */
  function Leftover(n: nat, step: nat): nat
    requires step > 0
    decreases n
  {
    if step <= n then Leftover(n - step, step) else n
  }

  /** Successive slices of `s`, `step` items at a time: together they are
      `s` in order; every slice holds between one and `step` items and every
      one but the last exactly `step`. */
  function Slices<T>(s: seq<T>, step: nat): (r: seq<seq<T>>)
    requires step > 0
    ensures Concat(r) == s
    ensures forall k :: 0 <= k < |r| ==> 0 < |r[k]| <= step
    ensures forall k :: 0 <= k < |r| - 1 ==> |r[k]| == step
    decreases |s|
  {
    if step < |s| then
      var rest := Slices(s[step..], step);
      ConcatCons(s[..step], rest);
      assert s[..step] + s[step..] == s;
      [s[..step]] + rest
    else if s != [] then
      [s]
    else
      []
  }

  /** There is one slice per whole step plus one for a leftover. */
  lemma {:induction false} SlicesCount<T>(s: seq<T>, step: nat)
    requires step > 0
    ensures |Slices(s, step)| == Steps(|s|, step) + (if Leftover(|s|, step) == 0 then 0 else 1)
    decreases |s|
  {
    if step < |s| {
      SlicesCount(s[step..], step);
      assert |Slices(s, step)| == 1 + |Slices(s[step..], step)|;
      assert Steps(|s|, step) == 1 + Steps(|s[step..]|, step);
      assert Leftover(|s|, step) == Leftover(|s[step..]|, step);
    } else if s != [] {
      assert |Slices(s, step)| == 1;
    }
  }

  /** The last slice is short exactly when there is a leftover, which it
      then holds. */
  lemma {:induction false} SlicesLast<T>(s: seq<T>, step: nat)
    requires step > 0 && s != []
    ensures var r := Slices(s, step);
      |r| > 0 && |r[|r| - 1]| == if Leftover(|s|, step) == 0 then step else Leftover(|s|, step)
    decreases |s|
  {
    var r := Slices(s, step);
    if step < |s| {
      var rest := Slices(s[step..], step);
      SlicesLast(s[step..], step);
      assert r == [s[..step]] + rest;
      assert r[|r| - 1] == rest[|rest| - 1];
      assert Leftover(|s|, step) == Leftover(|s[step..]|, step);
    } else {
      assert r == [s];
      assert Leftover(|s|, step) == if |s| == step then 0 else |s|;
    }
  }

  /** Successive full slices of `s`, `step` items each, while one fits, and
      the items left behind them: one slice per whole step, each of `step`
      items, and the leftover of the length, fewer than `step`; the slices
      followed by the leftover are `s` again, in order. */
  function ExactSplit<T>(s: seq<T>, step: nat): (r: (seq<seq<T>>, seq<T>))
    requires step > 0
    ensures |r.0| == Steps(|s|, step)
    ensures forall k :: 0 <= k < |r.0| ==> |r.0[k]| == step
    ensures |r.1| == Leftover(|s|, step) < step
    ensures Concat(r.0) + r.1 == s
    decreases |s|
  {
    if step <= |s| then
      var rest := ExactSplit(s[step..], step);
      ConcatCons(s[..step], rest.0);
      AppendAssoc(s[..step], Concat(rest.0), rest.1);
      assert s[..step] + s[step..] == s;
      ([s[..step]] + rest.0, rest.1)
    else ([], s)
  }

  /** Repeated subtraction computes the Euclidean quotient and remainder: a
      chunk iterator hands out `len / step` full slices plus one short slice
      of `len % step` items when that is not zero, and a chunk-exact
      iterator hands out `len / step` slices and leaves `len % step` rows. */
  lemma {:induction false} StepsIsDivMod(n: nat, step: nat)
    requires step > 0
    ensures Steps(n, step) == n / step && Leftover(n, step) == n % step
    decreases n
  {
    if step <= n {
      StepsIsDivMod(n - step, step);
      DivModStep(n, step);
    } else {
      DivModUnique(n, step, 0, n);
    }
  }

  /** Removing one full step from a length lowers the quotient by one and
      keeps the remainder. */
  lemma DivModStep(n: nat, step: nat)
    requires 0 < step <= n
    ensures (n - step) / step == n / step - 1
    ensures (n - step) % step == n % step
  {
    var q, r := (n - step) / step, (n - step) % step;
    assert n == (q + 1) * step + r;
    DivModUnique(n, step, q + 1, r);
  }

  /** Euclidean division is determined by its defining equation. */
  lemma DivModUnique(n: nat, step: nat, q: nat, r: nat)
    requires r < step && n == q * step + r
    ensures n / step == q && n % step == r
  {
    var q' := n / step;
    if q > q' {
      MulGap(q, q', step);
      assert false;
    } else if q < q' {
      MulGap(q', q, step);
      assert false;
    }
  }

  lemma MulGap(a: nat, b: nat, step: nat)
    requires a > b
    ensures a * step >= b * step + step
  {
    var d := a - b - 1;
    assert a * step == b * step + step + d * step;
  }

  /** A range of ten rows cut in threes: slices of 3, 3, 3 and 1; exact
      slices of 3, 3 and 3 with one row left over. */
  lemma ChunkSizesExample<T>(s: seq<T>)
    requires |s| == 10
    ensures |Slices(s, 3)| == 4 && |Slices(s, 3)[3]| == 1
    ensures |ExactSplit(s, 3).0| == 3 && |ExactSplit(s, 3).1| == 1
  {
    SlicesCount(s, 3);
    SlicesLast(s, 3);
    StepsIsDivMod(10, 3);
  }
}
