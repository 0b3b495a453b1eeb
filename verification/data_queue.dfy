/** The bounded record queue: `DataQueue` (a `collections.deque` with an
    optional `maxlen`) and the queue operations of `IDataReceiver`. */
module DataQueue {
  import opened Wrappers

  /** The capacity invariant of a deque created with `maxlen`. */
  predicate Within<T>(q: seq<T>, maxlen: Option<nat>)
  {
    maxlen.Some? ==> |q| <= maxlen.value
  }

  /** `deque.append`: put `x` at the back; when that makes the deque longer
      than `maxlen`, the front item is dropped (with `maxlen` 0 the new item
      itself is dropped at once). */
  function Appended<T>(q: seq<T>, x: T, maxlen: Option<nat>): (r: seq<T>)
    ensures maxlen.None? ==> r == q + [x]
    ensures Within(q, maxlen) ==> Within(r, maxlen)
    ensures Within(q, maxlen) && maxlen.Some? ==>
      |r| == if |q| < maxlen.value then |q| + 1 else maxlen.value
  {
    var s := q + [x];
    if maxlen.Some? && |s| > maxlen.value then s[1..] else s
  }

  /** What `append` keeps is the newest part of `q + [x]`, in order: the
      new item is at the back unless `maxlen` is 0, and at most the one
      front item is evicted. */
  lemma AppendedKeepsNewest<T>(q: seq<T>, x: T, maxlen: Option<nat>)
    ensures var r := Appended(q, x, maxlen);
      |q| <= |r| + 1 <= |q| + 2 && r == (q + [x])[|q| + 1 - |r|..]
    ensures maxlen != Some(0) ==> Back(Appended(q, x, maxlen)) == Some(x)
  {
  }

  /** The newest `maxlen` items of `s` (all of `s` when unbounded). */
  function Newest<T>(s: seq<T>, maxlen: Option<nat>): seq<T>
  {
    if maxlen.None? || |s| <= maxlen.value then s else s[|s| - maxlen.value..]
  }

  /** The queue after calling `add` with each of `xs` in turn: without
      `maxlen` nothing is dropped, and a queue within `maxlen` stays so. */
  function AddAll<T>(q: seq<T>, xs: seq<T>, maxlen: Option<nat>): (r: seq<T>)
    ensures maxlen.None? ==> r == q + xs
    ensures Within(q, maxlen) ==> Within(r, maxlen)
    decreases |xs|
  {
    if xs == [] then q
    else Appended(AddAll(q, xs[..|xs| - 1], maxlen), xs[|xs| - 1], maxlen)
  }

  /** One more `add` after a run of them. */
  lemma AddAllSnoc<T>(q: seq<T>, xs: seq<T>, x: T, maxlen: Option<nat>)
    ensures AddAll(q, xs + [x], maxlen) == Appended(AddAll(q, xs, maxlen), x, maxlen)
  {
    assert (xs + [x])[..|xs|] == xs;
  }

  /** A run of `add` calls split in two. */
  lemma {:induction false} AddAllAppend<T>(q: seq<T>, xs: seq<T>, ys: seq<T>, maxlen: Option<nat>)
    ensures AddAll(q, xs + ys, maxlen) == AddAll(AddAll(q, xs, maxlen), ys, maxlen)
    decreases |ys|
  {
    if ys == [] {
      assert xs + ys == xs;
    } else {
      var init, y := ys[..|ys| - 1], ys[|ys| - 1];
      AddAllAppend(q, xs, init, maxlen);
      assert xs + ys == (xs + init) + [y];
      AddAllSnoc(q, xs + init, y, maxlen);
    }
  }

  /** The front (oldest) item, or absent when empty. */
  function Front<T>(q: seq<T>): Option<T>
  {
    if |q| > 0 then Some(q[0]) else None
  }

  /** The back (newest) item, or absent when empty. */
  function Back<T>(q: seq<T>): Option<T>
  {
    if |q| > 0 then Some(q[|q| - 1]) else None
  }

  /** One `append` onto a queue that keeps only its newest items keeps only
      the newest items of the longer history. */
  lemma AppendedNewest<T>(s: seq<T>, x: T, maxlen: Option<nat>)
    ensures Appended(Newest(s, maxlen), x, maxlen) == Newest(s + [x], maxlen)
  {
    if maxlen.Some? && |s| > maxlen.value {
      var n := maxlen.value;
      var t := s[|s| - n..];
      assert t + [x] == (s + [x])[|s| - n..];
      assert (t + [x])[1..] == (s + [x])[|s| + 1 - n..];
    }
  }

  /** Bounded eviction and order preservation: starting from a queue that
      respects its capacity, a run of `add` calls leaves exactly the newest
      `maxlen` items of the whole history, oldest first; without a capacity,
      or while the capacity is not reached, nothing is lost. */
  lemma {:induction false} AddAllKeepsNewest<T>(q: seq<T>, xs: seq<T>, maxlen: Option<nat>)
    requires Within(q, maxlen)
    ensures AddAll(q, xs, maxlen) == Newest(q + xs, maxlen)
    ensures maxlen.None? || |q| + |xs| <= maxlen.value ==> AddAll(q, xs, maxlen) == q + xs
    ensures maxlen.Some? && |q| + |xs| >= maxlen.value ==> |AddAll(q, xs, maxlen)| == maxlen.value
    decreases |xs|
  {
    if xs == [] {
      assert q + xs == q;
    } else {
      var init := xs[..|xs| - 1];
      var x := xs[|xs| - 1];
      AddAllKeepsNewest(q, init, maxlen);
      AppendedNewest(q + init, x, maxlen);
      assert q + init + [x] == q + xs;
    }
  }

  /** `pop_right` undoes an `add` that evicted nothing. */
  lemma PopBackUndoesAdd<T>(q: seq<T>, x: T, maxlen: Option<nat>)
    requires maxlen.None? || |q| < maxlen.value
    ensures Back(Appended(q, x, maxlen)) == Some(x)
    ensures Appended(q, x, maxlen)[..|q|] == q
  {
  }

  /** Once the capacity is reached, an `add` evicts the front item: the
      queue shifts by one, the old second item (or, at capacity 1, the new
      item) becomes the front and the new item becomes the back. */
  lemma AddAtCapacityEvicts<T>(q: seq<T>, x: T, n: nat)
    requires |q| == n > 0
    ensures Appended(q, x, Some(n)) == q[1..] + [x]
    ensures n > 1 ==> Front(Appended(q, x, Some(n))) == Some(q[1])
    ensures n == 1 ==> Front(Appended(q, x, Some(n))) == Some(x)
  {
  }

  /** The capacity scenario: with `maxlen` 2, adding 1, 2 and 3 leaves [2, 3]. */
  lemma CapacityScenario()
    ensures AddAll([], [1, 2, 3], Some(2)) == [2, 3]
  {
    var xs: seq<int> := [1, 2, 3];
    assert xs[..2] == [1, 2];
    assert [1, 2][..1] == [1];
    assert [1][..0] == [];
    var q1 := Appended([], 1, Some(2));
    assert q1 == [1];
    var q2 := Appended(q1, 2, Some(2));
    assert q2 == [1, 2];
    assert Appended(q2, 3, Some(2)) == [2, 3];
  }

  /** An `IDataReceiver` together with the `DataQueue` it owns. Each method
      is one atomic queue operation; the lock that makes it so is not part
      of the model. */
  class DataReceiver<T> {
    const maxlen: Option<nat>
    var queue: seq<T>

    ghost predicate Valid()
      reads this
    {
      Within(queue, maxlen)
    }

    /** `IDataReceiver.__init__`: an empty `DataQueue(maxlen)`. */
    constructor (maxlen: Option<nat>)
      ensures Valid()
      ensures this.maxlen == maxlen && queue == []
    {
      this.maxlen := maxlen;
      queue := [];
    }

    /** `add`: append at the back, evicting the front item at capacity;
        returns the data unchanged. */
    method Add(data: T) returns (r: T)
      requires Valid()
      modifies this
      ensures Valid()
      ensures r == data
      ensures queue == Appended(old(queue), data, maxlen)
    {
      queue := Appended(queue, data, maxlen);
      r := data;
    }

    /** `peak_all`: a front-to-back copy of the items. */
    method PeakAll() returns (items: seq<T>)
      ensures |items| == |queue|
      ensures forall i :: 0 <= i < |items| ==> items[i] == queue[i]
    {
      items := queue;
    }

    /** `peak_right`: the back item, absent when empty. */
    method PeakRight() returns (r: Option<T>)
      ensures r.None? <==> |queue| == 0
      ensures r.Some? ==> r.value == queue[|queue| - 1]
    {
      r := if |queue| > 0 then Some(queue[|queue| - 1]) else None;
    }

    /** `peak_left`: the front item, absent when empty. */
    method PeakLeft() returns (r: Option<T>)
      ensures r.None? <==> |queue| == 0
      ensures r.Some? ==> r.value == queue[0]
    {
      r := if |queue| > 0 then Some(queue[0]) else None;
    }

    /** `clear`: empty the queue and report whether it is now empty. */
    method Clear() returns (isSuccess: bool)
      requires Valid()
      modifies this
      ensures Valid()
      ensures queue == [] && isSuccess
    {
      queue := [];
      isSuccess := |queue| == 0;
    }

    /** `pop_right`: remove and return the back item; absent and no change
        when empty. */
    method PopRight() returns (r: Option<T>)
      requires Valid()
      modifies this
      ensures Valid()
      ensures r == Back(old(queue))
      ensures old(queue) == [] ==> queue == []
      ensures old(queue) != [] ==> old(queue) == queue + [r.value]
    {
      if |queue| > 0 {
        r := Some(queue[|queue| - 1]);
        queue := queue[..|queue| - 1];
      } else {
        r := None;
      }
    }

    /** `pop_left`: remove and return the front item; absent and no change
        when empty. */
    method PopLeft() returns (r: Option<T>)
      requires Valid()
      modifies this
      ensures Valid()
      ensures r == Front(old(queue))
      ensures old(queue) == [] ==> queue == []
      ensures old(queue) != [] ==> old(queue) == [r.value] + queue
    {
      if |queue| > 0 {
        r := Some(queue[0]);
        queue := queue[1..];
      } else {
        r := None;
      }
    }

    /** `__len__` / `len`: the number of stored items. */
    method Len() returns (n: nat)
      ensures n == |queue|
    {
      n := |queue|;
    }
  }
}
