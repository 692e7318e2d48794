/**
 * The priority queue of the road engine (src/node/fibonacci_heap.rs).
 * Despite its name it is a binary min-heap of shared cells, each carrying a
 * value and a `valid` flag; keys are never changed in place. `decrease_key`
 * invalidates the old cell and pushes a new one, and `pop` throws away
 * invalid cells until it meets a valid one.
 *
 * The heap holds the only strong reference to a cell and hands out weak
 * ones, so a handle can be upgraded exactly while its cell is still in the
 * heap. The model keeps every cell ever pushed in an arena `cells`, indexed
 * by handle, with a `present` flag saying whether the heap still holds it.
 * The heap order is `key` (T's `Ord`); among cells of equal key the binary
 * heap may pop any, so the model chooses any.
 */
module FibonacciHeap {
  import opened Wrappers

  /** `Error`, returned by `decrease_key`. */
  datatype Error = KeyNotPresent | KeyNotValid | CannotIncreaseKey

  /** A cell: `Node { t, valid }`, plus whether the heap still holds it. */
  datatype Cell<T> = Cell(t: T, valid: bool, present: bool)

  /** A weak handle: the index of its cell in the arena. */
  type Handle = nat

  ghost function PresentOf<T>(cs: seq<Cell<T>>): set<Handle>
  {
    set h | 0 <= h < |cs| && cs[h].present
  }

  ghost function LiveOf<T>(cs: seq<Cell<T>>): set<Handle>
  {
    set h | 0 <= h < |cs| && cs[h].present && cs[h].valid
  }

  /** Taking cell `i` out of the heap removes it from the present (and, if valid, the live) handles. */
  lemma TakeOut<T>(cs: seq<Cell<T>>, i: Handle)
    requires i < |cs| && cs[i].present
    ensures PresentOf(cs[i := cs[i].(present := false)]) == PresentOf(cs) - {i}
    ensures LiveOf(cs[i := cs[i].(present := false)]) == LiveOf(cs) - {i}
    ensures !cs[i].valid ==> LiveOf(cs[i := cs[i].(present := false)]) == LiveOf(cs)
  {
  }

  /** Cell `i` has a smallest key among the cells still in the heap: one `BinaryHeap::pop` may take out. */
  predicate IsTopOf<T>(key: T -> real, cs: seq<Cell<T>>, i: Handle)
  {
    i < |cs| && cs[i].present &&
    forall j :: 0 <= j < |cs| && cs[j].present ==> key(cs[i].t) <= key(cs[j].t)
  }

  /**
   * The state of `pop` part way from `c0` to `cs`: only the `present`
   * flags changed, every cell taken out so far was invalid with a key of at
   * most `last`, and once one was taken out no cell left has a key below it.
   */
  ghost predicate Discarded<T>(key: T -> real, c0: seq<Cell<T>>, cs: seq<Cell<T>>, last: real)
  {
    |cs| == |c0| &&
    (forall j :: 0 <= j < |cs| ==> cs[j].t == c0[j].t && cs[j].valid == c0[j].valid) &&
    PresentOf(cs) <= PresentOf(c0) && LiveOf(cs) == LiveOf(c0) &&
    (forall j :: j in PresentOf(c0) - PresentOf(cs) ==> !cs[j].valid && key(cs[j].t) <= last) &&
    (PresentOf(c0) - PresentOf(cs) != {} ==> forall k :: k in PresentOf(cs) ==> last <= key(cs[k].t))
  }

  /** Throwing away an invalid top cell continues `pop`. */
  lemma DiscardStep<T>(key: T -> real, c0: seq<Cell<T>>, cs: seq<Cell<T>>, last: real, i: Handle)
    requires Discarded(key, c0, cs, last) && IsTopOf(key, cs, i) && !cs[i].valid
    ensures Discarded(key, c0, cs[i := cs[i].(present := false)], key(cs[i].t))
  {
    TakeOut(cs, i);
  }

  /**
   * A valid top cell is what `pop` returns: a live cell of smallest key,
   * and every cell taken out before it was invalid with a key no larger.
   */
  lemma DiscardFound<T>(key: T -> real, c0: seq<Cell<T>>, cs: seq<Cell<T>>, last: real, i: Handle)
    requires Discarded(key, c0, cs, last) && IsTopOf(key, cs, i) && cs[i].valid
    ensures var cs' := cs[i := cs[i].(present := false)];
      i in LiveOf(c0) &&
      (forall j :: j in LiveOf(c0) ==> key(c0[i].t) <= key(c0[j].t)) &&
      PresentOf(cs') <= PresentOf(c0) &&
      (forall j :: j in PresentOf(c0) - PresentOf(cs') ==> j == i || (!cs'[j].valid && key(cs'[j].t) <= key(cs'[i].t))) &&
      LiveOf(cs') == LiveOf(c0) - {i}
  {
    TakeOut(cs, i);
    assert i in LiveOf(cs);
  }

  /** A heap emptied by `pop` held no live cell. */
  lemma DiscardEmpty<T>(key: T -> real, c0: seq<Cell<T>>, cs: seq<Cell<T>>, last: real)
    requires Discarded(key, c0, cs, last) && PresentOf(cs) == {}
    ensures LiveOf(c0) == {}
  {
    if h :| h in LiveOf(c0) {
      assert h in LiveOf(cs);
    }
  }

  class FibonacciHeap<T> {
    /** The order the heap is kept in. */
    const key: T -> real
    /** Every cell pushed so far, by handle. */
    var cells: seq<Cell<T>>

    /** `FibonacciHeap::new`: an empty heap. */
    constructor(key: T -> real)
      ensures this.key == key
      ensures cells == []
    {
      this.key := key;
      cells := [];
    }

    /** Handles whose cell the heap still holds. */
    ghost function Present(): set<Handle>
      reads this
    {
      PresentOf(cells)
    }

    /** Handles of valid cells still in the heap: the queue's real contents. */
    ghost function Live(): set<Handle>
      reads this
    {
      LiveOf(cells)
    }

    /** `h` has a smallest key among the handles in `s`. */
    ghost predicate IsMinIn(h: Handle, s: set<Handle>)
      reads this
    {
      h < |cells| && forall j :: j in s && j < |cells| ==> key(cells[h].t) <= key(cells[j].t)
    }

    /** A cell of smallest key among those the heap holds. */
    predicate IsHeapTop(i: Handle)
      reads this
    {
      IsTopOf(key, cells, i)
    }

    /** `push`: one new valid cell holding `t`, and its handle. */
    method Push(t: T) returns (h: Handle)
      modifies this
      ensures h == |old(cells)|
      ensures cells == old(cells) + [Cell(t, true, true)]
      ensures Live() == old(Live()) + {h}
      ensures Present() == old(Present()) + {h}
    {
      h := |cells|;
      cells := cells + [Cell(t, true, true)];
    }

    /**
     * `pop`: removes cells of smallest key until a valid one comes out, and
     * returns it. The popped cell has a smallest key of all valid cells, and no
     * cell left in the heap has a smaller key;
     * every cell discarded on the way was invalid. Nothing else changes.
     */
    method Pop() returns (r: Option<T>, ghost popped: Handle)
      modifies this
      ensures |cells| == |old(cells)|
      ensures forall j :: 0 <= j < |cells| ==>
          cells[j].t == old(cells[j].t) && cells[j].valid == old(cells[j].valid)
      ensures r.None? <==> old(Live()) == {}
      ensures r.None? ==> Present() == {}
      ensures r.Some? ==> popped in old(Live()) && r.value == cells[popped].t
      ensures r.Some? ==> IsMinIn(popped, old(Live()))
      ensures Present() <= old(Present())
      ensures forall j :: j in old(Present()) - Present() ==>
          (r.Some? && j == popped) || (!cells[j].valid && (r.Some? ==> key(cells[j].t) <= key(r.value)))
      ensures Live() == old(Live()) - (if r.Some? then {popped} else {})
      ensures r.Some? ==> forall k :: k in Present() ==> key(r.value) <= key(cells[k].t)
    {
      popped := 0;
      ghost var last: real := 0.0;
      while true
        invariant Discarded(key, old(cells), cells, last)
        decreases |Present()|
      {
        ghost var before := cells;
        var top := PopCell();
        if top.None? {
          DiscardEmpty(key, old(cells), before, last);
          return None, popped;
        }
        var i := top.value;
        TakeOut(before, i);
        if cells[i].valid {
          DiscardFound(key, old(cells), before, last, i);
          assert IsTopOf(key, before, i);
          popped := i;
          return Some(cells[i].t), popped;
        }
        DiscardStep(key, old(cells), before, last, i);
        last := key(cells[i].t);
      }
    }

    /**
     * `BinaryHeap::pop` on the inner heap: takes out a cell of smallest key,
     * or reports that the heap holds none.
     */
    method PopCell() returns (top: Option<Handle>)
      modifies this
      ensures top.None? <==> old(Present()) == {}
      ensures top.None? ==> cells == old(cells)
      ensures top.Some? ==> top.value < |old(cells)| && old(IsHeapTop(top.value))
      ensures top.Some? ==> cells == old(cells)[top.value := old(cells[top.value]).(present := false)]
    {
      if forall j :: 0 <= j < |cells| ==> !cells[j].present {
        assert Present() == {};
        return None;
      }
      var some :| 0 <= some < |cells| && cells[some].present;
      assert some in Present();
      TopExists(some);
      var i :| 0 <= i < |cells| && IsHeapTop(i);
      cells := cells[i := cells[i].(present := false)];
      top := Some(i);
    }

    /** While the heap holds a cell it has a top. */
    lemma TopExists(h: Handle)
      requires h < |cells| && cells[h].present
      ensures exists m :: 0 <= m < |cells| && IsHeapTop(m)
    {
      var s := Present();
      var m := h;
      var rest := s - {h};
      while rest != {}
        invariant m in s && rest <= s
        invariant forall j :: j in s - rest ==> key(cells[m].t) <= key(cells[j].t)
        decreases |rest|
      {
        var j :| j in rest;
        if key(cells[j].t) < key(cells[m].t) {
          m := j;
        }
        rest := rest - {j};
      }
      assert IsHeapTop(m);
    }

    /**
     * `decrease_key`: a handle whose cell has left the heap is not present,
     * an invalidated cell is not valid, a key that would not decrease is
     * refused, and in each of these cases nothing changes. Otherwise the old
     * cell is invalidated and `newT` pushed as a new cell, whose handle is
     * returned; the number of valid cells stays the same.
     */
    method DecreaseKey(h: Handle, newT: T) returns (r: Result<Handle, Error>)
      requires h < |cells|
      modifies this
      ensures r == Err(KeyNotPresent) <==> !old(cells[h].present)
      ensures r == Err(KeyNotValid) <==> old(cells[h].present) && !old(cells[h].valid)
      ensures r == Err(CannotIncreaseKey) <==>
          old(cells[h].present) && old(cells[h].valid) && key(old(cells[h].t)) <= key(newT)
      ensures r.Err? ==> cells == old(cells)
      ensures r.Ok? ==> old(h in Live()) && key(newT) < key(old(cells[h].t))
      ensures r.Ok? ==> r.value == |old(cells)|
      ensures r.Ok? ==> cells == old(cells)[h := old(cells[h]).(valid := false)] + [Cell(newT, true, true)]
      ensures r.Ok? ==> Live() == old(Live()) - {h} + {r.value} && |Live()| == |old(Live())|
    {
      if !cells[h].present {
        return Err(KeyNotPresent);
      }
      if !cells[h].valid {
        return Err(KeyNotValid);
      }
      if key(cells[h].t) <= key(newT) {
        return Err(CannotIncreaseKey);
      }
      ghost var live := Live();
      cells := cells[h := cells[h].(valid := false)];
      assert Live() == live - {h};
      var handle := Push(newT);
      assert handle !in live;
      r := Ok(handle);
    }
  }
}
