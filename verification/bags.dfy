/**
 * The 7-piece randomiser (src/Bag.jsx): a queue of fresh catalogue shapes,
 * refilled one shuffled batch at a time.
 *
 * The random source is an explicit sequence of indices: the t-th swap of a
 * shuffle of n items uses `rnd[t]`, which must be below n - t, as
 * `Math.floor(Math.random() * currentIndex)` is.
 */
module Bags {
  import opened Wrappers
  import opened Cells
  import opened Grids
  import opened Shapes
  import opened Schemes

  /** The queue (drawn from its end), the refill threshold, and the identity the next fresh shape gets. */
  datatype Bag = Bag(queue: seq<Shape>, min: int, nextId: ShapeId)

  /** What `grab` gives back: the shape drawn (none from an empty queue) and the bag afterwards. */
  datatype Grabbed = Grabbed(shape: Option<Shape>, bag: Bag)

  /** Random choices fit for shuffling n items: the t-th is below n - t. */
  predicate ValidDraws(rnd: seq<nat>, n: nat)
  {
    |rnd| >= n && forall t :: 0 <= t < n ==> rnd[t] < n - t
  }

  // ---------------------------------------------------------------------
  // Fisher-Yates shuffle
  // ---------------------------------------------------------------------

  function Swap<T>(a: seq<T>, i: nat, j: nat): (r: seq<T>)
    requires i < |a| && j < |a|
    ensures |r| == |a| && r[i] == a[j] && r[j] == a[i]
    ensures forall k :: 0 <= k < |a| && k != i && k != j ==> r[k] == a[k]
  {
    a[i := a[j]][j := a[i]]
  }

  /** A swap keeps the items. */
  lemma SwapPermutes<T>(a: seq<T>, i: nat, j: nat)
    requires i < |a| && j < |a|
    ensures multiset(Swap(a, i, j)) == multiset(a)
  {
  }

  /**
   * Steps t, t+1, ... of the shuffle: step t swaps the item at position
   * n-1-t with the one at `rnd[t]`. Positions from n-t on are final.
   */
  function ShuffleFrom<T>(a: seq<T>, rnd: seq<nat>, t: nat): (r: seq<T>)
    requires t <= |a| && ValidDraws(rnd, |a|)
    ensures |r| == |a|
    ensures forall k :: |a| - t <= k < |a| ==> r[k] == a[k]
    decreases |a| - t
  {
    if t == |a| then a
    else ShuffleFrom(Swap(a, |a| - 1 - t, rnd[t]), rnd, t + 1)
  }

  /** The remaining steps of the shuffle keep the items: the result is a permutation of the input. */
  lemma {:induction false} ShuffleFromPermutes<T>(a: seq<T>, rnd: seq<nat>, t: nat)
    requires t <= |a| && ValidDraws(rnd, |a|)
    ensures multiset(ShuffleFrom(a, rnd, t)) == multiset(a)
    decreases |a| - t
  {
    if t < |a| {
      var s := Swap(a, |a| - 1 - t, rnd[t]);
      ShuffleFromPermutes(s, rnd, t + 1);
      SwapPermutes(a, |a| - 1 - t, rnd[t]);
      calc {
        multiset(ShuffleFrom(a, rnd, t));
        multiset(ShuffleFrom(s, rnd, t + 1));
        multiset(s);
        multiset(a);
      }
    }
  }

  /** The shuffled order of `a` under the draws `rnd`: a permutation of `a`. */
  function Shuffle<T>(a: seq<T>, rnd: seq<nat>): (r: seq<T>)
    requires ValidDraws(rnd, |a|)
    ensures |r| == |a| && multiset(r) == multiset(a)
  {
    ShuffleFromPermutes(a, rnd, 0);
    ShuffleFrom(a, rnd, 0)
  }

  /** The source's loop: walk `currentIndex` down from n, swapping as it goes. */
  method ShuffleInPlace<T>(a: seq<T>, rnd: seq<nat>) returns (r: seq<T>)
    requires ValidDraws(rnd, |a|)
    ensures r == Shuffle(a, rnd)
    ensures multiset(r) == multiset(a)
  {
    r := a;
    var currentIndex := |a|;
    while currentIndex != 0
      invariant 0 <= currentIndex <= |a| && |r| == |a|
      invariant ShuffleFrom(r, rnd, |a| - currentIndex) == Shuffle(a, rnd)
      decreases currentIndex
    {
      var randomIndex := rnd[|a| - currentIndex];
      currentIndex := currentIndex - 1;
      var temporaryValue := r[currentIndex];
      r := r[currentIndex := r[randomIndex]];
      r := r[randomIndex := temporaryValue];
    }
  }

  /** Applies `f` to every element. */
  function Map<T, U>(f: T -> U, a: seq<T>): (r: seq<U>)
    ensures |r| == |a| && forall j :: 0 <= j < |a| ==> r[j] == f(a[j])
  {
    seq(|a|, j requires 0 <= j < |a| => f(a[j]))
  }

  /** The shuffle only moves items around, so it commutes with any map. */
  lemma {:induction false} ShuffleFromMap<T, U>(f: T -> U, a: seq<T>, rnd: seq<nat>, t: nat)
    requires t <= |a| && ValidDraws(rnd, |a|)
    ensures Map(f, ShuffleFrom(a, rnd, t)) == ShuffleFrom(Map(f, a), rnd, t)
    decreases |a| - t
  {
    if t < |a| {
      var i, j := |a| - 1 - t, rnd[t];
      assert Map(f, Swap(a, i, j)) == Swap(Map(f, a), i, j);
      ShuffleFromMap(f, Swap(a, i, j), rnd, t + 1);
    }
  }

  /** The shuffle never duplicates an item. */
  lemma {:induction false} ShuffleFromDistinct<T>(a: seq<T>, rnd: seq<nat>, t: nat)
    requires t <= |a| && ValidDraws(rnd, |a|)
    requires forall j, k :: 0 <= j < k < |a| ==> a[j] != a[k]
    ensures forall j, k :: 0 <= j < k < |a| ==> ShuffleFrom(a, rnd, t)[j] != ShuffleFrom(a, rnd, t)[k]
    decreases |a| - t
  {
    if t < |a| {
      var s := Swap(a, |a| - 1 - t, rnd[t]);
      assert forall j, k :: 0 <= j < k < |s| ==> s[j] != s[k] by {
        forall j, k | 0 <= j < k < |s|
          ensures s[j] != s[k]
        {
          var j' := if j == |a| - 1 - t then rnd[t] else if j == rnd[t] then |a| - 1 - t else j;
          var k' := if k == |a| - 1 - t then rnd[t] else if k == rnd[t] then |a| - 1 - t else k;
          assert s[j] == a[j'] && s[k] == a[k'] && j' != k';
        }
      }
      ShuffleFromDistinct(s, rnd, t + 1);
      assert ShuffleFrom(a, rnd, t) == ShuffleFrom(s, rnd, t + 1);
    }
  }

  /** Draws that always pick the current position leave the order as it was. */
  lemma {:induction false} ShuffleFromIdentity<T>(a: seq<T>, rnd: seq<nat>, t: nat)
    requires t <= |a| && ValidDraws(rnd, |a|)
    requires forall u :: t <= u < |a| ==> rnd[u] == |a| - 1 - u
    ensures ShuffleFrom(a, rnd, t) == a
    decreases |a| - t
  {
    if t < |a| {
      assert Swap(a, |a| - 1 - t, rnd[t]) == a;
      ShuffleFromIdentity(a, rnd, t + 1);
    }
  }

  // ---------------------------------------------------------------------
  // Batches
  // ---------------------------------------------------------------------

  /** The occupancy pattern of a shape. */
  function MaskOfShape(s: Shape): Mask
  {
    MaskOf(s.cells)
  }

  /** The identity of a shape. */
  function IdOf(s: Shape): ShapeId
  {
    s.id
  }

  /**
   * One fresh shape per catalogue entry, in catalogue order, with
   * identities first, first+1, ... The catalogue carries no colours, so
   * every shape's colour is left undefined.
   */
  function Batch(first: ShapeId): (batch: seq<Shape>)
    ensures |batch| == |Catalog|
    ensures Map(MaskOfShape, batch) == Catalog
    ensures forall z :: 0 <= z < |batch| ==> batch[z].id == first + z && WellFormed(batch[z])
    ensures forall z :: 0 <= z < |batch| ==> batch[z].x == 0 && batch[z].y == 0
  {
    seq(|Catalog|, z requires 0 <= z < |Catalog| => FromScheme(Catalog[z], Undefined, first + z))
  }

  /** A well-formed catalogue shape at the origin whose identity is below `bound`. */
  ghost predicate Fresh(s: Shape, bound: nat)
  {
    WellFormed(s) && s.id < bound && InCatalog(MaskOf(s.cells)) && s.x == 0 && s.y == 0
  }

  /** Every queued shape is fresh, and identities are distinct. */
  ghost predicate Valid(b: Bag)
  {
    && (forall j :: 0 <= j < |b.queue| ==> Fresh(b.queue[j], b.nextId))
    && (forall j, k :: 0 <= j < k < |b.queue| ==> b.queue[j].id != b.queue[k].id)
  }

  /**
   * Appends one shuffled batch: the queue so far stays in place and the
   * new tail holds each catalogue scheme exactly once.
   */
  function Replenish(b: Bag, rnd: seq<nat>): (r: Bag)
    requires ValidDraws(rnd, |Catalog|)
    ensures r.min == b.min && r.nextId == b.nextId + |Catalog|
    ensures |r.queue| == |b.queue| + |Catalog| && r.queue[..|b.queue|] == b.queue
    ensures multiset(Map(MaskOfShape, r.queue[|b.queue|..])) == multiset(Catalog)
    ensures forall j :: |b.queue| <= j < |r.queue| ==> r.queue[j].id >= b.nextId
    ensures Valid(b) ==> Valid(r)
  {
    var batch := Batch(b.nextId);
    var shuffled := Shuffle(batch, rnd);
    var r := Bag(b.queue + shuffled, b.min, b.nextId + |Catalog|);
    BatchMasks(b.nextId, rnd, shuffled);
    BatchFresh(b.nextId, rnd, shuffled);
    BatchDistinct(b.nextId, rnd, shuffled);
    ValidAppend(b, shuffled, b.nextId + |Catalog|);
    assert r.queue[|b.queue|..] == shuffled;
    r
  }

  /** Appending fresh shapes with new, distinct identities keeps a bag valid. */
  lemma ValidAppend(b: Bag, s: seq<Shape>, bound: nat)
    requires forall j :: 0 <= j < |s| ==> Fresh(s[j], bound) && b.nextId <= s[j].id
    requires forall j, k :: 0 <= j < k < |s| ==> s[j].id != s[k].id
    requires bound >= b.nextId
    ensures Valid(b) ==> Valid(Bag(b.queue + s, b.min, bound))
  {
    if Valid(b) {
      var q := b.queue + s;
      forall j | 0 <= j < |q|
        ensures Fresh(q[j], bound)
      {
        if j < |b.queue| {
          assert q[j] == b.queue[j] && Fresh(b.queue[j], b.nextId);
        } else {
          assert q[j] == s[j - |b.queue|];
        }
      }
      forall j, k | 0 <= j < k < |q|
        ensures q[j].id != q[k].id
      {
        if k < |b.queue| {
          assert q[j] == b.queue[j] && q[k] == b.queue[k];
        } else if j < |b.queue| {
          assert q[j] == b.queue[j] && Fresh(b.queue[j], b.nextId);
          assert q[k] == s[k - |b.queue|];
        } else {
          assert q[j] == s[j - |b.queue|] && q[k] == s[k - |b.queue|];
        }
      }
    }
  }

  /** Dropping the last shape keeps a bag valid. */
  lemma ValidPop(b: Bag)
    ensures Valid(b) && |b.queue| > 0 ==> Valid(b.(queue := b.queue[..|b.queue| - 1]))
  {
    if Valid(b) && |b.queue| > 0 {
      var q := b.queue[..|b.queue| - 1];
      forall j | 0 <= j < |q|
        ensures Fresh(q[j], b.nextId)
      {
        assert q[j] == b.queue[j];
      }
      forall j, k | 0 <= j < k < |q|
        ensures q[j].id != q[k].id
      {
        assert q[j] == b.queue[j] && q[k] == b.queue[k];
      }
    }
  }

  /** The shuffled batch holds each scheme of the catalogue exactly once. */
  lemma BatchMasks(first: ShapeId, rnd: seq<nat>, s: seq<Shape>)
    requires ValidDraws(rnd, |Catalog|) && s == Shuffle(Batch(first), rnd)
    ensures multiset(Map(MaskOfShape, s)) == multiset(Catalog)
  {
    var batch := Batch(first);
    ShuffleFromMap(MaskOfShape, batch, rnd, 0);
    ShuffleFromPermutes(Map(MaskOfShape, batch), rnd, 0);
  }

  /** Every shape of the shuffled batch is fresh, with an identity in the batch's range. */
  lemma BatchFresh(first: ShapeId, rnd: seq<nat>, s: seq<Shape>)
    requires ValidDraws(rnd, |Catalog|) && s == Shuffle(Batch(first), rnd)
    ensures forall j :: 0 <= j < |s| ==> Fresh(s[j], first + |Catalog|) && first <= s[j].id
  {
    var batch := Batch(first);
    forall j | 0 <= j < |s|
      ensures Fresh(s[j], first + |Catalog|) && first <= s[j].id
    {
      assert s[j] in multiset(batch);
      var z :| 0 <= z < |batch| && batch[z] == s[j];
      assert Map(MaskOfShape, batch)[z] == MaskOf(s[j].cells);
    }
  }

  /** The shapes of the shuffled batch have distinct identities. */
  lemma BatchDistinct(first: ShapeId, rnd: seq<nat>, s: seq<Shape>)
    requires ValidDraws(rnd, |Catalog|) && s == Shuffle(Batch(first), rnd)
    ensures forall j, k :: 0 <= j < k < |s| ==> s[j].id != s[k].id
  {
    var batch := Batch(first);
    ShuffleFromMap(IdOf, batch, rnd, 0);
    ShuffleFromDistinct(Map(IdOf, batch), rnd, 0);
    var ids := Map(IdOf, s);
    forall j, k | 0 <= j < k < |s|
      ensures s[j].id != s[k].id
    {
      assert ids[j] == s[j].id && ids[k] == s[k].id;
    }
  }

  /**
   * A new bag: the threshold defaults to 3 when none (or 0, which the
   * source treats alike) is given, and the queue holds one batch.
   */
  function New(minArg: Option<int>, first: ShapeId, rnd: seq<nat>): (b: Bag)
    requires ValidDraws(rnd, |Catalog|)
    ensures b.min == if minArg.None? || minArg.value == 0 then 3 else minArg.value
    ensures |b.queue| == |Catalog| && multiset(Map(MaskOfShape, b.queue)) == multiset(Catalog)
    ensures b.nextId == first + |Catalog|
    ensures Valid(b)
  {
    var min := if minArg.None? || minArg.value == 0 then 3 else minArg.value;
    var empty := Bag([], min, first);
    assert Valid(empty);
    var r := Replenish(empty, rnd);
    assert r.queue[0..] == r.queue;
    r
  }

  /**
   * Draws the shape at the end of the queue; when fewer than `min` shapes
   * remain it appends a fresh batch before returning.
   */
  function Grab(b: Bag, rnd: seq<nat>): (r: Grabbed)
    requires ValidDraws(rnd, |Catalog|)
    ensures |b.queue| == 0 ==> r.shape == None
    ensures |b.queue| > 0 ==> r.shape == Some(b.queue[|b.queue| - 1])
    ensures var rest := if |b.queue| == 0 then 0 else |b.queue| - 1;
            && |r.bag.queue| == rest + (if rest < b.min then |Catalog| else 0)
            && r.bag.queue[..rest] == b.queue[..rest]
    ensures r.bag.min == b.min
    ensures b.min <= |Catalog| ==> |r.bag.queue| >= b.min
  {
    var shape := if |b.queue| == 0 then None else Some(b.queue[|b.queue| - 1]);
    var rest := if |b.queue| == 0 then 0 else |b.queue| - 1;
    var popped := b.(queue := b.queue[..rest]);
    assert popped.queue[..rest] == popped.queue;
    var after := if rest < b.min then Replenish(popped, rnd) else popped;
    Grabbed(shape, after)
  }

  /** Drawing from a valid bag leaves it valid. */
  lemma GrabKeepsValid(b: Bag, rnd: seq<nat>)
    requires ValidDraws(rnd, |Catalog|) && Valid(b)
    ensures Valid(Grab(b, rnd).bag)
  {
    var popped := b.(queue := b.queue[..if |b.queue| == 0 then 0 else |b.queue| - 1]);
    ValidPop(b);
    assert Valid(popped);
    if |popped.queue| < b.min {
      assert Grab(b, rnd).bag == Replenish(popped, rnd);
    } else {
      assert Grab(b, rnd).bag == popped;
    }
  }

  /** Drawing from a bag that meets its threshold leaves the rest of the queue in order, and the drawn shape fresh and catalogued. */
  lemma GrabFromValid(b: Bag, rnd: seq<nat>)
    requires ValidDraws(rnd, |Catalog|) && Valid(b) && |b.queue| > 0
    ensures var r := Grab(b, rnd);
            r.shape.Some? && WellFormed(r.shape.value) && InCatalog(MaskOf(r.shape.value.cells))
    ensures var r := Grab(b, rnd);
            forall j :: 0 <= j < |r.bag.queue| ==> r.bag.queue[j].id != r.shape.value.id
  {
    var r := Grab(b, rnd);
    assert Fresh(b.queue[|b.queue| - 1], b.nextId);
    assert forall k :: 0 <= k < |b.queue| - 1 ==> b.queue[k].id != b.queue[|b.queue| - 1].id;
    forall j | 0 <= j < |r.bag.queue|
      ensures r.bag.queue[j].id != r.shape.value.id
    {
      GrabLeavesOthers(b, rnd, j);
    }
  }

  lemma GrabLeavesOthers(b: Bag, rnd: seq<nat>, j: int)
    requires ValidDraws(rnd, |Catalog|) && |b.queue| > 0
    requires b.queue[|b.queue| - 1].id < b.nextId
    requires forall k :: 0 <= k < |b.queue| - 1 ==> b.queue[k].id != b.queue[|b.queue| - 1].id
    requires 0 <= j < |Grab(b, rnd).bag.queue|
    ensures Grab(b, rnd).bag.queue[j].id != b.queue[|b.queue| - 1].id
  {
    if j < |b.queue| - 1 {
      GrabKeepsRest(b, rnd, j);
    } else {
      GrabRefilled(b, rnd, j);
    }
  }

  /** Below the drawn position, the queue after a draw is the queue before. */
  lemma GrabKeepsRest(b: Bag, rnd: seq<nat>, j: int)
    requires ValidDraws(rnd, |Catalog|) && 0 <= j < |b.queue| - 1
    ensures j < |Grab(b, rnd).bag.queue| && Grab(b, rnd).bag.queue[j] == b.queue[j]
  {
    var last := |b.queue| - 1;
    var q := Grab(b, rnd).bag.queue;
    assert q[..last] == b.queue[..last];
    assert q[..last][j] == q[j];
  }

  /** At or past the drawn position, the queue after a draw holds a shape of the new batch. */
  lemma GrabRefilled(b: Bag, rnd: seq<nat>, j: int)
    requires ValidDraws(rnd, |Catalog|) && |b.queue| > 0
    requires |b.queue| - 1 <= j < |b.queue| - 1 + (if |b.queue| - 1 < b.min then |Catalog| else 0)
    ensures j < |Grab(b, rnd).bag.queue| && Grab(b, rnd).bag.queue[j].id >= b.nextId
  {
    var last := |b.queue| - 1;
    var popped := b.(queue := b.queue[..last]);
    var r := Replenish(popped, rnd);
    assert Grab(b, rnd).bag == r;
    assert r.queue[j].id >= popped.nextId;
  }

  // ---------------------------------------------------------------------
  // Peeking
  // ---------------------------------------------------------------------

  /** How many entries `peek(amount)` gathers: `amount` capped at `min`, none for a non-positive count. */
  function PeekCount(b: Bag, amount: int): nat
  {
    var n := if b.min < amount then b.min else amount;
    if n < 0 then 0 else n
  }

  /**
   * What the loop of `peek` gathers as written: the first n queue entries
   * counted from the front, an absent entry standing for each position
   * past the end of the queue.
   */
  function Front(b: Bag, n: nat): (r: seq<Option<Shape>>)
    ensures |r| == n
    ensures forall z :: 0 <= z < n && z < |b.queue| ==> r[z] == Some(b.queue[z])
    ensures forall z :: |b.queue| <= z < n ==> r[z] == None
  {
    seq(n, z requires 0 <= z < n => if z < |b.queue| then Some(b.queue[z]) else None)
  }

  /**
   * The next n queue entries in the order `grab` takes them, counted from
   * the back, an absent entry standing for each position past the front.
   */
  function Next(b: Bag, n: nat): (r: seq<Option<Shape>>)
    ensures |r| == n
    ensures forall z :: 0 <= z < n && z < |b.queue| ==> r[z] == Some(b.queue[|b.queue| - 1 - z])
    ensures forall z :: |b.queue| <= z < n ==> r[z] == None
  {
    seq(n, z requires 0 <= z < n => if z < |b.queue| then Some(b.queue[|b.queue| - 1 - z]) else None)
  }

  /**
   * `peek`, corrected to return what it gathers and to gather in the
   * order of grabbing (see the findings on src/Bag.jsx): the next
   * min(min, amount) shapes from the back of the queue.
   */
  method Peek(b: Bag, amount: int) returns (r: seq<Option<Shape>>)
    ensures r == Next(b, PeekCount(b, amount))
    ensures |r| <= b.min || |r| == 0
    ensures |r| <= amount || |r| == 0
  {
    var n := if b.min < amount then b.min else amount;
    r := [];
    var z := 0;
    while z < n
      invariant 0 <= z && (n >= 0 ==> z <= n) && (n < 0 ==> z == 0)
      invariant |r| == z
      invariant forall j :: 0 <= j < z ==> r[j] == if j < |b.queue| then Some(b.queue[|b.queue| - 1 - j]) else None
    {
      r := r + [if z < |b.queue| then Some(b.queue[|b.queue| - 1 - z]) else None];
      z := z + 1;
    }
  }

  /** A grab that leaves at least min shapes takes the last one off and appends nothing. */
  lemma GrabWithoutRefill(b: Bag, rnd: seq<nat>)
    requires ValidDraws(rnd, |Catalog|)
    requires |b.queue| > 0 && |b.queue| - 1 >= b.min
    ensures Grab(b, rnd).shape == Some(b.queue[|b.queue| - 1])
    ensures Grab(b, rnd).bag.queue == b.queue[..|b.queue| - 1] && Grab(b, rnd).bag.min == b.min
  {
    var r := Grab(b, rnd);
    assert r.bag.queue == r.bag.queue[..|b.queue| - 1];
  }

  /** The first shape the corrected peek shows is the one the next grab returns. */
  lemma PeekIsNextGrab(b: Bag, amount: int, rnd: seq<nat>)
    requires ValidDraws(rnd, |Catalog|)
    requires |b.queue| > 0 && PeekCount(b, amount) > 0
    ensures Next(b, PeekCount(b, amount))[0] == Grab(b, rnd).shape
  {
  }

  /**
   * After a grab that needs no refill, what the corrected peek shows is
   * what it showed before, less the grabbed shape: so, grab after grab
   * until a refill, the shapes come out in the order peeked.
   */
  lemma NextAfterGrab(b: Bag, rnd: seq<nat>, n: nat)
    requires ValidDraws(rnd, |Catalog|)
    requires |b.queue| > 0 && |b.queue| - 1 >= b.min
    ensures Next(b, n + 1)[0] == Grab(b, rnd).shape
    ensures Next(Grab(b, rnd).bag, n) == Next(b, n + 1)[1..]
  {
    GrabWithoutRefill(b, rnd);
    var after := Grab(b, rnd).bag;
    assert |after.queue| == |b.queue| - 1;
    forall z | 0 <= z < n
      ensures Next(after, n)[z] == Next(b, n + 1)[z + 1]
    {
      if z < |after.queue| {
        assert after.queue[|after.queue| - 1 - z] == b.queue[|b.queue| - 1 - (z + 1)];
      }
    }
  }

  /**
   * As written, `peek` gathers from the front of the queue while `grab`
   * takes from the back: when the two ends differ, the first shape the
   * loop gathers is not the one the next grab returns.
   */
  lemma PeekAsWrittenMisorders(b: Bag, rnd: seq<nat>)
    requires ValidDraws(rnd, |Catalog|)
    requires |b.queue| >= 2 && b.min > 0 && b.queue[0] != b.queue[|b.queue| - 1]
    ensures Front(b, PeekCount(b, 1))[0] == Some(b.queue[0])
    ensures Grab(b, rnd).shape == Some(b.queue[|b.queue| - 1])
    ensures Front(b, PeekCount(b, 1))[0] != Grab(b, rnd).shape
    ensures Next(b, PeekCount(b, 1))[0] == Grab(b, rnd).shape
  {
    assert PeekCount(b, 1) == 1;
    var last := b.queue[|b.queue| - 1];
    assert Front(b, 1)[0] == Some(b.queue[0]) && Next(b, 1)[0] == Some(last);
    assert Grab(b, rnd).shape == Some(last);
  }

  /** `peek` as written: the array is gathered and then dropped, so the caller always gets nothing. */
  function PeekAsWritten(b: Bag, amount: int): (r: Option<seq<Option<Shape>>>)
    ensures r.None?
  {
    None
  }

  /** With a shape queued and a positive count, the corrected peek shows the next grab while the one as written returns nothing. */
  lemma PeekAsWrittenLosesShapes(b: Bag, amount: int)
    requires |b.queue| > 0 && b.min > 0 && amount > 0
    ensures PeekAsWritten(b, amount) == None
    ensures |Next(b, PeekCount(b, amount))| > 0 && Next(b, PeekCount(b, amount))[0] == Some(b.queue[|b.queue| - 1])
  {
  }

  // ---------------------------------------------------------------------
  // Replenishing as written
  // ---------------------------------------------------------------------

  /** Reading `.scheme` off a catalogue entry: the entries are bare arrays, so there is no such property. */
  function SchemeProperty(entry: Mask): Option<Mask>
  {
    None
  }

  /** `fromScheme` as reached from the source's `replenish`: a missing scheme throws on reading its length. */
  function FromSchemeAsWritten(scheme: Option<Mask>, id: ShapeId): (r: Option<Shape>)
    ensures r.Some? <==> scheme.Some?
    ensures r.Some? ==> MaskOf(r.value.cells) == scheme.value
  {
    if scheme.None? then None else Some(FromScheme(scheme.value, Undefined, id))
  }

  /** `replenish` as written: `None` when building any catalogue shape throws. */
  function ReplenishAsWritten(b: Bag, rnd: seq<nat>): (r: Option<Bag>)
    requires ValidDraws(rnd, |Catalog|)
    ensures r.Some? ==> r.value == Replenish(b, rnd)
  {
    if exists z :: 0 <= z < |Catalog| && FromSchemeAsWritten(SchemeProperty(Catalog[z]), b.nextId + z).None?
    then None
    else Some(Replenish(b, rnd))
  }

  /** Every replenish as written throws, so no bag can be built, while the corrected one always appends a batch. */
  lemma ReplenishAsWrittenThrows(b: Bag, rnd: seq<nat>)
    requires ValidDraws(rnd, |Catalog|)
    ensures ReplenishAsWritten(b, rnd) == None
    ensures |Replenish(b, rnd).queue| == |b.queue| + 7
  {
    assert FromSchemeAsWritten(SchemeProperty(Catalog[0]), b.nextId + 0).None?;
  }
}
