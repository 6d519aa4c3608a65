/** Cycle walking over an arbitrary permutation of the block [0, N): the
    walk from an offset applies the permutation until the result lands in
    [0, limit].  Nothing here depends on how the permutation is computed,
    so these lemmas hold for the Feistel pass of module CycleWalk as for
    any other block cipher. */
module Walking {

  /** walk_max: the walk limit. */
  const WALK_MAX: nat := 1000000

  /** f applied n times to x. */
  function Iterate(f: nat -> nat, n: nat, x: nat): (y: nat)
  {
    if n == 0 then x else f(Iterate(f, n - 1, x))
  }

  /** f maps the block [0, N) into itself. */
  ghost predicate MapsInto(f: nat -> nat, N: nat) {
    forall x: nat :: x < N ==> f(x) < N
  }

  /** g undoes f on the block. */
  ghost predicate Undoes(g: nat -> nat, f: nat -> nat, N: nat) {
    forall x: nat :: x < N ==> g(f(x)) == x
  }

  lemma {:induction false} IterateInto(f: nat -> nat, N: nat, n: nat, x: nat)
    requires MapsInto(f, N) && x < N
    ensures Iterate(f, n, x) < N
  {
    if n > 0 {
      IterateInto(f, N, n - 1, x);
    }
  }

  /** Walking back n passes with the inverse from the k-th pass lands on
      pass k - n. */
  lemma {:induction false} IterateBack(f: nat -> nat, g: nat -> nat, N: nat, k: nat, n: nat, x: nat)
    requires MapsInto(f, N) && Undoes(g, f, N) && x < N && n <= k
    ensures Iterate(g, n, Iterate(f, k, x)) == Iterate(f, k - n, x)
  {
    if n > 0 {
      IterateBack(f, g, N, k, n - 1, x);
      IterateInto(f, N, k - n, x);
      assert Iterate(f, k - n + 1, x) == f(Iterate(f, k - n, x));
    }
  }

  /** Pass k is the first of passes 1..walk_max whose result is at most
      limit. */
  ghost predicate IsFirstInRange(f: nat -> nat, limit: int, x: nat, k: nat) {
    && 1 <= k <= WALK_MAX
    && Iterate(f, k, x) <= limit
    && forall n: nat :: 1 <= n < k ==> Iterate(f, n, x) > limit
  }

  lemma FirstInRangeUnique(f: nat -> nat, limit: int, x: nat, k1: nat, k2: nat)
    requires IsFirstInRange(f, limit, x, k1) && IsFirstInRange(f, limit, x, k2)
    ensures k1 == k2
  {
  }

  /** If the walk from x (itself at most limit) first lands in range at
      pass k, the walk back from there with the inverse also first lands in
      range at pass k, and on x. */
  lemma FirstInRangeBack(f: nat -> nat, g: nat -> nat, N: nat, limit: int, x: nat, k: nat)
    requires MapsInto(f, N) && Undoes(g, f, N) && x < N && x <= limit
    requires IsFirstInRange(f, limit, x, k)
    ensures IsFirstInRange(g, limit, Iterate(f, k, x), k)
    ensures Iterate(g, k, Iterate(f, k, x)) == x
  {
    var y := Iterate(f, k, x);
    forall n: nat | 1 <= n < k
      ensures Iterate(g, n, y) > limit
    {
      IterateBack(f, g, N, k, n, x);
    }
    IterateBack(f, g, N, k, k, x);
  }

  datatype WalkOutcome = Found(offset: nat) | Exhausted

  /** The do-while loop of the walk over a state of type S, entered with
      walk_count == count.  `turn` runs one pass of the cipher and leaves
      the state for the next pass; `join` reads the pass's result off that
      state.  The loop continues while the result exceeds limit and
      walk_count++ < walk_max; the source then fails when
      walk_count >= walk_max. */
  function Walk<S>(turn: S -> S, join: S -> nat, limit: int, state: S, count: nat): (w: WalkOutcome)
    requires count <= WALK_MAX
    ensures w.Found? ==> w.offset <= limit
    decreases WALK_MAX - count
  {
    var next := turn(state);
    var result := join(next);
    if result > limit && count < WALK_MAX then
      Walk(turn, join, limit, next, count + 1)
    else
      var walkCount := if result > limit then count + 1 else count;
      if walkCount >= WALK_MAX then Exhausted else Found(result)
  }

  /** The state after a pass is the split of the pass's result: the walk
      on states follows the step function f on offsets. */
  ghost predicate Tracks<S>(turn: S -> S, join: S -> nat, split: nat -> S, f: nat -> nat, N: nat) {
    forall x: nat {:trigger turn(split(x))} :: x < N ==> turn(split(x)) == split(f(x)) && join(turn(split(x))) == f(x)
  }

  /** Passes 1..walk_max from x all leave [0, limit]. */
  ghost predicate Exhausts(f: nat -> nat, limit: int, x: nat) {
    forall n: nat :: 1 <= n <= WALK_MAX ==> Iterate(f, n, x) > limit
  }

  /** y is the result of the first of passes 1..walk_max from x that lands
      in [0, limit]. */
  ghost predicate FirstLanding(f: nat -> nat, limit: int, x: nat, y: nat) {
    exists k: nat :: IsFirstInRange(f, limit, x, k) && y == Iterate(f, k, x)
  }

  /** w is what a walk from x must return: Exhausted exactly when every
      pass leaves the range, otherwise the first landing. */
  ghost predicate Describes(f: nat -> nat, limit: int, x: nat, w: WalkOutcome) {
    && (w.Exhausted? <==> Exhausts(f, limit, x))
    && (w.Found? ==> FirstLanding(f, limit, x, w.offset))
  }

  /** A walk that has already taken count passes, all of them out of
      range, fails exactly when passes 1..walk_max all fall out of range,
      and otherwise returns the first pass that falls in range. */
  lemma {:induction false} WalkIterates<S>(turn: S -> S, join: S -> nat, split: nat -> S, f: nat -> nat,
                                           N: nat, limit: int, x: nat, count: nat)
    requires MapsInto(f, N) && Tracks(turn, join, split, f, N) && x < N && count <= WALK_MAX
    requires forall n: nat :: 1 <= n <= count ==> Iterate(f, n, x) > limit
    ensures Describes(f, limit, x, Walk(turn, join, limit, split(Iterate(f, count, x)), count))
    decreases WALK_MAX - count
  {
    IterateInto(f, N, count, x);
    var y := Iterate(f, count, x);
    var result := f(y);
    assert result == Iterate(f, count + 1, x);
    assert turn(split(y)) == split(result) && join(turn(split(y))) == result;
    var w := Walk(turn, join, limit, split(y), count);
    if count < WALK_MAX {
      if result > limit {
        WalkIterates(turn, join, split, f, N, limit, x, count + 1);
      } else {
        assert w == Found(result);
        assert IsFirstInRange(f, limit, x, count + 1);
        assert !Exhausts(f, limit, x) by {
          assert 1 <= count + 1 <= WALK_MAX && Iterate(f, count + 1, x) <= limit;
        }
      }
    } else {
      assert w == Exhausted;
    }
  }

  /** If the walk with f from x (itself in range) lands on y, the walk with
      the inverse g from y lands back on x. */
  lemma WalkBack(f: nat -> nat, g: nat -> nat, N: nat, limit: int, x: nat, y: nat, w: WalkOutcome)
    requires MapsInto(f, N) && Undoes(g, f, N) && x < N && x <= limit
    requires FirstLanding(f, limit, x, y) && Describes(g, limit, y, w)
    ensures w == Found(x)
  {
    var k: nat :| IsFirstInRange(f, limit, x, k) && y == Iterate(f, k, x);
    FirstInRangeBack(f, g, N, limit, x, k);
    assert !Exhausts(g, limit, y) by {
      assert Iterate(g, k, y) <= limit;
    }
    var k': nat :| IsFirstInRange(g, limit, y, k') && w.offset == Iterate(g, k', y);
    FirstInRangeUnique(g, limit, y, k, k');
  }
}
