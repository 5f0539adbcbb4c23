/**
 * Filtering a sequence through a partial function, as a `forEach` with a
 * conditional `push` does, and a backwards search over positions.
 */
module Lists {
  import opened Wrappers

  /**
   * The elements `f` keeps, in order: a loop that pushes `f(x).value`
   * for every `x` whose `f(x)` is present.
   */
  function FilterMap<A, B>(xs: seq<A>, f: A -> Option<B>): seq<B>
  {
    if xs == [] then []
    else
      var last := f(xs[|xs| - 1]);
      FilterMap(xs[..|xs| - 1], f) + (if last.Some? then [last.value] else [])
  }

  lemma {:induction false} FilterMapConcat<A, B>(xs: seq<A>, ys: seq<A>, f: A -> Option<B>)
    ensures FilterMap(xs + ys, f) == FilterMap(xs, f) + FilterMap(ys, f)
    decreases |ys|
  {
    if ys == [] {
      assert xs + ys == xs;
    } else {
      assert (xs + ys)[..|xs + ys| - 1] == xs + ys[..|ys| - 1];
      FilterMapConcat(xs, ys[..|ys| - 1], f);
    }
  }

  lemma {:induction false} FilterMapMember<A, B>(xs: seq<A>, f: A -> Option<B>, y: B)
    ensures y in FilterMap(xs, f) <==> exists i :: 0 <= i < |xs| && f(xs[i]) == Some(y)
    decreases |xs|
  {
    if xs != [] {
      var init := xs[..|xs| - 1];
      FilterMapMember(init, f, y);
      if y in FilterMap(init, f) {
        var i :| 0 <= i < |init| && f(init[i]) == Some(y);
        assert xs[i] == init[i];
      }
      if i :| 0 <= i < |xs| && f(xs[i]) == Some(y) {
        if i < |init| {
          assert init[i] == xs[i];
        }
      }
    }
  }

  /** An element `f` maps to None contributes nothing, wherever it sits. */
  lemma FilterMapSkip<A, B>(xs: seq<A>, x: A, ys: seq<A>, f: A -> Option<B>)
    requires f(x).None?
    ensures FilterMap(xs + [x] + ys, f) == FilterMap(xs + ys, f)
  {
    FilterMapConcat(xs + [x], ys, f);
    FilterMapConcat(xs, [x], f);
    FilterMapConcat(xs, ys, f);
    assert [x][..0] == [];
  }

  /** The largest position below `hi` satisfying `fits`, searching downwards. */
  function LastWhere(fits: nat -> bool, hi: nat): (p: Option<nat>)
    ensures p.Some? ==> p.value < hi && fits(p.value)
    ensures p.Some? ==> forall q: nat :: p.value < q < hi ==> !fits(q)
    ensures p.None? ==> forall q: nat :: q < hi ==> !fits(q)
    decreases hi
  {
    if hi == 0 then None
    else if fits(hi - 1) then Some(hi - 1)
    else LastWhere(fits, hi - 1)
  }
}
