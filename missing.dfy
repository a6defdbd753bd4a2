/** Counter cells that may be missing (pandas NaN), and the reductions the
    pipeline applies to them: `min`, `max` and `last` skip missing cells and
    give a missing result only when every cell is missing; arithmetic on a
    missing cell gives a missing result. */
module Missing {
  import opened Wrappers

  /** `min` of two cells, skipping a missing one. */
  function Min2(a: Option<real>, b: Option<real>): Option<real> {
    match (a, b)
    case (None, _) => b
    case (_, None) => a
    case (Some(x), Some(y)) => Some(if x <= y then x else y)
  }

  /** `max` of two cells, skipping a missing one. */
  function Max2(a: Option<real>, b: Option<real>): Option<real> {
    match (a, b)
    case (None, _) => b
    case (_, None) => a
    case (Some(x), Some(y)) => Some(if x >= y then x else y)
  }

  /** `Series.min()`: the least present value. */
  function MinOf(xs: seq<Option<real>>): (m: Option<real>)
    ensures m.None? <==> forall i :: 0 <= i < |xs| ==> xs[i].None?
    ensures m.Some? ==> m in xs
    ensures m.Some? ==> forall i :: 0 <= i < |xs| && xs[i].Some? ==> m.value <= xs[i].value
    decreases |xs|
  {
    if |xs| == 0 then None else Min2(MinOf(xs[..|xs| - 1]), xs[|xs| - 1])
  }

  /** `Series.max()`: the greatest present value. */
  function MaxOf(xs: seq<Option<real>>): (m: Option<real>)
    ensures m.None? <==> forall i :: 0 <= i < |xs| ==> xs[i].None?
    ensures m.Some? ==> m in xs
    ensures m.Some? ==> forall i :: 0 <= i < |xs| && xs[i].Some? ==> xs[i].value <= m.value
    decreases |xs|
  {
    if |xs| == 0 then None else Max2(MaxOf(xs[..|xs| - 1]), xs[|xs| - 1])
  }

  /** Position of the last present cell, or -1 when every cell is missing. */
  function LastPresent(xs: seq<Option<real>>): (k: int)
    ensures -1 <= k < |xs|
    ensures k >= 0 ==> xs[k].Some?
    ensures forall j :: k < j < |xs| ==> xs[j].None?
    decreases |xs|
  {
    if |xs| == 0 then -1
    else if xs[|xs| - 1].Some? then |xs| - 1
    else LastPresent(xs[..|xs| - 1])
  }

  /** `last()` of a resampled bin: the last present value. */
  function LastOf(xs: seq<Option<real>>): (m: Option<real>)
    ensures m.None? <==> forall i :: 0 <= i < |xs| ==> xs[i].None?
    ensures m.Some? ==> exists k :: 0 <= k < |xs| && xs[k] == m && forall j :: k < j < |xs| ==> xs[j].None?
  {
    var k := LastPresent(xs);
    if k < 0 then None else xs[k]
  }

  /** Subtraction of cells; missing when either operand is. */
  function Sub(a: Option<real>, b: Option<real>): Option<real> {
    if a.Some? && b.Some? then Some(a.value - b.value) else None
  }
}
