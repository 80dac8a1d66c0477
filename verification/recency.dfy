/**
  The "most recent first" ordering three views apply to request lists:
  `[...xs].sort((a, b) => t(b) - t(a))` for a timestamp field `t`.
  JavaScript's sort is stable, so it is modelled by an insertion sort that
  places an element before every element whose timestamp is not newer.
 */
module Recency {
  import opened Noc

  /** Which timestamp a view orders by. */
  datatype TimeField = CreatedAt | UpdatedAt

  function Stamp(r: NocRequest, f: TimeField): int {
    match f
    case CreatedAt => r.createdAt
    case UpdatedAt => r.updatedAt
  }

  /** Timestamps never increase along `xs`. */
  ghost predicate NewestFirst(xs: seq<NocRequest>, f: TimeField) {
    forall i, j :: 0 <= i < j < |xs| ==> Stamp(xs[j], f) <= Stamp(xs[i], f)
  }

  /** Insert `x` into a newest-first sequence, ahead of the elements no newer than it. */
  function Insert(x: NocRequest, xs: seq<NocRequest>, f: TimeField): (r: seq<NocRequest>)
    requires NewestFirst(xs, f)
    ensures NewestFirst(r, f)
    ensures multiset(r) == multiset(xs) + multiset{x}
    ensures |r| == |xs| + 1
    ensures r[0] == x || (xs != [] && r[0] == xs[0])
  {
    if xs == [] || Stamp(xs[0], f) <= Stamp(x, f) then
      ConsNewestFirst(x, xs, f);
      [x] + xs
    else
      assert xs == [xs[0]] + xs[1..];
      var rest := Insert(x, xs[1..], f);
      ConsNewestFirst(xs[0], rest, f);
      [xs[0]] + rest
  }

  /** Putting an element no older than the head in front keeps a sequence newest-first. */
  lemma ConsNewestFirst(h: NocRequest, xs: seq<NocRequest>, f: TimeField)
    requires NewestFirst(xs, f)
    requires xs != [] ==> Stamp(xs[0], f) <= Stamp(h, f)
    ensures NewestFirst([h] + xs, f)
  {
  }

  /** The view's sort: a reordering of `xs`, newest first. */
  function SortNewestFirst(xs: seq<NocRequest>, f: TimeField): (r: seq<NocRequest>)
    ensures NewestFirst(r, f)
    ensures multiset(r) == multiset(xs)
    ensures |r| == |xs|
  {
    if xs == [] then []
    else
      assert xs == [xs[0]] + xs[1..];
      Insert(xs[0], SortNewestFirst(xs[1..], f), f)
  }
}
