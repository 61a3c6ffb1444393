/** The array operations the résumé editors use: `map` with a conditional
    update (the per-id edits), `filter` (removal and blank-skipping), and
    `filter` by position (removal of one skill). */
module Seqs {

  /** `xs.map(x => p(x) ? f(x) : x)`: every element satisfying `p` is
      replaced by its image under `f`, the others are kept, in place. */
  function MapWhere<T>(xs: seq<T>, p: T -> bool, f: T -> T): (r: seq<T>)
    ensures |r| == |xs|
    ensures forall i :: 0 <= i < |xs| && p(xs[i]) ==> r[i] == f(xs[i])
    ensures forall i :: 0 <= i < |xs| && !p(xs[i]) ==> r[i] == xs[i]
  {
    if |xs| == 0 then []
    else [if p(xs[0]) then f(xs[0]) else xs[0]] + MapWhere(xs[1..], p, f)
  }

  /** `xs.filter(p)`. */
  function Keep<T>(xs: seq<T>, p: T -> bool): (r: seq<T>)
    ensures |r| <= |xs|
    ensures forall x :: x in r ==> x in xs && p(x)
    ensures forall x :: x in xs && p(x) ==> x in r
    ensures multiset(r) <= multiset(xs)
  {
    if |xs| == 0 then []
    else
      assert xs == [xs[0]] + xs[1..];
      if p(xs[0]) then [xs[0]] + Keep(xs[1..], p) else Keep(xs[1..], p)
  }

  /** Filtering distributes over concatenation: the survivors keep their
      relative order. */
  lemma {:induction false} KeepAppend<T>(xs: seq<T>, ys: seq<T>, p: T -> bool)
    ensures Keep(xs + ys, p) == Keep(xs, p) + Keep(ys, p)
  {
    if |xs| > 0 {
      assert (xs + ys)[1..] == xs[1..] + ys;
      KeepAppend(xs[1..], ys, p);
    } else {
      assert xs + ys == ys;
    }
  }

  /** Filtering a list whose every element passes changes nothing. */
  lemma {:induction false} KeepAll<T>(xs: seq<T>, p: T -> bool)
    requires forall i :: 0 <= i < |xs| ==> p(xs[i])
    ensures Keep(xs, p) == xs
  {
    if |xs| > 0 {
      KeepAll(xs[1..], p);
      assert xs == [xs[0]] + xs[1..];
    }
  }

  /** Filtering a list whose every element fails leaves nothing. */
  lemma {:induction false} KeepNone<T>(xs: seq<T>, p: T -> bool)
    requires forall i :: 0 <= i < |xs| ==> !p(xs[i])
    ensures Keep(xs, p) == []
  {
    if |xs| > 0 {
      KeepNone(xs[1..], p);
    }
  }

  /** Filtering a list whose elements all pass, followed by one that
      fails, gives back the list. */
  lemma KeepDropsLast<T>(xs: seq<T>, x: T, p: T -> bool)
    requires forall i :: 0 <= i < |xs| ==> p(xs[i])
    requires !p(x)
    ensures Keep(xs + [x], p) == xs
  {
    KeepAppend(xs, [x], p);
    KeepAll(xs, p);
    KeepNone([x], p);
  }

  /** `xs.filter((_, j) => j !== i)`: drops position `i`, and nothing when
      `i` is not a position of `xs`. */
  function RemoveAt<T>(xs: seq<T>, i: int): (r: seq<T>)
    ensures 0 <= i < |xs| ==> |r| == |xs| - 1
    ensures 0 <= i < |xs| ==> forall j :: 0 <= j < i ==> r[j] == xs[j]
    ensures 0 <= i < |xs| ==> forall j :: i <= j < |r| ==> r[j] == xs[j + 1]
    ensures !(0 <= i < |xs|) ==> r == xs
  {
    if 0 <= i < |xs| then xs[..i] + xs[i + 1..] else xs
  }

  /** `xs.map(f)`. */
  function Map<T, U>(xs: seq<T>, f: T -> U): (r: seq<U>)
    ensures |r| == |xs|
    ensures forall i :: 0 <= i < |xs| ==> r[i] == f(xs[i])
  {
    if |xs| == 0 then [] else [f(xs[0])] + Map(xs[1..], f)
  }

  /** Mapping commutes with replacing one element. */
  lemma MapUpdate<T, U>(xs: seq<T>, i: nat, x: T, f: T -> U)
    requires i < |xs|
    ensures Map(xs[i := x], f) == Map(xs, f)[i := f(x)]
  {
  }

  /** Writing an element's own value back changes nothing. */
  lemma UpdateSame<T>(xs: seq<T>, i: nat)
    requires i < |xs|
    ensures xs[i := xs[i]] == xs
  {
  }

  /** `xs.map((a, j) => j === i ? v : a)`: position `i` takes `v`, every
      other position keeps its element, and an index outside the list
      changes nothing. */
  function SetAt<T>(xs: seq<T>, i: int, v: T): (r: seq<T>)
    ensures |r| == |xs|
    ensures 0 <= i < |xs| ==> r[i] == v
    ensures forall j :: 0 <= j < |xs| && j != i ==> r[j] == xs[j]
  {
    if 0 <= i < |xs| then xs[i := v] else xs
  }
}
