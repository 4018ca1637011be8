/**
 Sequence operations shared by the frame and plot models: boolean-mask
 filtering (`df[mask]`, `zvals[np.isfinite(zvals)]`), Python's `xs[:-1]` and
 `xs[1:]`, and list comprehensions that drop members of another list.
 */
module Seqs {

  /** The elements of `xs` whose mask entry is true, in order. */
  function Filter<T>(xs: seq<T>, keep: seq<bool>): seq<T>
    requires |keep| == |xs|
    decreases |xs|
  {
    if |xs| == 0 then []
    else
      var n := |xs| - 1;
      Filter(xs[..n], keep[..n]) + (if keep[n] then [xs[n]] else [])
  }

  /** The positions whose mask entry is true, in increasing order. */
  function Kept(keep: seq<bool>): seq<nat>
    decreases |keep|
  {
    if |keep| == 0 then []
    else
      var n := |keep| - 1;
      Kept(keep[..n]) + (if keep[n] then [n] else [])
  }

  /** Number of true entries of a mask. */
  function Count(keep: seq<bool>): nat {
    |Kept(keep)|
  }

  ghost predicate Increasing(ps: seq<nat>) {
    forall i, j :: 0 <= i < j < |ps| ==> ps[i] < ps[j]
  }

  /** `Kept` lists exactly the true positions, each once, in order. */
  lemma {:induction false} KeptSpec(keep: seq<bool>)
    ensures Increasing(Kept(keep))
    ensures forall j :: 0 <= j < |Kept(keep)| ==> Kept(keep)[j] < |keep|
    ensures forall p :: 0 <= p < |keep| ==> (keep[p] <==> p in Kept(keep))
    ensures |Kept(keep)| <= |keep|
    decreases |keep|
  {
    if |keep| > 0 {
      var n := |keep| - 1;
      KeptSpec(keep[..n]);
      forall p | 0 <= p < n
        ensures keep[p] == keep[..n][p]
      {
      }
    }
  }

  /** Element `j` of a filtered sequence is the element at the `j`-th kept
      position. */
  lemma {:induction false} FilterSpec<T>(xs: seq<T>, keep: seq<bool>)
    requires |keep| == |xs|
    ensures |Filter(xs, keep)| == |Kept(keep)|
    ensures forall j :: 0 <= j < |Kept(keep)| ==>
              Kept(keep)[j] < |xs| && Filter(xs, keep)[j] == xs[Kept(keep)[j]]
    decreases |xs|
  {
    KeptSpec(keep);
    if |xs| > 0 {
      var n := |xs| - 1;
      FilterSpec(xs[..n], keep[..n]);
      KeptSpec(keep[..n]);
    }
  }

  /** Filtering with an all-true mask keeps everything. */
  lemma {:induction false} FilterAll<T>(xs: seq<T>, keep: seq<bool>)
    requires |keep| == |xs|
    requires forall i :: 0 <= i < |keep| ==> keep[i]
    ensures Filter(xs, keep) == xs
    decreases |xs|
  {
    if |xs| > 0 {
      var n := |xs| - 1;
      FilterAll(xs[..n], keep[..n]);
      assert xs == xs[..n] + [xs[n]];
    }
  }

  /** Python's `xs[:-1]`: everything but the last element; empty stays empty. */
  function DropLast<T>(xs: seq<T>): (r: seq<T>)
    ensures |xs| > 0 ==> |r| == |xs| - 1
    ensures |xs| == 0 ==> r == []
    ensures forall i :: 0 <= i < |r| ==> r[i] == xs[i]
  {
    if |xs| == 0 then [] else xs[..|xs| - 1]
  }

  /** Python's `xs[1:]`: everything but the first element; empty stays empty. */
  function DropFirst<T>(xs: seq<T>): (r: seq<T>)
    ensures |xs| > 0 ==> |r| == |xs| - 1
    ensures |xs| == 0 ==> r == []
    ensures forall i :: 0 <= i < |r| ==> r[i] == xs[i + 1]
  {
    if |xs| == 0 then [] else xs[1..]
  }

  /** `[x for x in xs if x not in drop]`. */
  function Without<T(==,!new)>(xs: seq<T>, drop: seq<T>): (r: seq<T>)
    ensures forall x :: x in r <==> x in xs && x !in drop
    ensures |r| <= |xs|
    ensures forall i :: 0 <= i < |xs| && xs[i] in drop ==> |r| < |xs|
  {
    if |xs| == 0 then []
    else if xs[0] in drop then Without(xs[1..], drop)
    else [xs[0]] + Without(xs[1..], drop)
  }

  /** `[x for x in xs if x in only]`. */
  function Only<T(==,!new)>(xs: seq<T>, only: seq<T>): (r: seq<T>)
    ensures forall x :: x in r <==> x in xs && x in only
    ensures |r| <= |xs|
  {
    if |xs| == 0 then []
    else if xs[0] in only then [xs[0]] + Only(xs[1..], only)
    else Only(xs[1..], only)
  }

  /** Both comprehensions keep the original relative order: each is a
      subsequence of its input. */
  ghost predicate SubsequenceOf<T>(r: seq<T>, xs: seq<T>)
    decreases |xs|
  {
    if |r| == 0 then true
    else if |xs| == 0 then false
    else if r[0] == xs[0] then SubsequenceOf(r[1..], xs[1..])
    else SubsequenceOf(r, xs[1..])
  }

  lemma {:induction false} WithoutKeepsOrder<T(!new)>(xs: seq<T>, drop: seq<T>)
    ensures SubsequenceOf(Without(xs, drop), xs)
    decreases |xs|
  {
    if |xs| > 0 {
      WithoutKeepsOrder(xs[1..], drop);
      if xs[0] in drop {
        SubsequenceSkip(Without(xs[1..], drop), xs);
      }
    }
  }

  lemma {:induction false} OnlyKeepsOrder<T(!new)>(xs: seq<T>, only: seq<T>)
    ensures SubsequenceOf(Only(xs, only), xs)
    decreases |xs|
  {
    if |xs| > 0 {
      OnlyKeepsOrder(xs[1..], only);
      if xs[0] !in only {
        SubsequenceSkip(Only(xs[1..], only), xs);
      }
    }
  }

  lemma {:induction false} SubsequenceSkip<T>(r: seq<T>, xs: seq<T>)
    requires |xs| > 0 && SubsequenceOf(r, xs[1..])
    ensures SubsequenceOf(r, xs)
    decreases |xs|, 0
  {
    if |r| > 0 && r[0] == xs[0] {
      SubsequenceDropHead(r, xs[1..]);
    }
  }

  lemma {:induction false} SubsequenceDropHead<T>(r: seq<T>, xs: seq<T>)
    requires |r| > 0 && SubsequenceOf(r, xs)
    ensures SubsequenceOf(r[1..], xs)
    decreases |xs|, 1
  {
    if r[0] != xs[0] {
      SubsequenceDropHead(r, xs[1..]);
      SubsequenceSkip(r[1..], xs);
    } else {
      SubsequenceSkip(r[1..], xs);
    }
  }
}
