/** A loop whose body either appends some items to a list or raises: the
    steps run in order, and the first error stops the loop. */
module Gathering {
  import opened Tables

  /** The items of all steps, in order, or the first step's error. */
  function Gather<T>(xs: seq<Result<seq<T>>>): (r: Result<seq<T>>)
    decreases |xs|
  {
    if |xs| == 0 then Ok([])
    else
      var prev :- Gather(xs[..|xs| - 1]);
      var last :- xs[|xs| - 1];
      Ok(prev + last)
  }

  /** The number of items of the steps that succeed. */
  function Size<T>(xs: seq<Result<seq<T>>>): nat
    decreases |xs|
  {
    if |xs| == 0 then 0
    else Size(xs[..|xs| - 1]) + (if xs[|xs| - 1].Ok? then |xs[|xs| - 1].value| else 0)
  }

  /** One more step: stop on an earlier error, raise this step's error, or
      append its items. */
  lemma GatherStep<T>(xs: seq<Result<seq<T>>>, k: nat)
    requires k < |xs|
    ensures Gather(xs[..k + 1]) ==
      if Gather(xs[..k]).Err? then Gather(xs[..k])
      else if xs[k].Err? then Err(xs[k].error)
      else Ok(Gather(xs[..k]).value + xs[k].value)
  {
    assert xs[..k + 1][..k] == xs[..k];
    assert xs[..k + 1][k] == xs[k];
  }

  /** A loop that has reached step `k` without error goes on with that
      step's items. */
  lemma GatherNext<T>(xs: seq<Result<seq<T>>>, k: nat, acc: seq<T>)
    requires k < |xs| && Gather(xs[..k]) == Ok(acc) && xs[k].Ok?
    ensures Gather(xs[..k + 1]) == Ok(acc + xs[k].value)
  {
    GatherStep(xs, k);
  }

  /** A loop that has reached step `k` without error and whose step `k`
      raises ends with that error. */
  lemma GatherRaise<T>(xs: seq<Result<seq<T>>>, k: nat)
    requires k < |xs| && Gather(xs[..k]).Ok? && xs[k].Err?
    ensures Gather(xs) == Err(xs[k].error)
  {
    GatherStep(xs, k);
    GatherErrStays(xs, k + 1, |xs|);
    assert xs[..|xs|] == xs;
  }

  /** Once raised, an error is the loop's outcome. */
  lemma {:induction false} GatherErrStays<T>(xs: seq<Result<seq<T>>>, k: nat, n: nat)
    requires k <= n <= |xs| && Gather(xs[..k]).Err?
    ensures Gather(xs[..n]) == Gather(xs[..k])
    decreases n
  {
    if n > k {
      GatherErrStays(xs, k, n - 1);
      GatherStep(xs, n - 1);
    }
  }

  /** The loop succeeds exactly when every step does. */
  lemma {:induction false} GatherOk<T>(xs: seq<Result<seq<T>>>)
    ensures Gather(xs).Ok? <==> forall i :: 0 <= i < |xs| ==> xs[i].Ok?
    decreases |xs|
  {
    if |xs| > 0 {
      var n := |xs| - 1;
      GatherOk(xs[..n]);
      assert forall i :: 0 <= i < n ==> xs[..n][i] == xs[i];
    }
  }

  /** A failing loop fails with the error of its first failing step. */
  lemma {:induction false} GatherFirstError<T>(xs: seq<Result<seq<T>>>) returns (i: nat)
    requires Gather(xs).Err?
    ensures i < |xs| && xs[i].Err? && Gather(xs) == Err(xs[i].error)
    ensures forall j :: 0 <= j < i ==> xs[j].Ok?
    decreases |xs|
  {
    var n := |xs| - 1;
    if Gather(xs[..n]).Err? {
      i := GatherFirstError(xs[..n]);
      assert xs[..n][i] == xs[i];
      assert forall j :: 0 <= j < i ==> xs[..n][j] == xs[j];
    } else {
      GatherOk(xs[..n]);
      assert forall j :: 0 <= j < n ==> xs[..n][j] == xs[j];
      i := n;
    }
  }

  /** A succeeding loop holds as many items as its steps produced. */
  lemma {:induction false} GatherSize<T>(xs: seq<Result<seq<T>>>)
    requires Gather(xs).Ok?
    ensures |Gather(xs).value| == Size(xs)
    decreases |xs|
  {
    if |xs| > 0 {
      GatherSize(xs[..|xs| - 1]);
    }
  }

  /** Item `j` of step `i` sits after the items of the steps before it. */
  lemma {:induction false} GatherAt<T>(xs: seq<Result<seq<T>>>, i: nat, j: nat)
    requires Gather(xs).Ok? && i < |xs|
    ensures xs[i].Ok?
    ensures j < |xs[i].value| ==>
      Size(xs[..i]) + j < |Gather(xs).value| && Gather(xs).value[Size(xs[..i]) + j] == xs[i].value[j]
    decreases |xs|
  {
    GatherOk(xs);
    var n := |xs| - 1;
    GatherSize(xs[..n]);
    if i < n {
      assert xs[..n][i] == xs[i];
      assert xs[..n][..i] == xs[..i];
      GatherAt(xs[..n], i, j);
    } else {
      assert xs[..i] == xs[..n];
    }
  }

  /** Every item of a succeeding loop comes from one of its steps. */
  lemma {:induction false} GatherMember<T>(xs: seq<Result<seq<T>>>, x: T) returns (i: nat)
    requires Gather(xs).Ok? && x in Gather(xs).value
    ensures i < |xs| && xs[i].Ok? && x in xs[i].value
    decreases |xs|
  {
    var n := |xs| - 1;
    if x in xs[n].value {
      i := n;
    } else {
      i := GatherMember(xs[..n], x);
      assert xs[..n][i] == xs[i];
    }
  }

  /** Every item of every step is in a succeeding loop's result. */
  lemma GatherHas<T>(xs: seq<Result<seq<T>>>, i: nat, x: T)
    requires Gather(xs).Ok? && i < |xs|
    ensures xs[i].Ok?
    ensures x in xs[i].value ==> x in Gather(xs).value
  {
    GatherOk(xs);
    if x in xs[i].value {
      var j :| 0 <= j < |xs[i].value| && xs[i].value[j] == x;
      GatherAt(xs, i, j);
    }
  }

  /** A succeeding loop's prefix succeeds and yields a prefix. */
  lemma {:induction false} GatherPrefix<T>(xs: seq<Result<seq<T>>>, k: nat)
    requires Gather(xs).Ok? && k <= |xs|
    ensures Gather(xs[..k]).Ok? && Gather(xs[..k]).value <= Gather(xs).value
    decreases |xs|
  {
    if k < |xs| {
      var n := |xs| - 1;
      assert xs[..n][..k] == xs[..k];
      GatherPrefix(xs[..n], k);
    } else {
      assert xs[..k] == xs;
    }
  }

  /** Step `i`'s items sit, in order, right after the items of the steps
      before it. */
  lemma GatherBlock<T>(xs: seq<Result<seq<T>>>, i: nat)
    requires Gather(xs).Ok? && i < |xs|
    ensures Gather(xs[..i]).Ok? && xs[i].Ok?
    ensures Gather(xs[..i]).value + xs[i].value <= Gather(xs).value
  {
    GatherPrefix(xs, i);
    GatherPrefix(xs, i + 1);
    GatherStep(xs, i);
  }

  /** Steps of `z` items each give `|xs| * z` items. */
  lemma {:induction false} SizeUniform<T>(xs: seq<Result<seq<T>>>, z: nat)
    requires forall i :: 0 <= i < |xs| ==> xs[i].Ok? && |xs[i].value| == z
    ensures Size(xs) == |xs| * z
    decreases |xs|
  {
    if |xs| > 0 {
      var n := |xs| - 1;
      assert forall i :: 0 <= i < n ==> xs[..n][i] == xs[i];
      SizeUniform(xs[..n], z);
      Distribute(n, 1, z);
    }
  }

  /** The sum of a list of counts. */
  function Total(ns: seq<nat>): nat
    decreases |ns|
  {
    if |ns| == 0 then 0 else Total(ns[..|ns| - 1]) + ns[|ns| - 1]
  }

  /** Steps of `ns[i] * z` items each give `Total(ns) * z` items. */
  lemma {:induction false} SizeScaled<T>(xs: seq<Result<seq<T>>>, ns: seq<nat>, z: nat)
    requires |xs| == |ns|
    requires forall i :: 0 <= i < |xs| ==> xs[i].Ok? && |xs[i].value| == ns[i] * z
    ensures Size(xs) == Total(ns) * z
    decreases |xs|
  {
    if |xs| > 0 {
      var n := |xs| - 1;
      assert forall i :: 0 <= i < n ==> xs[..n][i] == xs[i] && ns[..n][i] == ns[i];
      SizeScaled(xs[..n], ns[..n], z);
      Distribute(Total(ns[..n]), ns[n], z);
    }
  }

  /** The position of item `k` of step `f` when every step has `z` items. */
  function Slot(f: nat, k: nat, z: nat): nat {
    f * z + k
  }

  /** With `z` items per step, item `k` of step `f` is at `Slot(f, k, z)`. */
  lemma GatherUniformAt<T>(xs: seq<Result<seq<T>>>, z: nat, f: nat, k: nat)
    requires Gather(xs).Ok? && f < |xs| && k < z
    requires forall i :: 0 <= i < |xs| ==> xs[i].Ok? && |xs[i].value| == z
    ensures Slot(f, k, z) < |Gather(xs).value| && Gather(xs).value[Slot(f, k, z)] == xs[f].value[k]
  {
    assert forall i :: 0 <= i < f ==> xs[..f][i] == xs[i];
    SizeUniform(xs[..f], z);
    SizeUniform(xs, z);
    GatherSize(xs);
    GatherAt(xs, f, k);
    BlockIndex(f, k, |xs|, z);
  }

  /** Item `k` of block `f` of `z`-item blocks lies within `n` blocks. */
  lemma BlockIndex(f: nat, k: nat, n: nat, z: nat)
    requires f < n && k < z
    ensures f * z + k < n * z
  {
    Distribute(f, 1, z);
    MulMono(f + 1, n, z);
  }

  lemma {:induction false} MulMono(a: nat, b: nat, z: nat)
    requires a <= b
    ensures a * z <= b * z
    decreases b - a
  {
    if a < b {
      MulMono(a + 1, b, z);
      Distribute(a, 1, z);
    }
  }

  lemma Distribute(a: nat, b: nat, c: nat)
    ensures a * c + b * c == (a + b) * c
  {
  }
}
