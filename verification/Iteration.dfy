/** Loops over finitely many configurations: they stop soon or never. */
module Iteration {

  /** One turn of a loop: it stops, or goes on in another configuration. */
  datatype Turn = Stop | Go(config: nat)

  /** Where k turns lead. */
  function Iterate(step: nat -> Turn, x: nat, k: nat): Turn
    decreases k
  {
    if k == 0 then Go(x)
    else match step(x)
      case Stop => Stop
      case Go(y) => Iterate(step, y, k - 1)
  }

  /** There are only the configurations below n. */
  predicate Closed(step: nat -> Turn, n: nat) {
    forall x :: 0 <= x < n && step(x).Go? ==> step(x).config < n
  }

  lemma {:induction false} IterateSplit(step: nat -> Turn, x: nat, j: nat, k: nat)
    ensures Iterate(step, x, j + k) ==
            match Iterate(step, x, j) case Stop => Stop case Go(y) => Iterate(step, y, k)
    decreases j
  {
    if j > 0 && step(x).Go? {
      IterateSplit(step, step(x).config, j - 1, k);
    }
  }

  lemma {:induction false} StaysBelow(step: nat -> Turn, n: nat, x: nat, k: nat)
    requires Closed(step, n) && x < n && Iterate(step, x, k).Go?
    ensures Iterate(step, x, k).config < n
    decreases k
  {
    if k > 0 {
      StaysBelow(step, n, step(x).config, k - 1);
    }
  }

  /** What goes on after j turns went on after fewer. */
  lemma WentOn(step: nat -> Turn, x: nat, i: nat, j: nat)
    requires i <= j && Iterate(step, x, j).Go?
    ensures Iterate(step, x, i).Go?
  {
    IterateSplit(step, x, i, j - i);
  }

  lemma {:induction false} DistinctBelow(s: seq<nat>, n: nat)
    requires forall i :: 0 <= i < |s| ==> s[i] < n
    requires forall i, j :: 0 <= i < j < |s| ==> s[i] != s[j]
    ensures |s| <= n
    decreases n
  {
    if s != [] {
      assert s[0] < n;
      if i :| 0 <= i < |s| && s[i] == n - 1 {
        DistinctBelow(s[..i] + s[i + 1..], n - 1);
      } else {
        DistinctBelow(s, n - 1);
      }
    }
  }

  /** A loop that goes on for n turns comes back to a configuration it was in. */
  lemma Revisits(step: nat -> Turn, n: nat, x: nat) returns (i: nat, j: nat)
    requires Closed(step, n) && x < n && Iterate(step, x, n).Go?
    ensures i < j <= n && Iterate(step, x, i) == Iterate(step, x, j)
    ensures Iterate(step, x, i).Go?
  {
    forall k: nat | k <= n ensures Iterate(step, x, k).Go? && Iterate(step, x, k).config < n {
      WentOn(step, x, k, n);
      StaysBelow(step, n, x, k);
    }
    var s := seq(n + 1, k requires 0 <= k <= n => Iterate(step, x, k).config);
    if forall a, b :: 0 <= a < b < |s| ==> s[a] != s[b] {
      DistinctBelow(s, n);
      assert false;
    }
    var a, b :| 0 <= a < b < |s| && s[a] == s[b];
    i, j := a, b;
  }

  /** A loop that comes back to a configuration never stops. */
  lemma {:induction false} CyclesForEver(step: nat -> Turn, x: nat, i: nat, j: nat, k: nat)
    requires i < j && Iterate(step, x, i) == Iterate(step, x, j) && Iterate(step, x, j).Go?
    ensures Iterate(step, x, k).Go?
    decreases k
  {
    if k <= j {
      WentOn(step, x, k, j);
    } else {
      IterateSplit(step, x, j, k - j);
      IterateSplit(step, x, i, k - j);
      CyclesForEver(step, x, i, j, k - (j - i));
    }
  }

  /** A loop over n configurations stops within n turns or never. */
  lemma StopsSoonOrNever(step: nat -> Turn, n: nat, x: nat, k: nat)
    requires Closed(step, n) && x < n && Iterate(step, x, n).Go?
    ensures Iterate(step, x, k).Go?
  {
    var i, j := Revisits(step, n, x);
    CyclesForEver(step, x, i, j, k);
  }
}
