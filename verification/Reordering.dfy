/** Values that differ only in the order of object members, at any depth. */
module Reordering {
  import opened Bytes
  import opened Values

  /** Every position below n occurs exactly once. */
  predicate IsPermutation(p: seq<nat>, n: nat) {
    && |p| == n
    && (forall i | 0 <= i < n :: p[i] < n)
    && (forall i, j | 0 <= i < j < n :: p[i] != p[j])
  }

  ghost predicate Shuffled(a: Value, b: Value) {
    match a
    case ObjectValue(ms) =>
      b.ObjectValue? && |ms| == |b.members| &&
      exists p :: (
        && IsPermutation(p, |ms|)
        && forall i | 0 <= i < |ms| :: ms[i].name == b.members[p[i]].name && Shuffled(ms[i].value, b.members[p[i]].value))
    case ArrayValue(es) =>
      b.ArrayValue? && |es| == |b.elements| && forall i | 0 <= i < |es| :: Shuffled(es[i], b.elements[i])
    case _ => a == b
  }

  /** Elements of a sequence in another order. */
  predicate Permuted<T(==)>(xs: seq<T>, ys: seq<T>, p: seq<nat>) {
    |xs| == |ys| && IsPermutation(p, |xs|) && forall i | 0 <= i < |xs| :: xs[i] == ys[p[i]]
  }

  /** Drop the last element on the left and its image on the right. */
  lemma DropLast<T>(xs: seq<T>, ys: seq<T>, p: seq<nat>) returns (q: seq<nat>)
    requires Permuted(xs, ys, p) && xs != []
    ensures Permuted(xs[..|xs| - 1], Without(ys, p[|xs| - 1]), q)
  {
    var n := |xs| - 1;
    var k := p[n];
    q := seq(n, i requires 0 <= i < n => if p[i] < k then p[i] else p[i] - 1);
    forall i | 0 <= i < n ensures 0 <= (if p[i] < k then p[i] else p[i] - 1) < n {
      assert p[i] != p[n];
    }
    forall i, j | 0 <= i < j < n ensures q[i] != q[j] {
      assert p[i] != p[j] && p[i] != p[n] && p[j] != p[n];
    }
  }
}
