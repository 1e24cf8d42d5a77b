/** The cross product of two sequences listed in row-major order: every
    element of `xs`, and for each of them every element of `ys`. */
module Cross {

  /** `f(x, y, i, j)` for the first `j` elements `y` of `ys`, with `x` at position `i` of the outer list. */
  function Inner<X, Y, R>(x: X, i: nat, ys: seq<Y>, f: (X, Y, nat, nat) -> R, j: nat): (rs: seq<R>)
    requires j <= |ys|
    ensures |rs| == j
  {
    if j == 0 then [] else Inner(x, i, ys, f, j - 1) + [f(x, ys[j - 1], i, j - 1)]
  }

  /** The entries for the first `k` elements of `xs`, one block of `|ys|` entries each. */
  function Outer<X, Y, R>(xs: seq<X>, ys: seq<Y>, f: (X, Y, nat, nat) -> R, k: nat): seq<R>
    requires k <= |xs|
  {
    if k == 0 then [] else Outer(xs, ys, f, k - 1) + Inner(xs[k - 1], k - 1, ys, f, |ys|)
  }

  /** The whole cross product. */
  function Product<X, Y, R>(xs: seq<X>, ys: seq<Y>, f: (X, Y, nat, nat) -> R): seq<R>
  {
    Outer(xs, ys, f, |xs|)
  }

  /** Extending the inner block by one position appends that position's entry. */
  lemma InnerStep<X, Y, R>(x: X, i: nat, ys: seq<Y>, f: (X, Y, nat, nat) -> R, j: nat, r: R)
    requires j < |ys| && r == f(x, ys[j], i, j)
    ensures Inner(x, i, ys, f, j + 1) == Inner(x, i, ys, f, j) + [r]
  {
  }

  /** Appending block `k` to a log that ends with the first `k` blocks gives the first `k + 1`. */
  lemma OuterExtend<X, Y, R>(prefix: seq<R>, xs: seq<X>, ys: seq<Y>, f: (X, Y, nat, nat) -> R, k: nat, log: seq<R>)
    requires k < |xs| && log == prefix + Outer(xs, ys, f, k)
    ensures log + Inner(xs[k], k, ys, f, |ys|) == prefix + Outer(xs, ys, f, k + 1)
  {
  }

  lemma MulSucc(a: nat, n: nat)
    ensures a * n + n == (a + 1) * n
  {
  }

  /** The first `k` blocks hold `k * |ys|` entries. */
  lemma {:induction false} OuterLength<X, Y, R>(xs: seq<X>, ys: seq<Y>, f: (X, Y, nat, nat) -> R, k: nat)
    requires k <= |xs|
    ensures |Outer(xs, ys, f, k)| == k * |ys|
  {
    if k > 0 {
      var n := |ys|;
      OuterLength(xs, ys, f, k - 1);
      assert |Outer(xs, ys, f, k)| == (k - 1) * n + n;
      MulSucc(k - 1, n);
    }
  }

  lemma {:induction false} InnerAt<X, Y, R>(x: X, i: nat, ys: seq<Y>, f: (X, Y, nat, nat) -> R, j: nat, m: nat)
    requires m < j <= |ys|
    ensures Inner(x, i, ys, f, j)[m] == f(x, ys[m], i, m)
  {
    if m < j - 1 {
      InnerAt(x, i, ys, f, j - 1, m);
    }
  }

  lemma {:induction false} OuterAt<X, Y, R>(xs: seq<X>, ys: seq<Y>, f: (X, Y, nat, nat) -> R, k: nat, i: nat, j: nat)
    requires i < k <= |xs| && j < |ys|
    ensures |Outer(xs, ys, f, i)| + j < |Outer(xs, ys, f, k)|
    ensures Outer(xs, ys, f, k)[|Outer(xs, ys, f, i)| + j] == f(xs[i], ys[j], i, j)
  {
    var base := Outer(xs, ys, f, k - 1);
    var last := Inner(xs[k - 1], k - 1, ys, f, |ys|);
    var idx := |Outer(xs, ys, f, i)| + j;
    if i == k - 1 {
      InnerAt(xs[i], i, ys, f, |ys|, j);
      assert (base + last)[idx] == last[j];
    } else {
      OuterAt(xs, ys, f, k - 1, i, j);
      assert (base + last)[idx] == base[idx];
    }
  }

  /** The product has `|xs| * |ys|` entries, and entry `i * |ys| + j` is `f(xs[i], ys[j], i, j)`. */
  lemma ProductAt<X, Y, R>(xs: seq<X>, ys: seq<Y>, f: (X, Y, nat, nat) -> R, i: nat, j: nat)
    requires i < |xs| && j < |ys|
    ensures |Product(xs, ys, f)| == |xs| * |ys|
    ensures i * |ys| + j < |xs| * |ys|
    ensures Product(xs, ys, f)[i * |ys| + j] == f(xs[i], ys[j], i, j)
  {
    OuterLength(xs, ys, f, |xs|);
    OuterLength(xs, ys, f, i);
    OuterAt(xs, ys, f, |xs|, i, j);
  }
}
