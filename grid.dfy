/**
 * The N×N grid of cell texts and its row-major reading order, the order in
 * which drawtable.js both emits table cells and collects their values.
 */
module Grid {

  /** `g` has exactly `n` rows of exactly `n` entries. */
  predicate IsSquare<T>(g: seq<seq<T>>, n: nat)
  {
    |g| == n && forall i :: 0 <= i < n ==> |g[i]| == n
  }

  /** The rows of `g` concatenated top to bottom: row-major order. */
  function Flatten<T>(g: seq<seq<T>>): seq<T>
  {
    if g == [] then [] else Flatten(g[..|g| - 1]) + g[|g| - 1]
  }

  /** The row-major reading of a square grid, its rows concatenated: n·n entries. */
  function RowMajor<T>(g: seq<seq<T>>, n: nat): (r: seq<T>)
    requires IsSquare(g, n)
    ensures |r| == n * n
  {
    FlattenLength(g, n);
    Flatten(g)
  }

  /** Entry (i, j) of a square grid sits at index i·n + j of its row-major reading. */
  lemma RowMajorEntry<T>(g: seq<seq<T>>, n: nat, i: nat, j: nat)
    requires IsSquare(g, n) && i < n && j < n
    ensures i * n + j < n * n && RowMajor(g, n)[i * n + j] == g[i][j]
  {
    assert RowMajor(g, n) == Flatten(g);
    FlattenEntry(g, n, i, j);
  }

  lemma FlattenSnoc<T>(g: seq<seq<T>>, row: seq<T>)
    ensures Flatten(g + [row]) == Flatten(g) + row
  {
    assert (g + [row])[..|g|] == g;
  }

  lemma {:induction false} FlattenLength<T>(g: seq<seq<T>>, n: nat)
    requires forall i :: 0 <= i < |g| ==> |g[i]| == n
    ensures |Flatten(g)| == |g| * n
  {
    if g != [] {
      var m := |g| - 1;
      FlattenLength(g[..m], n);
      assert (m + 1) * n == m * n + n;
    }
  }

  /** In a grid whose rows all have `n` entries, entry (i, j) sits at index i·n + j of the flattening. */
  lemma {:induction false} FlattenEntry<T>(g: seq<seq<T>>, n: nat, i: nat, j: nat)
    requires forall r :: 0 <= r < |g| ==> |g[r]| == n
    requires i < |g| && j < n
    ensures i * n + j < |Flatten(g)| && Flatten(g)[i * n + j] == g[i][j]
  {
    FlattenLength(g, n);
    var m := |g| - 1;
    var front := g[..m];
    FlattenLength(front, n);
    var at := i * n + j;
    if i < m {
      MulStep(i, m, n, j);
      FlattenEntry(front, n, i, j);
      assert Flatten(g)[at] == Flatten(front)[at];
    } else {
      assert at - m * n == j;
    }
    MulStep(i, |g|, n, j);
  }

  lemma MulStep(i: nat, m: nat, n: nat, j: nat)
    requires i < m && j < n
    ensures i * n + j < m * n
  {
    assert (i + 1) * n <= m * n;
  }

  lemma DivMod(k: nat, n: nat)
    requires 0 < n
    ensures k == (k / n) * n + k % n && 0 <= k % n < n
  {
  }

  lemma DivBound(k: nat, n: nat)
    requires k < n * n
    ensures k / n < n
  {
    DivMod(k, n);
    MulCancel(k / n, n, n);
  }

  lemma MulCancel(a: nat, b: nat, n: nat)
    requires a * n < b * n
    ensures a < b
  {
  }

  /** Index k of the row-major reading of a square grid holds entry (k / n, k % n). */
  lemma RowMajorAt<T>(g: seq<seq<T>>, n: nat, k: nat)
    requires IsSquare(g, n) && k < n * n
    ensures k / n < n && RowMajor(g, n)[k] == g[k / n][k % n]
  {
    DivMod(k, n);
    DivBound(k, n);
    FlattenEntry(g, n, k / n, k % n);
  }
}
