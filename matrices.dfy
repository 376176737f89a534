/** The two matrices built in this file rather than by the chemistry library:
    the inverse distance matrix (lines 147-152) and the "Laplacian" (lines
    143-146) of src/descriptor_generation/generate_test_data.py. */
module Matrices {
  import opened Encoding

  /** A double as far as `np.reciprocal` of a finite value needs it. */
  datatype Float = Finite(value: real) | PosInf | NegInf | NaN

  /** `np.reciprocal` of a finite double: dividing by zero gives infinity. */
  function Reciprocal(x: real): Float
  {
    if x == 0.0 then PosInf else Finite(1.0 / x)
  }

  /** The entry after `a[~np.isfinite(a)] = 0`. */
  function Masked(f: Float): real
  {
    if f.Finite? then f.value else 0.0
  }

  /** The inverse distance matrix: every entry's reciprocal, masked. */
  function InverseOf(d: seq<seq<real>>): seq<seq<real>>
  {
    seq(|d|, i requires 0 <= i < |d| => seq(|d[i]|, j requires 0 <= j < |d[i]| => Masked(Reciprocal(d[i][j]))))
  }

  /** The in-place mask `a[~np.isfinite(a)] = 0`: non-finite entries become
      0, finite ones stay. */
  method MaskNonFinite(a: array2<Float>)
    modifies a
    ensures forall i, j :: 0 <= i < a.Length0 && 0 <= j < a.Length1 ==>
      a[i, j] == Finite(Masked(old(a[i, j])))
  {
    for i := 0 to a.Length0
      invariant forall p, q :: 0 <= p < i && 0 <= q < a.Length1 ==> a[p, q] == Finite(Masked(old(a[p, q])))
      invariant forall p, q :: i <= p < a.Length0 && 0 <= q < a.Length1 ==> a[p, q] == old(a[p, q])
    {
      for j := 0 to a.Length1
        invariant forall p, q :: 0 <= p < i && 0 <= q < a.Length1 ==> a[p, q] == Finite(Masked(old(a[p, q])))
        invariant forall q :: 0 <= q < j ==> a[i, q] == Finite(Masked(old(a[i, q])))
        invariant forall p, q :: (i < p < a.Length0 || (p == i && j <= q)) && 0 <= q < a.Length1 ==> a[p, q] == old(a[p, q])
      {
        if !a[i, j].Finite? {
          a[i, j] := Finite(0.0);
        }
      }
    }
  }

  /** Lines 148 and 151: `np.reciprocal` of an `n` by `n` distance matrix,
      then the mask. An entry is `1 / d` where the distance `d` is not zero and
      0 where the reciprocal is infinite. */
  method InverseDistance(d: seq<seq<real>>, n: nat) returns (r: seq<seq<real>>)
    requires Square(d, n)
    ensures Square(r, n)
    ensures forall i, j :: 0 <= i < n && 0 <= j < n && d[i][j] != 0.0 ==> r[i][j] == 1.0 / d[i][j]
    ensures forall i, j :: 0 <= i < n && 0 <= j < n && d[i][j] == 0.0 ==> r[i][j] == 0.0
    ensures r == InverseOf(d)
  {
    var a := new Float[n, n]((i, j) requires 0 <= i < n && 0 <= j < n => Reciprocal(d[i][j]));
    MaskNonFinite(a);
    r := [];
    for i := 0 to n
      invariant |r| == i
      invariant forall p :: 0 <= p < i ==> r[p] == InverseOf(d)[p]
    {
      var row := [];
      for j := 0 to n
        invariant row == InverseOf(d)[i][..j]
      {
        row := row + [a[i, j].value];
      }
      r := r + [row];
    }
  }

  /** Zero distances, on the diagonal and between coincident atoms, give 0;
      every other inverse distance is non-zero and multiplies its distance to
      1; a symmetric distance matrix gives a symmetric inverse. */
  lemma InverseOfEntries(d: seq<seq<real>>, n: nat)
    requires Square(d, n)
    ensures Square(InverseOf(d), n)
    ensures forall i, j :: 0 <= i < n && 0 <= j < n ==>
      (InverseOf(d)[i][j] == 0.0 <==> d[i][j] == 0.0)
    ensures forall i, j :: 0 <= i < n && 0 <= j < n && d[i][j] != 0.0 ==> InverseOf(d)[i][j] * d[i][j] == 1.0
    ensures (forall i, j :: 0 <= i < n && 0 <= j < n ==> d[i][j] == d[j][i]) ==>
      forall i, j :: 0 <= i < n && 0 <= j < n ==> InverseOf(d)[i][j] == InverseOf(d)[j][i]
  {
  }

  /** `np.diag(valences)`, entry `(i, j)`. */
  function Diag(valence: seq<int>, i: nat, j: nat): real
    requires i < |valence|
  {
    if i == j then valence[i] as real else 0.0
  }

  /** Line 146: `np.diag(valences) - adj_matrix` for a molecule whose atoms
      have the explicit valences `valence`. */
  function LaplacianOf(valence: seq<int>, adj: seq<seq<real>>): (l: seq<seq<real>>)
    requires Square(adj, |valence|)
    ensures Square(l, |valence|)
  {
    var n := |valence|;
    seq(n, i requires 0 <= i < n => seq(n, j requires 0 <= j < n => Diag(valence, i, j) - adj[i][j]))
  }

  function Sum(s: seq<real>): real
  {
    if s == [] then 0.0 else Sum(s[..|s| - 1]) + s[|s| - 1]
  }

  /** The Laplacian has the explicit valence minus the adjacency on its
      diagonal (the valence itself when atoms are not adjacent to themselves)
      and the negated adjacency off it; it is symmetric when the adjacency is. */
  lemma LaplacianEntries(valence: seq<int>, adj: seq<seq<real>>)
    requires Square(adj, |valence|)
    ensures forall i :: 0 <= i < |valence| ==> LaplacianOf(valence, adj)[i][i] == valence[i] as real - adj[i][i]
    ensures forall i, j :: 0 <= i < |valence| && 0 <= j < |valence| && i != j ==>
      LaplacianOf(valence, adj)[i][j] == -adj[i][j]
    ensures (forall i, j :: 0 <= i < |valence| && 0 <= j < |valence| ==> adj[i][j] == adj[j][i]) ==>
      forall i, j :: 0 <= i < |valence| && 0 <= j < |valence| ==>
        LaplacianOf(valence, adj)[i][j] == LaplacianOf(valence, adj)[j][i]
  {
  }

  /** Summing `seq(k, j => Diag(valence, i, j) - row[j])`. */
  lemma {:induction false} DiagMinusRowSum(valence: seq<int>, i: nat, row: seq<real>, k: nat)
    requires i < |valence| && k <= |row|
    ensures Sum(seq(k, j requires 0 <= j < k => Diag(valence, i, j) - row[j]))
      == (if i < k then valence[i] as real else 0.0) - Sum(row[..k])
  {
    if k > 0 {
      var s := seq(k, j requires 0 <= j < k => Diag(valence, i, j) - row[j]);
      var s' := seq(k - 1, j requires 0 <= j < k - 1 => Diag(valence, i, j) - row[j]);
      assert s[..k - 1] == s';
      assert row[..k][..k - 1] == row[..k - 1];
      DiagMinusRowSum(valence, i, row, k - 1);
    }
  }

  /** Each row of the Laplacian sums to the atom's explicit valence minus the
      sum of its adjacency row; for a 0/1 adjacency with a zero diagonal that
      sum is the atom's number of neighbours. */
  lemma LaplacianRowSum(valence: seq<int>, adj: seq<seq<real>>, i: nat)
    requires Square(adj, |valence|) && i < |valence|
    ensures Sum(LaplacianOf(valence, adj)[i]) == valence[i] as real - Sum(adj[i])
  {
    var n := |valence|;
    assert LaplacianOf(valence, adj)[i] == seq(n, j requires 0 <= j < n => Diag(valence, i, j) - adj[i][j]);
    DiagMinusRowSum(valence, i, adj[i], n);
    assert adj[i][..n] == adj[i];
  }
}
