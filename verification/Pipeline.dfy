/** The whole route from points to pairs. */
module Pipeline {
  // Enumerate, build the boundary matrices, reduce each dimension.  What the other modules prove about
  // pivots applies to what this route returns.

  import opened Wrappers
  import opened Z2
  import opened Pairing
  import opened Simplices
  import opened ChainComplex
  import Boundary
  import ColumnReduction

  /** The compressed columns of a matrix given by row, column and value lists. */
  function Compressed(entries: seq<Boundary.Entry>, rows: nat, cols: nat): ColumnReduction.Csc {
    ColumnReduction.Csc(seq(cols, j requires 0 <= j < cols =>
      map r: nat | r < rows && Boundary.EntrySum(entries, r, j) != 0 :: Boundary.EntrySum(entries, r, j)))
  }

  /** Its nonzero pattern is the mod 2 boundary matrix. */
  lemma CompressedColumns(entries: seq<Boundary.Entry>, lower: seq<Simplex>, higher: seq<Simplex>)
    requires Boundary.IsBoundaryMatrix(entries, lower, higher)
    ensures Compressed(entries, |lower|, |higher|).Columns() == Boundary.FaceMatrix(lower, higher)
  {
    var mat := Compressed(entries, |lower|, |higher|);
    forall j: nat | j < |higher| ensures mat.Nonzero(j) == Boundary.FaceRows(lower, higher[j]) {
      forall r: nat | r < |lower|
        ensures Boundary.EntrySum(entries, r, j) == Boundary.Incidence(lower[r], higher[j])
      {
      }
    }
  }

  /** Reduce one dimension from its row, column and value lists. */
  method ReduceLevel(entries: seq<Boundary.Entry>, lower: seq<Simplex>, higher: seq<Simplex>,
      colValues: seq<real>, rowValues: seq<real>)
    returns (pairs: seq<ColumnReduction.Pair>)
    requires Boundary.IsBoundaryMatrix(entries, lower, higher)
    ensures pairs == PairsBetween(Boundary.FaceMatrix(lower, higher), colValues, rowValues)
  {
    CompressedColumns(entries, lower, higher);
    pairs := ColumnReduction.ReduceCsc(
      Compressed(entries, |lower|, |higher|), colValues, Some(rowValues));
  }

  /** The pairs of a matrix with the values of its columns and rows. */
  ghost function PairsBetween(d: seq<Col>, colValues: seq<real>, rowValues: seq<real>)
      : (pairs: seq<ColumnReduction.Pair>)
  {
    ColumnReduction.PairsOf(Pivots(d), |d|, colValues, Some(rowValues))
  }

  /** pairs[d] has the pairs born in dimension d that die in dimension d + 1. */
  ghost predicate ComplexPairs(mats: seq<seq<Col>>, values: seq<seq<real>>, pairs: seq<seq<ColumnReduction.Pair>>) {
    && |pairs| < |mats| && |pairs| < |values|
    && forall d {:trigger pairs[d]} :: 0 <= d < |pairs| ==>
      pairs[d] == PairsBetween(mats[d + 1], values[d + 1], values[d])
  }

  /** Reduce every dimension, given its boundary matrices. */
  method ReduceAll(levels: seq<seq<Simplex>>, matrices: seq<seq<Boundary.Entry>>, values: seq<seq<real>>)
    returns (pairs: seq<seq<ColumnReduction.Pair>>)
    requires |levels| > 0 && |values| == |levels| && |matrices| == |levels| - 1
    requires forall d {:trigger matrices[d]} :: 0 <= d < |matrices| ==>
              Boundary.IsBoundaryMatrix(matrices[d], levels[d], levels[d + 1])
    ensures |pairs| == |levels| - 1 && ComplexPairs(Matrices(levels), values, pairs)
  {
    pairs := [];
    hide Matrices, PairsBetween, Boundary.IsBoundaryMatrix, Boundary.FaceMatrix;
    for d := 0 to |levels| - 1
      invariant |pairs| == d && ComplexPairs(Matrices(levels), values, pairs)
    {
      MatrixAt(levels, d + 1, 0);
      var found := ReduceLevel(matrices[d], levels[d], levels[d + 1], values[d + 1], values[d]);
      pairs := pairs + [found];
    }
  }

  /** Build and reduce every dimension of an enumerated complex. */
  method ReduceComplex(ghost c: Cloud, levels: seq<seq<Simplex>>, maxDim: int, values: seq<seq<real>>)
    returns (pairs: seq<seq<ColumnReduction.Pair>>)
    requires IsComplexUpTo(c, levels, maxDim) && |values| == |levels|
    ensures |pairs| == |levels| - 1 && ComplexPairs(Matrices(levels), values, pairs)
  {
    NoImproper(c, levels, maxDim);
    var built := Boundary.BoundaryMatrices(levels, maxDim);
    var matrices := built.value;
    forall d {:trigger matrices[d]} | 0 <= d < |matrices|
      ensures Boundary.IsBoundaryMatrix(matrices[d], levels[d], levels[d + 1])
    {
      LevelIsProper(c, d, levels[d]);
      LevelIsProper(c, d + 1, levels[d + 1]);
      Boundary.IncreasingMatrix(matrices[d], levels[d], levels[d + 1]);
    }
    pairs := ReduceAll(levels, matrices, values);
  }

  lemma NoImproper(c: Cloud, levels: seq<seq<Simplex>>, maxDim: int)
    requires IsComplexUpTo(c, levels, maxDim)
    ensures forall d: nat :: d < |levels| ==> !Boundary.HasImproper(levels, d)
  {
    forall d: nat | d < |levels| ensures !Boundary.HasImproper(levels, d) {
      LevelIsProper(c, d, levels[d]);
    }
  }

  // ---------- what the lists of pairs account for ----------

  /** The pivots of every dimension. */
  ghost function AllPivots(mats: seq<seq<Col>>): (pivots: seq<seq<int>>)
    ensures AllReduced(mats, pivots)
  {
    seq(|mats|, d requires 0 <= d < |mats| => Pivots(mats[d]))
  }

  /** One pair for each column that reduces to something. */
  lemma {:induction false} PairCount(pivots: seq<int>, n: nat, colValues: seq<real>, rowValues: Option<seq<real>>)
    requires n <= |pivots|
    ensures |ColumnReduction.PairsOf(pivots, n, colValues, rowValues)| == |Killers(pivots[..n])|
  {
    hide Killers;
    if n > 0 {
      PairCount(pivots, n - 1, colValues, rowValues);
      assert pivots[..n] == pivots[..n - 1] + [pivots[n - 1]];
      KillersSnoc(pivots[..n - 1], pivots[n - 1]);
    } else {
      NoKillers();
      assert pivots[..0] == [];
    }
  }

  /** Pairs whose death simplex has dimension d. */
  ghost function Deaths(pairs: seq<seq<ColumnReduction.Pair>>, d: nat): nat {
    if 0 < d <= |pairs| then |pairs[d - 1]| else 0
  }

  lemma DeathsAreRanks(mats: seq<seq<Col>>, values: seq<seq<real>>, pairs: seq<seq<ColumnReduction.Pair>>, d: nat)
    requires IsComplex(mats) && |pairs| == |mats| - 1 && ComplexPairs(mats, values, pairs)
    ensures Deaths(pairs, d) == Rank(AllPivots(mats), d)
  {
    if d == 0 {
      VerticesKillNothing(mats, AllPivots(mats));
    } else if d < |mats| {
      var pivots := Pivots(mats[d]);
      PairCount(pivots, |pivots|, values[d], Some(values[d - 1]));
      assert pivots[..|pivots|] == pivots;
    }
  }

  /** Conservation: each simplex is the death of one pair, the birth of one pair, or essential. */
  lemma PairsAccountForSimplices(c: Cloud, levels: seq<seq<Simplex>>, maxDim: int, values: seq<seq<real>>,
      pairs: seq<seq<ColumnReduction.Pair>>, d: nat)
    requires IsComplexUpTo(c, levels, maxDim) && d < |levels|
    requires |pairs| == |levels| - 1 && ComplexPairs(Matrices(levels), values, pairs)
    ensures |levels[d]| == Deaths(pairs, d) + Deaths(pairs, d + 1) + |Essential(AllPivots(Matrices(levels)), d)|
  {
    var mats := Matrices(levels);
    VietorisRipsIsComplex(c, levels, maxDim);
    DeathsAreRanks(mats, values, pairs, d);
    DeathsAreRanks(mats, values, pairs, d + 1);
    BettiCount(mats, AllPivots(mats), d);
    if d > 0 { MatrixAt(levels, d, 0); }
  }
}
