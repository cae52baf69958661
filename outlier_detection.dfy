/**
 * Robust Mahalanobis outlier detection (mahalanobis_outlier_detection.py).
 *
 * The covariance estimate, the seeded synthetic sample, the Minimum
 * Covariance Determinant fit, the matrix inverse, the quadratic form and the
 * chi-squared quantile are numerics the model takes as given; what it
 * computes is the alignment of the distances with the rows and the loop that
 * flags every row whose distance exceeds the critical value.
 */
module OutlierDetection {
  import opened Common
  import opened Seqs

  /** One row restricted to the analysed columns. */
  type Point = seq<real>

  /** The numerical library calls the detector makes, as functions of their arguments. */
  datatype RobustEstimator = RobustEstimator(
    // whether the robust covariance fitted for these rows can be inverted
    invertible: seq<Point> -> bool,
    // (x - robust mean) inv(robust covariance) (x - robust mean)^T, the fit made from the rows
    squaredDistance: (seq<Point>, Point) -> real,
    // chi2.ppf(q, degrees of freedom)
    chi2Quantile: (real, nat) -> real,
    sqrt: real -> real)

  /** The detector's result: flagged row indices and the distance of every row. */
  datatype Detection = Detection(outliers: seq<nat>, md: seq<real>)

  /** The inverse of a singular covariance matrix was asked for. */
  datatype DetectionError = SingularMatrix

  /** The indices, in increasing order, of the distances strictly above `c`. */
  function IndicesAbove(md: seq<real>, c: real): (r: seq<nat>)
    ensures |r| <= |md|
    ensures forall i: int :: i in r <==> 0 <= i < |md| && md[i] > c
    ensures forall j, k :: 0 <= j < k < |r| ==> r[j] < r[k]
  {
    if md == [] then []
    else
      var n := |md| - 1;
      var rest := IndicesAbove(md[..n], c);
      assert forall j :: 0 <= j < |rest| ==> rest[j] < n by {
        forall j | 0 <= j < |rest|
          ensures rest[j] < n
        {
          assert rest[j] in rest;
        }
      }
      if md[n] > c then rest + [n] else rest
  }

  /** The Mahalanobis distance of every row, index-aligned with the rows. */
  function Distances(points: seq<Point>, est: RobustEstimator): (md: seq<real>)
    ensures |md| == |points|
    ensures forall i :: 0 <= i < |points| ==> md[i] == est.sqrt(est.squaredDistance(points, points[i]))
  {
    seq(|points|, i requires 0 <= i < |points| => est.sqrt(est.squaredDistance(points, points[i])))
  }

  /** The critical distance: the square root of the (1 - alpha) chi-squared quantile with one degree of freedom per column. */
  function CriticalValue(alpha: real, columns: nat, est: RobustEstimator): real
  {
    est.sqrt(est.chi2Quantile(1.0 - alpha, columns))
  }

  /** The flagging loop: walks the distances in order and appends every index whose distance exceeds `c`. */
  method FlagOutliers(md: seq<real>, c: real) returns (outlier: seq<nat>)
    ensures outlier == IndicesAbove(md, c)
  {
    outlier := [];
    for index := 0 to |md|
      invariant outlier == IndicesAbove(md[..index], c)
    {
      assert md[..index + 1][..index] == md[..index];
      if md[index] > c {
        outlier := outlier + [index];
      }
    }
    assert md[..|md|] == md;
  }

  /**
   * detect_outliers_mahalanobis: fails when the robust covariance is
   * singular; otherwise returns one distance per row and the rows whose
   * distance exceeds the critical value.
   */
  method DetectOutliersMahalanobis(points: seq<Point>, columns: nat, alpha: real, est: RobustEstimator)
    returns (r: Result<Detection, DetectionError>)
    requires forall p :: p in points ==> |p| == columns
    ensures r.Failure? <==> !est.invertible(points)
    ensures r.Success? ==> r.value.md == Distances(points, est)
    ensures r.Success? ==> r.value.outliers == IndicesAbove(r.value.md, CriticalValue(alpha, columns, est))
  {
    if !est.invertible(points) {
      return Failure(SingularMatrix);
    }
    var md := Distances(points, est);
    var c := CriticalValue(alpha, columns, est);
    var outlier := FlagOutliers(md, c);
    return Success(Detection(outlier, md));
  }

  /** Raising the critical value can only drop flagged rows: the list for the larger value is a subsequence of the other. */
  lemma {:induction false} IndicesAboveAntitone(md: seq<real>, c1: real, c2: real)
    requires c1 <= c2
    ensures IsSubsequence(IndicesAbove(md, c2), IndicesAbove(md, c1))
  {
    if md != [] {
      var n := |md| - 1;
      IndicesAboveAntitone(md[..n], c1, c2);
      var r1, r2 := IndicesAbove(md, c1), IndicesAbove(md, c2);
      var p1, p2 := IndicesAbove(md[..n], c1), IndicesAbove(md[..n], c2);
      if md[n] > c2 {
        assert r1 == p1 + [n] && r2 == p2 + [n];
        assert r1[..|r1| - 1] == p1 && r2[..|r2| - 1] == p2;
      } else if md[n] > c1 {
        assert r1 == p1 + [n] && r2 == p2;
        assert r1[..|r1| - 1] == p1;
        assert IsSubsequence(r2, r1[..|r1| - 1]);
      } else {
        assert r1 == p1 && r2 == p2;
      }
    }
  }
}
