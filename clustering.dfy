/** What the code does around scikit-learn's DBSCAN: the parameters it is given, the
    coordinate pairs it is fed, the labels it hands back, and the summary statistics
    of analyzer/scripts/train_cluster_model.py. The scaler and the clustering itself
    are a parameter of type `Clusterer`. */
module Clustering {
  import opened Tables

  datatype Params = Params(eps: real, minSamples: nat)

  /** `DBSCAN(eps=0.5, min_samples=5)`, refitted after every submitted report. */
  const Online := Params(0.5, 5)
  /** `DBSCAN(eps=0.05, min_samples=10)`, fitted by the offline training script. */
  const Batch := Params(0.05, 10)

  /** One `(latitude, longitude)` pair as it is handed to the scaler. */
  type Point = (Cell, Cell)

  /** `DBSCAN(params).fit_predict(StandardScaler().fit_transform(points))[i]`. */
  type Clusterer = (Params, seq<Point>, nat) -> int

  /** The noise label. */
  const Noise := -1

  /** A fitted model as `joblib` keeps it: its parameters and its training labels. */
  datatype ClusterModel = ClusterModel(params: Params, labels: seq<int>)

  /** One label per point, in point order. */
  function Labels(dbscan: Clusterer, p: Params, pts: seq<Point>): (r: seq<int>)
    ensures |r| == |pts|
    ensures forall i :: 0 <= i < |pts| ==> r[i] == dbscan(p, pts, i)
  {
    seq(|pts|, i requires 0 <= i < |pts| => dbscan(p, pts, i))
  }

  function Train(dbscan: Clusterer, p: Params, pts: seq<Point>): (m: ClusterModel)
    ensures m.params == p && |m.labels| == |pts|
  {
    ClusterModel(p, Labels(dbscan, p, pts))
  }

  /** `df[['latitude', 'longitude']]`, row by row. */
  function Points(t: Table): (r: seq<Point>)
    ensures |r| == |t.rows|
    ensures forall i :: 0 <= i < |t.rows| ==>
              r[i] == (Get(t.columns, t.rows[i], "latitude"), Get(t.columns, t.rows[i], "longitude"))
  {
    seq(|t.rows|, i requires 0 <= i < |t.rows| =>
      (Get(t.columns, t.rows[i], "latitude"), Get(t.columns, t.rows[i], "longitude")))
  }

  predicate IsInfinite(c: Cell) {
    c.Some? && c.value.Num? && c.value.f.Infinite?
  }

  predicate HasInfinite(pts: seq<Point>) {
    exists i :: 0 <= i < |pts| && (IsInfinite(pts[i].0) || IsInfinite(pts[i].1))
  }

  /** `StandardScaler().fit_transform` raises `ValueError` on an empty frame and on a
      frame with an infinite value. */
  predicate ScalerFails(pts: seq<Point>) {
    |pts| == 0 || HasInfinite(pts)
  }

  /** A label sequence as the column of integers `df['cluster'] = ...` stores. */
  function LabelCells(labels: seq<int>): (r: seq<Cell>)
    ensures |r| == |labels|
    ensures forall i :: 0 <= i < |labels| ==> r[i] == Some(Num(Finite(labels[i] as real)))
  {
    seq(|labels|, i requires 0 <= i < |labels| => Some(Num(Finite(labels[i] as real))))
  }

  /** `len(set(labels)) - (1 if -1 in labels else 0)` */
  function NClusters(labels: seq<int>): (n: nat)
    ensures n == |Elements(labels) - {Noise}|
  {
    if Noise in Elements(labels) then
      assert Elements(labels) == (Elements(labels) - {Noise}) + {Noise};
      |Elements(labels)| - 1
    else
      assert Elements(labels) - {Noise} == Elements(labels);
      |Elements(labels)|
  }

  /** `list(labels).count(-1)` */
  function NNoise(labels: seq<int>): (n: nat)
    ensures n <= |labels|
    ensures n == 0 <==> Noise !in labels
  {
    multiset(labels)[Noise]
  }

  /** Each point is either noise or in one cluster, and a cluster has at least one
      point, so the two statistics never add up to more than the number of points. */
  lemma {:induction false} SummaryBound(labels: seq<int>)
    ensures NClusters(labels) + NNoise(labels) <= |labels|
  {
    if labels != [] {
      var init := labels[..|labels| - 1];
      var x := labels[|labels| - 1];
      assert labels == init + [x];
      SummaryBound(init);
      LastLabel(init, x);
    }
  }

  /** One more label adds one noise point or at most one cluster. */
  lemma LastLabel(init: seq<int>, x: int)
    ensures x == Noise ==> NNoise(init + [x]) == NNoise(init) + 1 && NClusters(init + [x]) == NClusters(init)
    ensures x != Noise ==> NNoise(init + [x]) == NNoise(init) && NClusters(init + [x]) <= NClusters(init) + 1
  {
    var labels := init + [x];
    assert multiset(labels) == multiset(init) + multiset{x};
    var e, ei := Elements(labels), Elements(init);
    assert e == ei + {x} by {
      forall y | y in e ensures y in ei + {x} {
        var i :| 0 <= i < |labels| && labels[i] == y;
        if i < |init| { assert init[i] == y; }
      }
      forall y | y in ei ensures y in e {
        var i :| 0 <= i < |init| && init[i] == y;
        assert labels[i] == y;
      }
    }
    if x == Noise {
      assert e - {Noise} == ei - {Noise};
    } else {
      assert e - {Noise} == (ei - {Noise}) + {x};
    }
  }

  /** With no noise at all, every label is a cluster of its own kind. */
  lemma NoNoiseCountsLabels(labels: seq<int>)
    requires NNoise(labels) == 0
    ensures NClusters(labels) == |Elements(labels)|
  {
    assert Elements(labels) - {Noise} == Elements(labels);
  }

  /** An illustration of the two statistics on one input, beside the general facts
      SummaryBound and LastLabel: two clusters and two noise points among five points. */
  lemma SummaryExample()
    ensures NClusters([0, -1, 1, 0, -1]) == 2 && NNoise([0, -1, 1, 0, -1]) == 2
  {
    var l := [0, -1, 1, 0, -1];
    assert Elements(l) == {0, -1, 1};
    assert Elements(l) - {Noise} == {0, 1};
  }
}
