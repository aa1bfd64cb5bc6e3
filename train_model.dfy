/** analyzer/scripts/train_cluster_model.py: drop the rows without both
    coordinates, reset the row index, fit DBSCAN with the batch parameters, attach
    the labels as `cluster_label`, and count clusters and noise points. */
module TrainModel {
  import opened Tables
  import opened Clustering
  import opened Frames

  function Range(n: nat): (r: seq<int>)
    ensures |r| == n && forall i :: 0 <= i < n ==> r[i] == i
  {
    seq(n, i => i)
  }

  /** The boolean mask of a row test, as pandas builds it before indexing. */
  function Mask(cols: seq<string>, rows: seq<Line>, test: Test): (m: seq<bool>)
    ensures |m| == |rows| && forall i :: 0 <= i < |rows| ==> m[i] == Holds(cols, test, rows[i])
  {
    seq(|rows|, i requires 0 <= i < |rows| => Holds(cols, test, rows[i]))
  }

  /** The positions from `k` on where a mask is true: the index labels `dropna`
      leaves on a frame read with the default index 0..n-1. */
  function Positions(m: seq<bool>, k: nat): (ks: seq<nat>)
    requires k <= |m|
    decreases |m| - k
    ensures forall j :: 0 <= j < |ks| ==> k <= ks[j] < |m|
  {
    if k == |m| then []
    else if m[k] then [k] + Positions(m, k + 1)
    else Positions(m, k + 1)
  }

  /** They are exactly the true positions, in increasing order. */
  lemma {:induction false} PositionsExact(m: seq<bool>, k: nat)
    requires k <= |m|
    decreases |m| - k
    ensures forall j :: 0 <= j < |Positions(m, k)| ==> m[Positions(m, k)[j]]
    ensures forall i, j :: 0 <= i < j < |Positions(m, k)| ==> Positions(m, k)[i] < Positions(m, k)[j]
    ensures forall x :: k <= x < |m| && m[x] ==> x in Positions(m, k)
  {
    if k < |m| {
      var rest := Positions(m, k + 1);
      PositionsExact(m, k + 1);
      if m[k] {
        var ks := [k] + rest;
        assert Positions(m, k) == ks;
        forall j | 0 <= j < |ks| ensures m[ks[j]] {
          if j == 0 {
            assert ks[0] == k;
          } else {
            assert ks[j] == rest[j - 1] && m[rest[j - 1]];
          }
        }
        forall i, j | 0 <= i < j < |ks| ensures ks[i] < ks[j] {
          assert ks[j] == rest[j - 1];
          if i > 0 { assert ks[i] == rest[i - 1]; }
        }
        forall x | k <= x < |m| && m[x] ensures x in ks {
          if x > k { assert x in rest; }
        }
      } else {
        assert Positions(m, k) == rest;
        forall x | k <= x < |m| && m[x] ensures x in rest {
          assert x != k;
        }
      }
    }
  }

  /** Filtering keeps the rows at the true positions of the mask. */
  lemma {:induction false} FilterAtPositions(cols: seq<string>, rows: seq<Line>, m: seq<bool>, test: Test, k: nat)
    requires k <= |rows| == |m|
    requires forall i :: k <= i < |rows| ==> m[i] == Holds(cols, test, rows[i])
    decreases |rows| - k
    ensures var ks := Positions(m, k);
            var f := Filter(cols, rows[k..], test);
            |ks| == |f| && forall j :: 0 <= j < |f| ==> f[j] == rows[ks[j]]
  {
    if k < |rows| {
      FilterAtPositions(cols, rows, m, test, k + 1);
      var rest := Positions(m, k + 1);
      var g := Filter(cols, rows[k + 1..], test);
      assert rows[k..][0] == rows[k] && rows[k..][1..] == rows[k + 1..];
      FilterCons(cols, rows[k..], test);
      if m[k] {
        assert Positions(m, k) == [k] + rest;
        var f := Filter(cols, rows[k..], test);
        assert f == [rows[k]] + g;
        forall j | 0 <= j < |f| ensures f[j] == rows[Positions(m, k)[j]] {
          if j > 0 { assert f[j] == g[j - 1]; assert Positions(m, k)[j] == rest[j - 1]; }
        }
      } else {
        assert Positions(m, k) == rest;
        assert Filter(cols, rows[k..], test) == g;
      }
    } else {
      assert rows[k..] == [];
    }
  }

  /** `dropna(subset=['latitude', 'longitude'])` keeps the rows at the passing positions,
      in order, and each of them has both coordinates. */
  lemma KeptRows(t: Table)
    ensures var test := Present(["latitude", "longitude"]);
            var kept := Positions(Mask(t.columns, t.rows, test), 0);
            var dropped := Where(t, test);
            && |dropped.rows| == |kept|
            && (forall j :: 0 <= j < |kept| ==> dropped.rows[j] == t.rows[kept[j]])
            && (forall j :: 0 <= j < |kept| ==>
                  !IsNA(Get(t.columns, dropped.rows[j], "latitude")) && !IsNA(Get(t.columns, dropped.rows[j], "longitude")))
  {
    var test := Present(["latitude", "longitude"]);
    var dropped := Where(t, test);
    FilterAtPositions(t.columns, t.rows, Mask(t.columns, t.rows, test), test, 0);
    assert t.rows[0..] == t.rows;
    forall j | 0 <= j < |dropped.rows|
      ensures !IsNA(Get(t.columns, dropped.rows[j], "latitude")) && !IsNA(Get(t.columns, dropped.rows[j], "longitude"))
    {
      FilterPasses(t.columns, t.rows, test, j);
      assert "latitude" in ["latitude", "longitude"] && "longitude" in ["latitude", "longitude"];
    }
  }

  /** The model the script saves, the table it writes, and the two numbers it
      reports. */
  datatype Trained = Trained(table: Table, index: seq<int>, model: ClusterModel, clusters: nat, noise: nat)

  /** The script on the table it reads; None is the `KeyError` that `dropna` raises when
      a coordinate column does not exist, or the scaler's `ValueError` when no row keeps
      both coordinates or a kept coordinate is infinite. */
  method TrainClusterModel(t: Table, dbscan: Clusterer) returns (r: Option<Trained>)
    ensures r.Some? <==> && "latitude" in t.columns && "longitude" in t.columns
                         && !ScalerFails(Points(Where(t, Present(["latitude", "longitude"]))))
    ensures r.Some? ==>
              var out := r.value;
              var kept := Positions(Mask(t.columns, t.rows, Present(["latitude", "longitude"])), 0);
              var n := |kept|;
              // the drop keeps the rows with both coordinates, in order
              && |out.table.rows| == n == Count(t.columns, t.rows, Present(["latitude", "longitude"]))
              && (forall j :: 0 <= j < n ==>
                    !IsNA(Get(out.table.columns, out.table.rows[j], "latitude"))
                    && !IsNA(Get(out.table.columns, out.table.rows[j], "longitude")))
              && (forall j, c :: 0 <= j < n && c != "cluster_label" ==>
                    Get(out.table.columns, out.table.rows[j], c) == Get(t.columns, t.rows[kept[j]], c))
              // after the reset the index is 0..n-1
              && out.index == Range(n)
              // one label per row, by position
              && out.model.params == Batch && |out.model.labels| == n
              && (forall j :: 0 <= j < n ==>
                    Get(out.table.columns, out.table.rows[j], "cluster_label") == Some(Num(Finite(out.model.labels[j] as real))))
              && out.model == Train(dbscan, Batch, Points(Where(t, Present(["latitude", "longitude"]))))
              // the statistics
              && out.clusters == NClusters(out.model.labels) && out.noise == NNoise(out.model.labels)
              && out.clusters + out.noise <= n
  {
    if "latitude" !in t.columns || "longitude" !in t.columns {
      return None;
    }
    var test := Present(["latitude", "longitude"]);
    var dropped := Where(t, test);
    KeptRows(t);
    var index;
    index := Range(|dropped.rows|);
    var coords := Points(dropped);
    if ScalerFails(coords) {
      return None;
    }
    var model := Train(dbscan, Batch, coords);
    var df := new Frame(dropped);
    df.Assign("cluster_label", LabelCells(model.labels));
    var clusters := NClusters(model.labels);
    var noise := NNoise(model.labels);
    SummaryBound(model.labels);
    return Some(Trained(df.View(), index, model, clusters, noise));
  }
}
