/** Point lists as `Chart.addLine`, `Chart.addDatasetWithType`,
    `Chart.addDatasets` and `Canvas.addPoints` send them: one flat array
    `x0, y0, x1, y1, ...` plus the number of pairs. Coordinates are doubles
    in the source; here they are an arbitrary element type `C`, since the
    binding never does arithmetic on them. */
module Points {
  import opened Wrappers
  import opened Styles

  /** The interleaved coordinates of `pts`, built the way the source's loop
      fills `flat[2i]` and `flat[2i + 1]`. */
  method FlattenPoints<C>(pts: seq<(C, C)>) returns (flat: seq<C>)
    ensures |flat| == 2 * |pts|
    ensures forall i | 0 <= i < |pts| :: flat[2 * i] == pts[i].0 && flat[2 * i + 1] == pts[i].1
  {
    flat := [];
    var i := 0;
    while i < |pts|
      invariant 0 <= i <= |pts|
      invariant |flat| == 2 * i
      invariant forall j | 0 <= j < i :: flat[2 * j] == pts[j].0 && flat[2 * j + 1] == pts[j].1
    {
      flat := flat + [pts[i].0, pts[i].1];
      i := i + 1;
    }
  }

  /** The same layout as a function, for use inside other definitions. */
  function Flatten<C>(pts: seq<(C, C)>): (flat: seq<C>)
    ensures |flat| == 2 * |pts|
    ensures forall i | 0 <= i < |pts| :: flat[2 * i] == pts[i].0 && flat[2 * i + 1] == pts[i].1
  {
    if |pts| == 0 then []
    else
      var rest := Flatten(pts[1..]);
      var flat := [pts[0].0, pts[0].1] + rest;
      assert forall i | 1 <= i < |pts| :: flat[2 * i] == rest[2 * (i - 1)] && flat[2 * i + 1] == rest[2 * (i - 1) + 1];
      flat
  }

  /** How the native side regroups a flat array into `len_pairs` points. */
  function Unflatten<C>(flat: seq<C>, pairs: nat): (pts: seq<(C, C)>)
    requires |flat| == 2 * pairs
    ensures |pts| == pairs
    ensures forall i | 0 <= i < pairs :: pts[i] == (flat[2 * i], flat[2 * i + 1])
  {
    seq(pairs, i requires 0 <= i < pairs => (flat[2 * i], flat[2 * i + 1]))
  }

  lemma UnflattenFlatten<C>(pts: seq<(C, C)>)
    ensures Unflatten(Flatten(pts), |pts|) == pts
  {
  }

  lemma FlattenUnflatten<C>(flat: seq<C>, pairs: nat)
    requires |flat| == 2 * pairs
    ensures Flatten(Unflatten(flat, pairs)) == flat
  {
    var pts := Unflatten(flat, pairs);
    var back := Flatten(pts);
    forall k | 0 <= k < |flat| ensures back[k] == flat[k] {
      var i := k / 2;
      assert i < pairs;
      assert back[2 * i] == pts[i].0 == flat[2 * i];
      assert back[2 * i + 1] == pts[i].1 == flat[2 * i + 1];
      assert k == 2 * i || k == 2 * i + 1;
    }
  }

  /** One dataset of `Chart.addDatasets` as the caller describes it. */
  datatype Dataset<C> = Dataset(name: Option<string>, points: seq<(C, C)>, style: Option<Style>, kind: int)

  /** The native record built for one dataset. */
  datatype DatasetSpec<C> = DatasetSpec(name: Option<string>, xy: seq<C>, lenPairs: nat, style: FfiStyle, kind: int)

  /** The argument lists of the native point-taking calls. */
  datatype PointsCall<C> =
    | ChartAddLine(name: string, xy: seq<C>, pairs: nat, style: FfiStyle)
    | ChartAddDatasetWithType(optName: Option<string>, xy: seq<C>, pairs: nat, style: FfiStyle, kind: int)
    | ChartAddDatasets(specs: seq<DatasetSpec<C>>, count: nat)
    | CanvasAddPoints(xy: seq<C>, pairs: nat, style: FfiStyle, marker: int)

  /** A flat coordinate array and a pair count the native side can regroup
      into exactly the points the caller gave. */
  ghost predicate Carries<C>(xy: seq<C>, pairs: nat, pts: seq<(C, C)>)
  {
    pairs == |pts| && |xy| == 2 * pairs && Unflatten(xy, pairs) == pts
  }

  /** `Chart.addLine(name, points, style)`. */
  function AddLine<C>(name: string, pts: seq<(C, C)>, style: Option<Style>): (c: PointsCall<C>)
    ensures c.ChartAddLine? && c.name == name && c.style == ToFfiStyle(style)
    ensures Carries(c.xy, c.pairs, pts)
  {
    UnflattenFlatten(pts);
    ChartAddLine(name, Flatten(pts), |pts|, ToFfiStyle(style))
  }

  /** `Chart.addDatasetWithType(name, points, style, kind)`; a missing name is sent as NULL. */
  function AddDatasetWithType<C>(name: Option<string>, pts: seq<(C, C)>, style: Option<Style>, kind: int): (c: PointsCall<C>)
    ensures c.ChartAddDatasetWithType? && c.optName == name && c.kind == kind && c.style == ToFfiStyle(style)
    ensures Carries(c.xy, c.pairs, pts)
  {
    UnflattenFlatten(pts);
    ChartAddDatasetWithType(name, Flatten(pts), |pts|, ToFfiStyle(style), kind)
  }

  function ToSpec<C>(d: Dataset<C>): (s: DatasetSpec<C>)
    ensures s.name == d.name && s.kind == d.kind && s.style == ToFfiStyle(d.style)
    ensures Carries(s.xy, s.lenPairs, d.points)
  {
    UnflattenFlatten(d.points);
    DatasetSpec(d.name, Flatten(d.points), |d.points|, ToFfiStyle(d.style), d.kind)
  }

  /** `Chart.addDatasets(specs)`: one native record per dataset, in order,
      and the dataset count alongside. */
  function AddDatasets<C>(ds: seq<Dataset<C>>): (c: PointsCall<C>)
    ensures c.ChartAddDatasets? && |c.specs| == |ds| && c.count == |ds|
    ensures forall i | 0 <= i < |ds| ::
              c.specs[i].name == ds[i].name && c.specs[i].kind == ds[i].kind
              && c.specs[i].style == ToFfiStyle(ds[i].style)
              && Carries(c.specs[i].xy, c.specs[i].lenPairs, ds[i].points)
  {
    ChartAddDatasets(seq(|ds|, i requires 0 <= i < |ds| => ToSpec(ds[i])), |ds|)
  }

  /** `Canvas.addPoints(points, style, marker)`. */
  function AddPoints<C>(pts: seq<(C, C)>, style: Option<Style>, marker: int): (c: PointsCall<C>)
    ensures c.CanvasAddPoints? && c.marker == marker && c.style == ToFfiStyle(style)
    ensures Carries(c.xy, c.pairs, pts)
  {
    UnflattenFlatten(pts);
    CanvasAddPoints(Flatten(pts), |pts|, ToFfiStyle(style), marker)
  }
}
