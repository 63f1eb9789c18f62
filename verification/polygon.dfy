/**
 The `Polygon` UI graphic: on every mesh rebuild it decides how many perimeter
 vertices the polygon has, makes the per-vertex radial scale array fit that
 count, lays out a vertex buffer of `n + 1` positions (the last one is the
 centroid at the local origin) and emits a triangle fan pivoted at vertex 0.

 The model follows the C# code as written, exceptions included: a step that
 would throw yields `Err`, and the mesh of a rebuild that threw is empty
 because the sink was cleared before `Init` ran.
 */
module PolygonGraphic {
  import opened Runtime
  import opened Vectors
  import opened Fan

  /** The serialized fields a rebuild reads or writes. */
  datatype Polygon = Polygon(
    autoMode: bool,                      // `isUseAutoVertex`
    autoVerts: int,                      // vertex count in auto mode
    anchors: Option<seq<Option<Vec>>>,   // `customizeVerts`: the array and each slot may be null
    radialScale: seq<real>)              // `vertex2pivot`

  /** The host's regular-polygon geometry for auto mode: the position of
      perimeter vertex `i` of an `n`-gon whose radial scale is `s`. It stands
      for the pivot, width, rotation and trigonometry the widget reads. */
  type Placement = (int, int, real) -> Vec

  /** What the C# types already guarantee: `autoVerts` is a 32-bit `int`
      and no array is longer than `int.MaxValue`. */
  predicate Valid(p: Polygon) {
    && IsInt32(p.autoVerts)
    && (p.anchors.Some? ==> |p.anchors.value| <= MaxInt32)
    && |p.radialScale| <= MaxInt32
  }

  /** `arr.Length`, which throws on a null array. */
  function Length<T>(arr: Option<seq<T>>): (r: Result<int>)
    ensures r.Err? <==> arr.None?
    ensures r.Err? ==> r.error == NullReference
    ensures r.Ok? ==> r.value == |arr.value|
  {
    match arr
    case None => Err(NullReference)
    case Some(a) => Ok(|a|)
  }

  /** The fallback guard `null == customizeVerts && customizeVerts.Length < 3`,
      evaluated left to right with short-circuit `&&`: it is never true, and it
      throws exactly when the array is null. */
  function FallbackGuard(anchors: Option<seq<Option<Vec>>>): (r: Result<bool>)
    ensures r != Ok(true)
    ensures r.Err? <==> anchors.None?
  {
    if anchors.None? then
      match Length(anchors)
      case Err(e) => Err(e)
      case Ok(len) => Ok(len < 3)
    else
      Ok(false)
  }

  /** `GetVerts`: the number of perimeter vertices. Auto mode takes
      `autoVerts` unclamped; custom mode takes the anchor array's length,
      even below 3, because the fallback to 3 can never fire. */
  function VertexCount(p: Polygon): (r: Result<int>)
    ensures p.autoMode ==> r == Ok(p.autoVerts)
    ensures !p.autoMode && p.anchors.None? ==> r == Err(NullReference)
    ensures !p.autoMode && p.anchors.Some? ==> r == Ok(|p.anchors.value|)
    ensures r != Ok(3) || (p.autoMode && p.autoVerts == 3) || (!p.autoMode && |p.anchors.value| == 3)
  {
    if p.autoMode then
      Ok(p.autoVerts)
    else
      match FallbackGuard(p.anchors)
      case Err(e) => Err(e)
      case Ok(tooFew) => if tooFew then Ok(3) else Length(p.anchors)
  }

  /** `InitVertex2Piovt(verts)`: an array of the right length is kept as it
      is; any other is replaced by a newly allocated array of `verts` ones, and a
      negative `verts` makes that allocation throw. */
  function ReconcileScale(scale: seq<real>, verts: int): (r: Result<seq<real>>)
    ensures |scale| == verts ==> r == Ok(scale)
    ensures r.Ok? <==> verts >= 0
    ensures r.Err? ==> r.error == Overflow
    ensures r.Ok? ==> |r.value| == verts
    ensures r.Ok? && |scale| != verts ==> forall i :: 0 <= i < verts ==> r.value[i] == 1.0
  {
    if |scale| == verts then
      Ok(scale)
    else
      match NewArray(verts, 0.0)
      case Err(e) => Err(e)
      case Ok(zeroed) => Ok(seq(|zeroed|, _ => 1.0))
  }

  /** `InitVertex2Piovt` as the source writes it: allocate, then a loop
      that stores `1f` into every slot. */
  method ReconcileScaleByLoop(scale: seq<real>, verts: int) returns (r: Result<seq<real>>)
    ensures r == ReconcileScale(scale, verts)
  {
    if |scale| == verts {
      return Ok(scale);
    }
    var zeroed := NewArray(verts, 0.0);
    if zeroed.Err? {
      return Err(zeroed.error);
    }
    var a := zeroed.value;
    var i := 0;
    while i < verts
      invariant 0 <= i <= verts == |a|
      invariant forall j :: 0 <= j < i ==> a[j] == 1.0
    {
      a := a[i := 1.0];
      i := i + 1;
    }
    assert a == seq(verts, _ => 1.0);
    return Ok(a);
  }

  /** Reconciling twice against the same length is reconciling once. */
  lemma ReconcileIdempotent(scale: seq<real>, verts: int)
    requires ReconcileScale(scale, verts).Ok?
    ensures ReconcileScale(ReconcileScale(scale, verts).value, verts) == ReconcileScale(scale, verts)
  {
  }

  /** The index of the first null anchor, or the length when none is null. */
  function FirstNull<T>(a: seq<Option<T>>): (k: nat)
    ensures k <= |a|
    ensures forall j :: 0 <= j < k ==> a[j].Some?
    ensures k < |a| ==> a[k].None?
  {
    if |a| == 0 || a[0].None? then 0 else 1 + FirstNull(a[1..])
  }

  /** The anchor slots the custom loop sees; a null array has none. */
  function Slots(anchors: Option<seq<Option<Vec>>>): seq<Option<Vec>> {
    if anchors.Some? then anchors.value else []
  }

  /** The custom-mode branch of `InitVertexPosArr(verts)`: a newly allocated, zeroed
      buffer of `verts` positions; for `i` below `bound` (the source loops to
      `verts`) slot `i` gets `anchor[i] * scale[i]`, and the loop stops at the
      first null anchor; finally slot `verts - 1` is zeroed. The loop reads
      the anchor array at every index it reaches, so reaching the array's
      length throws. `scale` has `verts` entries, since the source requires
      `InitVertex2Piovt` to have run first. */
  function CopyAnchors(anchors: Option<seq<Option<Vec>>>, scale: seq<real>, verts: int, bound: int)
    : (r: Result<seq<Vec>>)
    requires |scale| == verts && bound <= verts
    ensures r.Err? <==>
      || (anchors.None? && bound > 0)
      || (FirstNull(Slots(anchors)) == |Slots(anchors)| < bound)
      || verts == 0
    ensures r.Ok? ==> |r.value| == verts && r.value[verts - 1] == Zero
    ensures r.Ok? ==> forall i :: 0 <= i < verts - 1 && i < bound && i < FirstNull(Slots(anchors)) ==>
      r.value[i] == Scale(Slots(anchors)[i].value, scale[i])
    ensures r.Ok? ==> forall i :: 0 <= i < verts && !(i < verts - 1 && i < bound && i < FirstNull(Slots(anchors))) ==>
      r.value[i] == Zero
  {
    if anchors.None? && bound > 0 then
      Err(NullReference)
    else
      var a := Slots(anchors);
      var k := FirstNull(a);
      if k < bound && k == |a| then
        Err(IndexOutOfRange)
      else if verts == 0 then
        Err(IndexOutOfRange)
      else
        Ok(seq(verts, i requires 0 <= i < verts =>
          if i < k && i < bound && i < verts - 1 then Scale(a[i].value, scale[i]) else Zero))
  }

  /** The custom loop as the source writes it, with its `break`. */
  method CopyAnchorsByLoop(anchors: Option<seq<Option<Vec>>>, scale: seq<real>, verts: int, bound: int)
    returns (r: Result<seq<Vec>>)
    requires |scale| == verts && bound <= verts
    ensures r == CopyAnchors(anchors, scale, verts, bound)
  {
    var a := Slots(anchors);
    var buf := seq(verts, _ => Zero);
    var i := 0;
    while i < bound
      invariant 0 <= i && (bound >= 0 ==> i <= bound) && (bound < 0 ==> i == 0)
      invariant anchors.None? ==> i == 0
      invariant i <= FirstNull(a)
      invariant |buf| == verts
      invariant forall j :: 0 <= j < verts ==>
        buf[j] == if j < i then Scale(a[j].value, scale[j]) else Zero
    {
      if anchors.None? {
        return Err(NullReference);
      }
      if i >= |a| {
        return Err(IndexOutOfRange);
      }
      if a[i].None? {
        break;
      }
      buf := buf[i := Scale(a[i].value, scale[i])];
      i := i + 1;
    }
    // The loop ran to its bound or stopped at the first null anchor.
    assert i == FirstNull(a) || i >= bound;
    if verts == 0 {
      return Err(IndexOutOfRange);
    }
    buf := buf[verts - 1 := Zero];
    ghost var k := FirstNull(a);
    assert i == if k < bound then k else if bound < 0 then 0 else bound;
    assert buf == seq(verts, j requires 0 <= j < verts =>
      if j < k && j < bound && j < verts - 1 then Scale(a[j].value, scale[j]) else Zero);
    return Ok(buf);
  }

  /** The auto-mode branch of `InitVertexPosArr(verts)`: every perimeter
      slot is placed by the host geometry from its own scale entry, and the
      last slot is zeroed, which throws when `verts` is 0. */
  function AutoPositions(place: Placement, scale: seq<real>, verts: int): (r: Result<seq<Vec>>)
    requires |scale| == verts
    ensures r.Ok? <==> verts > 0
    ensures r.Err? ==> r.error == IndexOutOfRange
    ensures r.Ok? ==> |r.value| == verts && r.value[verts - 1] == Zero
    ensures r.Ok? ==> forall i :: 0 <= i < verts - 1 ==> r.value[i] == place(verts - 1, i, scale[i])
  {
    if verts == 0 then
      Err(IndexOutOfRange)
    else
      Ok(seq(verts, i requires 0 <= i < verts => if i < verts - 1 then place(verts - 1, i, scale[i]) else Zero))
  }

  /** `q` is `p` after line 73 stored `InitVertex2Piovt(n + 1)` back into the
      scale field; when counting throws or the allocation overflows, the
      field is left as it was. */
  predicate ScaleStored(p: Polygon, q: Polygon)
    requires Valid(p)
  {
    var n := VertexCount(p);
    if n.Ok? && -1 <= n.value < MaxInt32 then
      q == p.(radialScale := ReconcileScale(p.radialScale, n.value + 1).value)
    else
      q == p
  }

  /** The state after `Init`, and the vertex buffer it built or the
      exception that stopped it. */
  datatype Initialized = Initialized(widget: Polygon, positions: Result<seq<Vec>>)

  /** `Init`: count, reconcile the scale array to `n + 1` (stored back into
      the widget), then lay out the `n + 1` positions. Every scale read is in
      bounds because the reconciled array has exactly `n + 1` entries. */
  function Init(p: Polygon, place: Placement): (r: Initialized)
    requires Valid(p)
    ensures Valid(r.widget) && ScaleStored(p, r.widget)
    ensures r.positions.Ok? ==>
      && VertexCount(p).Ok? && 0 <= VertexCount(p).value < MaxInt32
      && |r.positions.value| == VertexCount(p).value + 1 == |r.widget.radialScale|
      && r.positions.value[VertexCount(p).value] == Zero
  {
    match VertexCount(p)
    case Err(e) => Initialized(p, Err(e))
    case Ok(n) =>
      var verts := Inc32(n);
      match ReconcileScale(p.radialScale, verts)
      case Err(e) => Initialized(p, Err(e))
      case Ok(scale) =>
        var q := p.(radialScale := scale);
        var positions :=
          if q.autoMode then AutoPositions(place, scale, verts)
          else CopyAnchors(q.anchors, scale, verts, verts);
        Initialized(q, positions)
  }

  /** What the mesh sink receives: the `AddVert` positions in order and the
      `AddTriangle` index triples in order. */
  datatype Mesh = Mesh(vertices: seq<Vec>, triangles: seq<Tri>)

  /** The widget after a rebuild, and the mesh, or the exception that left
      the sink cleared and empty. */
  datatype Rebuilt = Rebuilt(widget: Polygon, mesh: Result<Mesh>)

  /** Exactly the configurations for which a rebuild produces a mesh: an auto
      count whose `n + 1` neither wraps nor is 0, or a custom array, shorter
      than `int.MaxValue`, that has a null anchor to stop the copy loop. */
  predicate Succeeds(p: Polygon) {
    if p.autoMode then
      0 <= p.autoVerts < MaxInt32
    else
      p.anchors.Some? && |p.anchors.value| < MaxInt32 && FirstNull(p.anchors.value) < |p.anchors.value|
  }

  /** `OnPopulateMesh`: clear the sink, `Init`, emit the `n + 1` positions,
      then the fan triangles. */
  function PopulateMesh(p: Polygon, place: Placement): (r: Rebuilt)
    requires Valid(p)
    ensures Valid(r.widget) && ScaleStored(p, r.widget)
    ensures r.mesh.Ok? <==> Succeeds(p)
    ensures !p.autoMode && p.anchors.None? ==> r.mesh == Err(NullReference)
    ensures r.mesh.Ok? ==>
      var n := VertexCount(p).value;
      var m := r.mesh.value;
      && VertexCount(p).Ok?
      && |m.vertices| == n + 1 == |r.widget.radialScale|
      && m.vertices[n] == Zero
      && |m.triangles| == (if n >= 2 then n - 2 else 0)
      && (forall t :: t in m.triangles ==> Distinct(t) && OnPerimeter(t, n))
      && forall i :: 0 <= i < |m.triangles| ==> m.triangles[i] == Tri(0, i + 1, i + 2)
  {
    var init := Init(p, place);
    match init.positions
    case Err(e) => Rebuilt(init.widget, Err(e))
    case Ok(positions) =>
      var n := VertexCount(init.widget).value;
      Rebuilt(init.widget, Ok(Mesh(positions[..n + 1], FanTriangles(n))))
  }

  /** In custom mode a rebuilt buffer holds `anchor[i] * scale[i]` for every
      anchor before the first null one and the origin from there on, the
      scale being the reconciled array now stored in the widget. */
  lemma CustomVerticesCopied(p: Polygon, place: Placement)
    requires Valid(p) && !p.autoMode && PopulateMesh(p, place).mesh.Ok?
    ensures p.anchors.Some?
    ensures
      var r := PopulateMesh(p, place);
      var a := p.anchors.value;
      var vs := r.mesh.value.vertices;
      && FirstNull(a) < |a| == |vs| - 1
      && (forall i :: 0 <= i < FirstNull(a) ==> vs[i] == Scale(a[i].value, r.widget.radialScale[i]))
      && (forall i :: FirstNull(a) <= i < |vs| ==> vs[i] == Zero)
  {
  }

  /** A scale array of the wrong length comes out of one rebuild with
      `n + 1` entries, all 1.0, whether or not the rebuild then throws. */
  lemma RebuildHealsScale(p: Polygon, place: Placement)
    requires Valid(p) && VertexCount(p).Ok? && -1 <= VertexCount(p).value < MaxInt32
    requires |p.radialScale| != VertexCount(p).value + 1
    ensures
      var scale := PopulateMesh(p, place).widget.radialScale;
      && |scale| == VertexCount(p).value + 1
      && forall i :: 0 <= i < |scale| ==> scale[i] == 1.0
  {
  }

  /** In auto mode every perimeter slot of a rebuilt buffer is the host's
      placement of that vertex with its reconciled scale entry. */
  lemma AutoVerticesPlaced(p: Polygon, place: Placement)
    requires Valid(p) && p.autoMode && PopulateMesh(p, place).mesh.Ok?
    ensures
      var r := PopulateMesh(p, place);
      var vs := r.mesh.value.vertices;
      && |vs| == p.autoVerts + 1
      && forall i :: 0 <= i < p.autoVerts ==> vs[i] == place(p.autoVerts, i, r.widget.radialScale[i])
  {
  }

  /** A second rebuild of the rebuilt widget changes nothing and yields the
      same mesh (or the same exception). */
  lemma RebuildIdempotent(p: Polygon, place: Placement)
    requires Valid(p)
    ensures PopulateMesh(PopulateMesh(p, place).widget, place) == PopulateMesh(p, place)
  {
  }

  /** Custom mode with every anchor set never yields a mesh: the copy loop
      runs on to index `n` and reads past the end of the anchor array. */
  lemma CustomModeNeedsNullAnchor(p: Polygon, place: Placement)
    requires Valid(p) && !p.autoMode && p.anchors.Some? && |p.anchors.value| < MaxInt32
    requires forall j :: 0 <= j < |p.anchors.value| ==> p.anchors.value[j].Some?
    ensures PopulateMesh(p, place).mesh == Err(IndexOutOfRange)
  {
  }

  /** Three set anchors at (1,0), (0,1) and (-1,0) with scales 0.5, 1, 1, 1:
      the rebuild throws instead of emitting the triangle. */
  lemma ThreeAnchorsThrow(place: Placement)
    ensures
      var p := Polygon(false, 3,
        Some([Some(Vec(1.0, 0.0, 0.0)), Some(Vec(0.0, 1.0, 0.0)), Some(Vec(-1.0, 0.0, 0.0))]),
        [0.5, 1.0, 1.0, 1.0]);
      PopulateMesh(p, place).mesh == Err(IndexOutOfRange)
  {
  }

  /** A square in auto mode is emitted as five vertices and the two
      triangles (0, 1, 2) and (0, 2, 3). */
  lemma SquareFan(place: Placement)
    ensures
      var r := PopulateMesh(Polygon(true, 4, None, [1.0, 1.0, 1.0, 1.0, 1.0]), place);
      && r.mesh.Ok?
      && |r.mesh.value.vertices| == 5
      && r.mesh.value.triangles == [Tri(0, 1, 2), Tri(0, 2, 3)]
  {
  }
}
