# Polygon mesh widget: a Dafny model

`Polygon` is a Unity UI `Graphic` that builds a polygon mesh from scratch on every layout rebuild. The mesh is a fan of triangles. It runs three steps:

1. It counts the perimeter vertices `n`. In auto mode this is `autoVerts`; in custom mode it is the length of the `customizeVerts` anchor array.
2. It reconciles the per-vertex radial scale array `vertex2pivot` to length `n + 1`.
3. It fills a vertex buffer of `n + 1` positions and emits the fan. In auto mode the positions form a regular polygon; in custom mode they are the anchors' local positions times their scale. The last slot is the centroid at the origin. The fan triangles are `(0, i+1, i+2)`.

This project models that core as pure functions, over these files:

- `runtime.dfy` (`Runtime`): the C# facts the code depends on. These are null references, the exceptions the code can raise, 32-bit wrap-around of `verts + 1`, and zero-initialised `new T[n]`, which throws on a negative `n`.
- `vectors.dfy` (`Vectors`): positions. A position is a vector with a zero and a multiply-by-scalar operation.
- `fan.dfy` (`Fan`): the triangle loop of `OnPopulateMesh` and its properties.
- `polygon.dfy` (`PolygonGraphic`): `GetVerts`, `InitVertex2Piovt`, `InitVertexPosArr`, `Init` and `OnPopulateMesh`, modelled as written.
- `corrected.dfy` (`Corrected`): the same widget with the custom copy loop bounded as evidently intended (see Findings).

A rebuild maps the widget's fields to two things: the new field values and the mesh, or the exception that stopped it. An exception is raised after `vh.Clear()`, so in that case the sink is left empty. The model keeps the code's exceptions:

- Custom mode with a null anchor array throws `NullReferenceException`. The fallback guard `null == customizeVerts && customizeVerts.Length < 3` reads `.Length` on the null array. On any non-null array the guard is false, so the fallback to 3 can never fire.
- The custom copy loop runs `i < verts` with `verts = n + 1`. It therefore reads `customizeVerts[n]`, one past the end, unless a null anchor makes it `break` first. So custom mode yields a mesh only when some anchor is null. In that case the slots from the first null anchor on keep their zero value.
- In auto mode, `autoVerts == -1` makes `vertexsPosArr[verts - 1]` index `-1`. A smaller count, or `int.MaxValue` (whose `+ 1` wraps), makes `new float[verts]` throw.

A null anchor does not abort the rebuild. The code logs it, `break`s, and emits the partly zero buffer, and the model does the same.

In auto mode, each vertex position comes from `Mathf.Sin`/`Mathf.Cos` over the pivot, the rect width and the rotation. The model takes this as a parameter, `place(n, i, scale)`, supplied by the host.

## Model

| member | source | states |
|---|---|---|
| `PolygonGraphic.Length` | Polygon.cs:90-94 | reading `.Length` throws `NullReferenceException` exactly on a null array, and otherwise gives the array's length |
| `PolygonGraphic.FallbackGuard` | Polygon.cs:90 | the "fewer than 3" guard is never true; it throws exactly when the anchor array is null |
| `PolygonGraphic.VertexCount` | Polygon.cs:81-97 | auto mode returns `autoVerts` unclamped; custom mode returns the anchor array's length, even below 3, or throws on a null array; the result is 3 only when the configured count really is 3 |
| `PolygonGraphic.ReconcileScale` | Polygon.cs:104-115 | an array whose length is already `verts` is kept unchanged; otherwise the result has length `verts` and every entry is 1.0; a negative `verts` throws `OverflowException` |
| `PolygonGraphic.ReconcileScaleByLoop` | Polygon.cs:106-114 | the allocate-then-fill loop computes exactly the reconciled array |
| `PolygonGraphic.ReconcileIdempotent` | Polygon.cs:106-114 | reconciling an already reconciled array to the same length returns it unchanged |
| `PolygonGraphic.FirstNull` | Polygon.cs:143-149 | the index where the copy loop breaks: every anchor before it is set, and the anchor at it (if any) is null |
| `PolygonGraphic.CopyAnchors` | Polygon.cs:141-153 | the custom-mode buffer fails exactly on a null array with a positive bound, on a loop that reaches the array's end before any null anchor, or on `verts == 0`; on success it has `verts` slots, slot `i` is `anchor[i] * scale[i]` when `i` is below the first null anchor, below the bound and below `verts - 1`, and every other slot, the last included, is the origin |
| `PolygonGraphic.CopyAnchorsByLoop` | Polygon.cs:143-152 | the source's loop, with its `break` and the final zeroing, computes exactly `CopyAnchors` |
| `PolygonGraphic.AutoPositions` | Polygon.cs:124-140 | the auto-mode buffer has `verts` slots; slot `i < verts - 1` is the host placement of vertex `i` with scale entry `i`; the last slot is the origin; `verts == 0` throws `IndexOutOfRangeException` |
| `PolygonGraphic.Init` | Polygon.cs:69-76 | only the scale field changes, and it becomes `ReconcileScale(scale, n + 1)` whenever counting succeeds and `n + 1` neither wraps nor goes negative, even if the positions then throw; when positions are built, the count `n` is in `[0, int.MaxValue)`, the stored scale array and the buffer both have `n + 1` entries, and slot `n` is the origin |
| `PolygonGraphic.PopulateMesh` | Polygon.cs:37-67 | a mesh is produced if and only if `Succeeds` holds; on success the mesh has `n + 1` vertices whose last is the origin, and `max(n - 2, 0)` triangles, each with three distinct indices in `[0, n)`; triangle `i` is exactly `(0, i+1, i+2)`; a null anchor array throws `NullReferenceException`; the stored scale array is the reconciled one, exactly as for `Init` |
| `PolygonGraphic.CustomVerticesCopied` | Polygon.cs:143-152 | after a successful custom rebuild, vertex `i` is `anchor[i] * scale[i]` before the first null anchor and the origin from that index through the centroid slot |
| `PolygonGraphic.RebuildHealsScale` | Polygon.cs:73 | a scale array of the wrong length has `n + 1` entries, all 1.0, after one rebuild, even a rebuild that throws afterwards |
| `PolygonGraphic.AutoVerticesPlaced` | Polygon.cs:126-135 | after a successful auto rebuild, each of the `autoVerts` perimeter vertices is the host placement with its reconciled scale |
| `PolygonGraphic.RebuildIdempotent` | Polygon.cs:37-76 | rebuilding the rebuilt widget yields the same widget and the same mesh or exception |
| `PolygonGraphic.CustomModeNeedsNullAnchor` | Polygon.cs:143-150 | custom mode with every anchor set always throws `IndexOutOfRangeException` |
| `PolygonGraphic.ThreeAnchorsThrow` | Polygon.cs:143-150 | three set anchors with scales 0.5, 1, 1, 1 produce no mesh |
| `PolygonGraphic.SquareFan` | Polygon.cs:44-65 | auto mode with 4 vertices emits 5 vertices and the triangles `(0,1,2)`, `(0,2,3)` |
| `Fan.FanTriangles` | Polygon.cs:62-65 | `max(n - 2, 0)` triangles, each with three distinct indices in `[0, n)` |
| `Fan.EmitTriangles` | Polygon.cs:62-65 | the `AddTriangle` loop emits exactly the fan, with triangle `i` equal to `(0, i+1, i+2)` |
| `Fan.CentroidUnused` | Polygon.cs:45-65 | every emitted index is inside the `n + 1`-entry vertex buffer and none is the centroid slot `n` |
| `Fan.SharedEdge` | Polygon.cs:64 | consecutive triangles `i` and `i + 1` share the edge from 0 to `i + 2` |
| `Fan.NoRepeatedTriangle` | Polygon.cs:62-65 | different loop iterations emit different triangles |
| `Fan.BoundaryCovered` | Polygon.cs:61-65 | for `n >= 3`, every polygon edge `v -- (v+1) mod n` is an edge of some emitted triangle |
| `Corrected.Init` | Polygon.cs:69-76 | with the copy loop bounded by `verts - 1`, `Init` stores the same reconciled scale array and keeps the widget's count and buffer-shape guarantees |
| `Corrected.PopulateMesh` | Polygon.cs:37-67 | with the corrected bound, custom mode produces a mesh for every non-null anchor array that fits the 32-bit count; the mesh has the same shape guarantees as the original, triangle `i` is exactly `(0, i+1, i+2)`, and the stored scale array is the reconciled one |
| `Corrected.AgreesWhereWrittenSucceeds` | Polygon.cs:143-152 | wherever the original produces a mesh, the corrected widget produces the same mesh and state |
| `Corrected.StopAtCentroidOnSuccess` | Polygon.cs:143-152 | a copy loop that succeeded with bound `verts` built the same buffer as one bounded by `verts - 1` |
| `Corrected.AnchorsCopied` | Polygon.cs:143-152 | with every anchor set, the corrected buffer holds `anchor[i] * scale[i]` for all `n` anchors and the origin at slot `n` |
| `Corrected.ThreeAnchorsTriangle` | Polygon.cs:143-152 | three anchors at (1,0), (0,1), (-1,0) with scales 0.5, 1, 1, 1 give vertices (0.5,0), (0,1), (-1,0), the origin, and the triangle `(0,1,2)` |
| `Runtime.Wrap32` | Polygon.cs:73-75 | C#'s unchecked 32-bit `int` arithmetic: the result is a 32-bit value congruent to the exact one modulo 2^32, and equal to it when it already fits |
| `Runtime.Inc32` | Polygon.cs:73-75 | `verts + 1` on a 32-bit `int` is the successor, except that `int.MaxValue` wraps to `int.MinValue` |
| `Runtime.NewArray` | Polygon.cs:108 | `new T[len]` gives `len` default values, or throws `OverflowException` exactly when `len` is negative |
| `Vectors.Scale` | Polygon.cs:150 | scaling by 1 leaves a position unchanged and scaling by 0 gives the origin |

## Left out

- Auto-mode trigonometry (`getSin`, `getCos`, `rectTransform.pivot`, `rect.width`, `rotation`): abstracted as the `place` parameter, because it is float geometry read from the host scene graph. Only the facts that each perimeter slot is written from its own scale entry and that the last slot is zeroed are kept.
- `VertexHelper` (`Clear`, `AddVert`, `AddTriangle`), `base.OnPopulateMesh`, the white colour and the zero UV: engine mesh-sink plumbing. The emitted vertices and triangles are returned as sequences instead.
- `Debug.Log` and `Debug.LogError`: side-effecting traces with no effect on the mesh.
- The inspector attributes `[Range(3,360)]`, `[Range(0,1)]`, `[Tooltip]` and `[Space]`: the code never enforces them, so any 32-bit `autoVerts` is accepted.
- The commented-out centroid fan of `n` triangles: it is dead code.
- A null `vertex2pivot` array: Unity's serializer always supplies one, so the model takes the scale array as present.
- The cached `vertexsPosArr` field: every read of it comes after `Init` has reallocated it, so it is returned rather than stored.
- Out-of-memory failures of very large allocations: the model only limits array lengths to `int.MaxValue`.
- Floating-point rounding: positions and scales are real numbers.
- Fan.FanTriangles: computes `verts - 2` without 32-bit wrap-around. The two differ only for `verts` below `int.MinValue + 2`, and `PopulateMesh` only calls it with `0 <= n < int.MaxValue`.

## Findings

| source | as written | input that shows it | evidently intended | confidence | as-written member | corrected member |
|---|---|---|---|---|---|---|
| Polygon.cs:143 | the custom copy loop runs `i < verts` with `verts = n + 1`, so it indexes `customizeVerts[n]` | custom mode, three non-null anchors at (1,0), (0,1), (-1,0), `vertex2pivot = [0.5, 1, 1, 1]`: `IndexOutOfRangeException`, no mesh | `i < verts - 1`: copy the `n` perimeter anchors and leave slot `n` to the centroid zeroing at line 152 | high (not executed) | `PolygonGraphic.CustomModeNeedsNullAnchor` | `Corrected.AnchorsCopied` |
