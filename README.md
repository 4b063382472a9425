# Radius marker: ring geometry and visibility

A radius marker is a Unity component that shows movement or attack range on a tile map.
It owns one group of marker nodes per ring around a tile. Group `i` holds the tiles at grid
distance `i + 1` under the map's layout: hex, 4-neighbour square (Manhattan) or 8-neighbour
square (Chebyshev). The component shows or hides groups by radius and moves itself to an anchor
position. Editor tools build the groups once and rebuild them when the configuration changes.

The model has three modules:

- `RingGeometry` (`geometry.dfy`) defines lattice offsets, layouts and the three distance
  metrics. It also defines what it means for a sequence of points to be exactly one ring and
  what a set of flags makes visible. Lemmas prove that the visible nodes form a filled disk or a
  single ring, and that a marker of `R` rings holds `Spokes * R * (R + 1) / 2` nodes.
- `RingGenerator` (`generator.dfy`) holds the per-layout generators. Each one builds a ring with
  the same loops, in the same order, as the engine code. Each ring method is proved to return
  exactly the tiles at its distance, each once, with `6k`, `4k` or `8k` points for `k = i + 1`.
- `RadiusMarkerController` (`controller.dfy`) holds the component as a class. It has a `bool`
  array with one active flag per group, the groups as lattice offsets, the groups parented under
  the marker, the configuration fields and the anchor. It also holds the static tools
  `UpdateMarker`, `CreateMarker` and `CreateMarkerNodes`. A ghost field records the layout the
  groups were last built for, so the public `markerLayout` field may be edited between builds
  without affecting hiding, showing or the next rebuild.

Offsets are integer lattice points. Square layouts count `markerSpacing`. The hex layout uses
doubled-width coordinates: `x` counts `offs` (half of `xOffs`) and `z` counts `yOffs`. The hex
neighbours are therefore `(±2, 0)` and `(±1, ±1)`, every hex point has `x + z` even, and hex
distance is `|z| + max(0, (|x| - |z|) / 2)`.

Three behaviours come straight from the code and are easy to assume otherwise:
- With a null prefab, `UpdateMarker` still destroys all children of the marker and keeps its old
  `markerNodes`. It does not produce zero rings.
- The outline clamp of `ShowOutline` overruns the group array (see Findings).
- Newly built groups start active, because new engine objects are active.

## Model

| member | source | states |
|---|---|---|
| `RingGeometry.ShownIffFlagged` | CLIENT/unity_proj/GAME2017/Assets/Plugins/TileBasedMapandNav/Scripts/TMN/RadiusMarker.cs:22-24 | group i is ring distance i+1, so a point is visible iff it is a lattice tile at distance d with 1 <= d <= group count and flag d-1 on |
| `RingGeometry.ShownDisk` | CLIENT/unity_proj/GAME2017/Assets/Plugins/TileBasedMapandNav/Scripts/TMN/RadiusMarker.cs:55-62 | with flags 0..m-1 on, the visible nodes are exactly the tiles at distance 1..min(m, group count) (the filled range) |
| `RingGeometry.ShownOutline` | CLIENT/unity_proj/GAME2017/Assets/Plugins/TileBasedMapandNav/Scripts/TMN/RadiusMarker.cs:80-81 | with only flag t on, the visible nodes are exactly the ring at distance t+1, and nothing if t is not a group index |
| `RingGeometry.TotalNodeCount` | CLIENT/unity_proj/GAME2017/Assets/Plugins/TileBasedMapandNav/Scripts/TMN/RadiusMarker.cs:125-130 | derived from the ring contracts, for whichever layout CreateMarkerNodes dispatches to: R well-formed groups hold Spokes*R*(R+1)/2 nodes in all: 3R(R+1) hexes, 2R(R+1) or 4R(R+1) squares |
| `RingGenerator.HexRingParts` | CLIENT/unity_proj/GAME2017/Assets/Plugins/TileBasedMapandNav/Scripts/TMN/RadiusMarker.cs:149-203 | the right arc, left arc and top and bottom edge interiors together are exactly the hex ring at distance k |
| `RingGenerator.CreateHexRing` | CLIENT/unity_proj/GAME2017/Assets/Plugins/TileBasedMapandNav/Scripts/TMN/RadiusMarker.cs:149-203 | ring i holds 6(i+1) distinct points; each has x+z even and hex distance i+1, and every such point is in it |
| `RingGenerator.CreateHexNodes` | CLIENT/unity_proj/GAME2017/Assets/Plugins/TileBasedMapandNav/Scripts/TMN/RadiusMarker.cs:132-205 | builds markerRadius groups, group i being the full hex ring at distance i+1 |
| `RingGenerator.Square4RingParts` | CLIENT/unity_proj/GAME2017/Assets/Plugins/TileBasedMapandNav/Scripts/TMN/RadiusMarker.cs:220-267 | the upper and lower diagonals plus the right and left extremes are exactly the Manhattan diamond of radius k |
| `RingGenerator.CreateSquare4Ring` | CLIENT/unity_proj/GAME2017/Assets/Plugins/TileBasedMapandNav/Scripts/TMN/RadiusMarker.cs:220-267 | ring i holds 4(i+1) distinct points, exactly those with \|x\|+\|z\| = i+1 |
| `RingGenerator.CreateSquare4Nodes` | CLIENT/unity_proj/GAME2017/Assets/Plugins/TileBasedMapandNav/Scripts/TMN/RadiusMarker.cs:207-269 | builds markerRadius groups, group i being the full diamond at Manhattan distance i+1 |
| `RingGenerator.Square8RingParts` | CLIENT/unity_proj/GAME2017/Assets/Plugins/TileBasedMapandNav/Scripts/TMN/RadiusMarker.cs:285-355 | the full top and bottom rows (\|x\| <= k) and the side columns without corners (\|z\| <= k-1) are exactly the Chebyshev square of radius k |
| `RingGenerator.CreateSquare8Ring` | CLIENT/unity_proj/GAME2017/Assets/Plugins/TileBasedMapandNav/Scripts/TMN/RadiusMarker.cs:285-355 | ring i holds 8(i+1) distinct points, exactly those with max(\|x\|,\|z\|) = i+1 |
| `RingGenerator.CreateSquare8Nodes` | CLIENT/unity_proj/GAME2017/Assets/Plugins/TileBasedMapandNav/Scripts/TMN/RadiusMarker.cs:271-357 | builds markerRadius groups, group i being the full square outline at Chebyshev distance i+1 |
| `RadiusMarkerController.RadiusMarker.constructor` | CLIENT/unity_proj/GAME2017/Assets/Plugins/TileBasedMapandNav/Scripts/TMN/RadiusMarker.cs:16-24 | a new component has the inspector defaults (Hex, size 1, spacing 1, radius 1, no prefab) and no groups |
| `RadiusMarkerController.RadiusMarker.HideAll` | CLIENT/unity_proj/GAME2017/Assets/Plugins/TileBasedMapandNav/Scripts/TMN/RadiusMarker.cs:36-39 | every flag is off and no node is visible; groups, configuration and anchor are untouched; the result does not depend on the old flags, so a second call changes nothing |
| `RadiusMarkerController.RadiusMarker.ShowAll` | CLIENT/unity_proj/GAME2017/Assets/Plugins/TileBasedMapandNav/Scripts/TMN/RadiusMarker.cs:42-45 | every flag is on and the visible nodes are every tile at distance 1..group count; nothing else changes, so it is idempotent |
| `RadiusMarkerController.RadiusMarker.Show` | CLIENT/unity_proj/GAME2017/Assets/Plugins/TileBasedMapandNav/Scripts/TMN/RadiusMarker.cs:48-66 | for every radius, flag i is on iff i < min(radius, n); the anchor moves to pos iff radius >= 1; the visible nodes are the disk of radius min(radius, n) |
| `RadiusMarkerController.RadiusMarker.ShowOutline` | CLIENT/unity_proj/GAME2017/Assets/Plugins/TileBasedMapandNav/Scripts/TMN/RadiusMarker.cs:69-85 | as written: radius <= 0 hides all; 1 <= radius <= n shows only group radius-1 and moves the anchor; radius > n hides all, keeps the anchor and fails indexing group n |
| `RadiusMarkerController.RadiusMarker.ShowOutlineClamped` | CLIENT/unity_proj/GAME2017/Assets/Plugins/TileBasedMapandNav/Scripts/TMN/RadiusMarker.cs:75-81 | corrected clamp: for radius >= 1 and n >= 1 only group min(radius, n)-1 is on, the ring at that distance is visible, and the anchor moves; only n = 0 still fails |
| `RadiusMarkerController.CreateMarkerNodes` | CLIENT/unity_proj/GAME2017/Assets/Plugins/TileBasedMapandNav/Scripts/TMN/RadiusMarker.cs:125-130 | dispatches on the layout; the marker gets markerRadius well-formed groups for that layout, all active, appended to its children, and records that layout as the one built |
| `RadiusMarkerController.UpdateMarker` | CLIENT/unity_proj/GAME2017/Assets/Plugins/TileBasedMapandNav/Scripts/TMN/RadiusMarker.cs:91-108 | always destroys the children; without a prefab keeps markerNodes, flags and configuration; with one stores the configuration, clamps the radius to at least 1 and the children become exactly the new groups |
| `RadiusMarkerController.CreateMarker` | CLIENT/unity_proj/GAME2017/Assets/Plugins/TileBasedMapandNav/Scripts/TMN/RadiusMarker.cs:110-123 | no prefab creates nothing; otherwise a fresh marker at the origin with the configuration, radius max(1, r) and exactly that many well-formed active groups |
| `RadiusMarkerController.OutlineOverrunExample` | CLIENT/unity_proj/GAME2017/Assets/Plugins/TileBasedMapandNav/Scripts/TMN/RadiusMarker.cs:75-81 | a one-ring marker given ShowOutline(pos, 2) fails on index 1 with its ring hidden |
| `RadiusMarkerController.OutlineClampedExample` | CLIENT/unity_proj/GAME2017/Assets/Plugins/TileBasedMapandNav/Scripts/TMN/RadiusMarker.cs:75-81 | the same call on the corrected clamp succeeds and shows the ring |
| `RadiusMarkerController.LayoutEditExample` | CLIENT/unity_proj/GAME2017/Assets/Plugins/TileBasedMapandNav/Scripts/TMN/RadiusMarker.cs:17 | after the public layout field of a built hex marker is edited, HideAll still hides its groups and UpdateMarker rebuilds them as Manhattan rings |

## Left out

- Scene-graph calls (`Instantiate`, `SetActiveRecursively`, `transform.parent`, `DestroyImmediate`, `AddComponent`, `new GameObject`) are engine code that is not part of this model. Only their effect is kept: which groups exist, which are parented under the marker, and which are active.
- Float arithmetic is not modelled: `Mathf.Sqrt(3f)`, the `0.75f` and `0.5f` factors, the multiplication by `markerSpacing`, the `0.1f` vertical bias of each group and `localScale = markerSize`. The lattice offsets are the positions divided by the spacing unit of each axis.
- `markerSize` and `markerSpacing` are stored as reals and never used in computation.
- Group names such as `"0" + i` and the object name `"Marker"` are cosmetic.
- The `Start` lifecycle hook, which only calls `HideAll`, is not modelled as a lifecycle. The anchor is an opaque stored `Vec3`.
- `MapNav.TilesLayout` is defined in a file that is not part of this model. It is a three-case datatype here. The implicit "any other layout does nothing" branch of `CreateMarkerNodes` has no counterpart.
- A `markerNodes` that is null (never serialized) would make every controller method throw. The model always holds an array, empty for a new component.
- After a null-prefab `UpdateMarker`, the entries of `markerNodes` refer to destroyed objects. The engine would reject later calls on them, but the model keeps the groups usable.
- Recursive activation of a group's child nodes is modelled as one flag per group.

## Findings

| source | as written | input that shows it | evidently intended | confidence | as-written member | corrected member |
|---|---|---|---|---|---|---|
| CLIENT/unity_proj/GAME2017/Assets/Plugins/TileBasedMapandNav/Scripts/TMN/RadiusMarker.cs:75-81 | after `radius--`, the index is clamped with `radius > markerNodes.Length` to `markerNodes.Length`, then `markerNodes[radius]` is read | a marker with one group and `ShowOutline(pos, 2)`: the index becomes 1 and the access is out of range after all groups were hidden; every radius above the group count fails the same way | clamp to the last group (`radius >= Length` gives `Length - 1`), so a radius past the end shows the outermost ring | high (not executed) | `RadiusMarkerController.RadiusMarker.ShowOutline` | `RadiusMarkerController.RadiusMarker.ShowOutlineClamped` |
