# Quick Map Tools — a verified model of the mesh logic

Quick Map Tools is a Blender add-on (`qmtools.py`) of small mesh-editing commands
for texturing level geometry. This project models, in Dafny, the part of it that does
not depend on the host editor:

- **Image-match face selection** (`same_image`, `select_faces_with_same_image`).
  It flags every face whose image matches the anchor face's image. In global mode it
  takes every such face. In linked mode it runs repeated passes from the selected faces
  over edge adjacency, with a visited set.
- **Align to active** (`get_snap_target`, `align_to_active`, `find_selected_vertices`, `AlignH`).
  It writes the active vertex's coordinate, the active face's median centre or the
  active edge's midpoint into one axis of every selected vertex.
- **Grid snap** (`align_to_grid_on_axis`, `SnapToMinorGrid`). The new coordinate is
  `round(c * m) / m`, with `m = (subdivisions if minor else 1) / scale`. Python 3
  rounding (nearest integer, ties to even) is written out as `Geometry.Round`.
- **Smart edge align** (`get_short_axes`, `get_edge_midpoint`, `smart_align_selected_edges`).
  It moves both endpoints of each selected edge, in edge order, to the midpoint on
  the two axes other than the longest one.
- **Assigning an image by name** (`assign_image_to_selected_faces_by_name`).
- **The five key-driven modal operators** and the session-wide `stored_images` table.
  Each operator returns running, finished or cancelled for one key event.

Layout:

- `wrappers.dfy`: `Option`.
- `geometry.dfy`: axes, `real` vectors, the median centre, linear interpolation and `Round`.
- `mesh_model.dfy`: vertices, edges, faces, the last selection-history entry
  (`V(i) | E(i) | F(i)`) and mesh well-formedness.
- `image_match.dfy`, `alignment.dfy`: specification functions on value sequences, and
  the lemmas that give them their meaning.
- `editor.dfy`: class `Mesh`, with vertex and polygon arrays changed in place. Each
  method is proved equal to its specification function.
- `modal.dfy`: the per-event decisions, class `Session` (the `stored_images` table),
  and the handlers that call into `Mesh`.

Coordinates, scales and midpoints are exact `real`s. An image is identified by its
name, and a face without an image has key `None`.

Four behaviours of the code that are easy to misread:

- **Linked search seeds.** The linked search is seeded with every selected face, not
  only the anchor (`qmtools.py:518`, `qmtools.py:532`). So a selected face can bring its
  matching neighbourhood into the result even when that face is not reachable from the
  anchor. `ImageMatch.LinkedIsLeast` characterises the result.
- **Unselected anchor.** When the last history entry is a face that is not selected,
  it only supplies the image to match (`qmtools.py:526-528`). The linked search does not
  start from it, so the linked result can leave the anchor out.
- **Empty selection.** An error is reported whenever no face is selected, even with a
  face in the selection history (`qmtools.py:520-524`).
- **`AlignH` target.** `AlignH` recomputes the target for the Y pass
  (`qmtools.py:179-180`). `Alignment.HorizontalUsesOriginalTargets` shows that it is unchanged.

## Model

| member | source | states |
|---|---|---|
| Geometry.Round | qmtools.py:455 | the integer is within one half of the argument, and an exact tie goes to the even neighbour (Python 3 `round`) |
| Geometry.RoundUnique | qmtools.py:455 | any integer within one half of `r`, and even on a tie, is `Round(r)`: rounding is fully determined |
| Geometry.RoundInteger | qmtools.py:455 | rounding an integer gives that integer back |
| Geometry.MedianCenterIsMean | qmtools.py:661 | on each axis, the median centre of a face's vertex positions is their sum divided by their count |
| Geometry.LerpHalf | qmtools.py:669 | `lerp(p, q, 0.5)` is `(p + q) / 2` on every axis |
| Geometry.MedianCenterOnConstantAxis | qmtools.py:661-662 | if all positions share one coordinate on an axis, the median centre has that coordinate there |
| Geometry.MedianCenterDependsOnAxisOnly | qmtools.py:661-662 | the median centre's coordinate on an axis depends only on the positions' coordinates on that axis |
| MeshModel.SelectedVertices | qmtools.py:675-676 | exactly the indices of the selected vertices, in increasing order |
| MeshModel.SelectedFaces | qmtools.py:518 | exactly the indices of the selected faces, in increasing order |
| ImageMatch.SameImage | qmtools.py:555-562 | two absent images match, an absent and a present one do not, and two present images match exactly when their names are equal |
| ImageMatch.LinkedThrough | qmtools.py:539-542 | the faces that the given edges link to are all in range |
| ImageMatch.Neighbours | qmtools.py:539-542 | the faces queued from a face are all face indices |
| ImageMatch.GlobalSelection | qmtools.py:545-547 | a face is in the global result exactly when its image is the key |
| ImageMatch.PassOver | qmtools.py:534-542 | one pass yields face indices only, both flagged and queued; what it adds and queues is stated by `PassAdds`, `PassEnqueues` and `PassQueuesOnlyNeighbours` |
| ImageMatch.Spread | qmtools.py:532-543 | the repeated passes end (the never-flagged set shrinks by `PassGrows`) with face indices only; their result is characterised by the lemmas below |
| ImageMatch.LinkedSelection | qmtools.py:530-543 | the linked search from the selected faces with nothing found yet yields face indices only |
| ImageMatch.PassAdds | qmtools.py:534-538 | one pass keeps every face already found, adds only matching faces from the pending list, and adds every matching pending face |
| ImageMatch.PassEnqueues | qmtools.py:537-542 | every edge neighbour of a face that one pass newly flags is in the next frontier |
| ImageMatch.PassQueuesOnlyNeighbours | qmtools.py:535-542 | every face in the next frontier is an edge neighbour of a matching face that the pass newly flagged, so a face that does not match, or was found before, queues nothing |
| ImageMatch.PassGrows | qmtools.py:532-543 | a pass that queues anything has flagged at least one new face, so the number of never-flagged faces strictly falls and the loop ends within the face count |
| ImageMatch.SpreadMatches | qmtools.py:532-543 | every face the passes flag matches the anchor's image |
| ImageMatch.SpreadWithin | qmtools.py:532-543 | the passes never leave a set that contains what was found, is closed under matching adjacency, and holds the matching pending faces |
| ImageMatch.LinkedWithinGlobal | qmtools.py:531-547 | the linked result is a subset of the global result |
| ImageMatch.LinkedHasMatchingSeeds | qmtools.py:518-538 | every initially selected face whose image matches is in the linked result |
| ImageMatch.LinkedIsClosed | qmtools.py:532-543 | a face that shares an edge with a face in the linked result, and matches, is also in the linked result |
| ImageMatch.LinkedIsLeast | qmtools.py:532-543 | the linked result is contained in every set that holds the matching seeds and is closed under matching adjacency, so it is the least such set |
| ImageMatch.Anchor | qmtools.py:526-528 | the anchor is the last history entry when that is a face, otherwise the first selected face; it is always a face index |
| ImageMatch.ImageSelection | qmtools.py:518-547 | there is no result exactly when no face is selected |
| ImageMatch.ApplySelection | qmtools.py:549-550 | a face in the result becomes selected and every other face is unchanged, so no selection flag is ever cleared |
| ImageMatch.ImageSelectionMeaning | qmtools.py:518-550 | the result holds only faces with the anchor's image; in global mode it is all of them; in linked mode it holds every selected face with that image, so the anchor is in it when the anchor is selected, which it always is when it comes from the fallback |
| ImageMatch.AssignedImage | qmtools.py:590-593 | a selected face's image becomes the named one and an unselected face keeps its image; apart from the image, every face is unchanged |
| ImageMatch.AssignedFacesMatch | qmtools.py:590-593 | after the assignment, the global match for that image is the selected faces plus the faces that already had it |
| Alignment.SnapTarget | qmtools.py:643-673 | a target exists exactly when the selection history is not empty |
| Alignment.SnapTargetMeaning | qmtools.py:654-670 | the target is the active vertex's coordinate, the mean of the active face's vertex coordinates, or the mean of the active edge's two endpoint coordinates |
| Alignment.AlignedOn | qmtools.py:638-639 | the vertex count is kept; what changes is stated by `AlignToActiveEffect` |
| Alignment.AlignedToActive | qmtools.py:621-641 | the vertex count is kept; its effect is stated by `AlignToActiveEffect` |
| Alignment.AlignToActiveEffect | qmtools.py:625-639 | with no selected vertex or an empty history nothing changes; otherwise each selected vertex takes the target on the axis, and its other axes and all unselected vertices are unchanged |
| Alignment.TargetAfterAlign | qmtools.py:654-670 | when the anchor is a vertex, or every vertex of the anchor face or edge is selected, aligning does not move the target |
| Alignment.AlignIdempotent | qmtools.py:621-639 | under the same condition, aligning a second time on the same axis changes nothing |
| Alignment.SnapTargetDependsOnAxisOnly | qmtools.py:643-673 | the target on an axis depends only on the vertices' coordinates on that axis |
| Alignment.HorizontalUsesOriginalTargets | qmtools.py:173-181 | the X pass leaves every y coordinate unchanged, so the Y pass of `AlignH` uses the same Y target as before the X pass |
| Alignment.HorizontalAlignEffect | qmtools.py:173-181 | with a selected vertex and an active element, `AlignH` puts every selected vertex at the original X and Y targets with its own z, and leaves every unselected vertex unchanged |
| Alignment.GridMultiplier | qmtools.py:444-446 | the multiplier is positive |
| Alignment.SnapToGrid | qmtools.py:454-456 | the snapped coordinate times the multiplier is the rounded product `Round(c * m)` |
| Alignment.GridSnapped | qmtools.py:448-457 | the vertex count is kept; what changes is stated by `GridSnapEffect` |
| Alignment.SnappedToMinorGrid | qmtools.py:334-338 | the vertex count is kept; its effect is stated by `MinorGridSnapsEveryAxis` |
| Alignment.SnapToGridOnGrid | qmtools.py:454-456 | `new * m` is an integer within one half of `old * m`, and even on a tie; equivalently, the move is at most `1/(2m)` |
| Alignment.SnapToGridIdempotent | qmtools.py:454-456 | a snapped coordinate does not move when snapped again |
| Alignment.SnapOnGridLine | qmtools.py:454-456 | a coordinate on a grid line (`c * m` an integer) does not move |
| Alignment.DivLe | qmtools.py:456 | proof helper for `SnapToGridOnGrid`: dividing by the positive multiplier keeps the order of two values |
| Alignment.GridSnapExamples | qmtools.py:444-456 | with scale 1 and 4 subdivisions, 0.3 snaps to 0.25, the tie 0.375 to 0.5 and the tie 0.125 to 0 |
| Alignment.GridSnapEffect | qmtools.py:448-456 | each selected vertex is snapped on the axis; its other axes, its flag and every unselected vertex are unchanged |
| Alignment.GridSnapIdempotent | qmtools.py:448-456 | snapping a second time with the same parameters changes nothing |
| Alignment.MinorGridSnapsEveryAxis | qmtools.py:334-338 | after the minor snap on X, Y and Z, every selected vertex is on the minor grid on all three axes |
| Alignment.ShortAxes | qmtools.py:487-498 | two distinct axes in X, Y, Z order, leaving out the first axis that attains the largest absolute difference |
| Alignment.FirstLongestUnique | qmtools.py:492-498 | the first longest axis is unique |
| Alignment.Midpoint | qmtools.py:500-505 | the midpoint is `lerp(p, q, 0.5)`, the point `get_snap_target` uses for an edge, and on each axis the mean of the endpoints |
| Alignment.AlignEdge | qmtools.py:471-482 | the vertex count is kept; what changes is stated by `EdgeStraightened` |
| Alignment.SmartAligned | qmtools.py:468-482 | the vertex count is kept; its effect is stated by `EdgeStraightened` per edge and by `SmartAlignedLeavesOthers` |
| Alignment.EdgeStraightened | qmtools.py:471-482 | after an edge is processed, both endpoints equal the midpoint on the two short axes, keep their long-axis coordinate, and no other vertex changes |
| Alignment.AlignEdgeFixed | qmtools.py:471-482 | an edge already straight on its short axes is left as it is |
| Alignment.ShortAxesKept | qmtools.py:487-498 | when the long-axis difference is non-zero, moving both endpoints to a common point on the short axes, with the long-axis coordinates unchanged, keeps the same short axes |
| Alignment.StraightenedKeepsShortAxes | qmtools.py:471-498 | a processed edge with distinct endpoints and a non-zero long-axis difference keeps the short axes it had |
| Alignment.AlignEdgeIdempotent | qmtools.py:471-482 | processing the same edge twice is the same as once |
| Alignment.SmartAlignedLeavesOthers | qmtools.py:468-482 | a vertex that no selected edge touches is unchanged |
| Editor.Mesh.AlignToActive | qmtools.py:621-641 | the new vertex table is `AlignedToActive` of the old one |
| Editor.Mesh.AlignHorizontal | qmtools.py:173-181 | the vertex table after the X pass and then the Y pass |
| Editor.Mesh.AlignToGridOnAxis | qmtools.py:441-459 | the new vertex table is the old one with the selected vertices snapped on the axis |
| Editor.Mesh.SnapToMinorGrid | qmtools.py:329-338 | the minor snap on X, then Y, then Z |
| Editor.Mesh.SmartAlignSelectedEdges | qmtools.py:461-485 | the new vertex table is the old one with each selected edge straightened in edge order, each reading the positions left by the edges before it |
| Editor.Mesh.LinkedFacesOf | qmtools.py:539-542 | the faces linked through each edge of the face, in order, with repeats |
| Editor.Mesh.LinkedSearch | qmtools.py:532-543 | the passes of the linked search compute `LinkedSelection` from the selected faces |
| Editor.Mesh.GlobalSearch | qmtools.py:545-547 | exactly the faces whose image matches |
| Editor.Mesh.SelectAll | qmtools.py:549-550 | the flags of exactly the found faces are set |
| Editor.Mesh.SelectFacesWithSameImage | qmtools.py:508-553 | reports failure and changes nothing when no face is selected; otherwise it sets the flags of `ImageSelection` and keeps the mesh well formed |
| Editor.Mesh.AssignImageToSelectedFacesByName | qmtools.py:579-597 | succeeds exactly when the name is in the image list; then every selected face gets it, otherwise no face changes |
| Modal.KeyNumber | qmtools.py:49-62 | a digit key stands for the number from 1 to 10 that is its digit modulo 10, so `0` stands for ten |
| Modal.TexKeysAreDigits | qmtools.py:49 | the slot keys, `TexKeys`, are exactly the one-character digit strings |
| Modal.CubemapScalesAreQuarters | qmtools.py:51-62 | the cube scale table, `CubemapScales`, is keyed by the digit keys, and key `d` maps to a quarter of its number, so `0` maps to 2.5 |
| Modal.QuickCubeMapModal | qmtools.py:262-273 | a digit key runs the cube projection with a quarter of the key's number and finishes; otherwise ESC cancels and any other key keeps the operator running |
| Modal.QuickCubeMapExamples | qmtools.py:262-273 | keys 1, 4 and 0 project at 0.25, 1.0 and 2.5 |
| Modal.PickImage | qmtools.py:284-295 | a digit key stores the active image's name in that slot only and finishes; otherwise the table is unchanged, and ESC cancels |
| Modal.AssignImage | qmtools.py:307-322 | a digit key on a filled slot passes that slot's name on and finishes; on an empty slot it cancels; otherwise ESC cancels |
| Modal.AssignAfterPick | qmtools.py:284-311 | assigning from the slot just picked passes on the picked name |
| Modal.PickKeepsOtherSlots | qmtools.py:284-295 | picking into one slot does not change what assigning from any other slot does |
| Modal.GridAxis | qmtools.py:348-362 | the X, Y and Z key types select the X, Y and Z axis |
| Modal.GridSnapStatus | qmtools.py:346-365 | an axis key finishes, ESC cancels, any other key keeps the operator running |
| Modal.Session.constructor | qmtools.py:73 | the table of stored image names starts empty |
| Modal.Session.PickImageModal | qmtools.py:284-295 | the status and the new `stored_images` table are those of `PickImage` |
| Modal.Session.AssignImageModal | qmtools.py:307-322 | the status is that of `AssignImage`; if it names a stored image that exists, exactly the selected faces get it, otherwise no face changes |
| Modal.GridSnapModal | qmtools.py:346-365 | an axis key snaps the selected vertices to the major grid on that axis and finishes; otherwise no vertex changes |
| Modal.GridSnapMinorModal | qmtools.py:376-395 | an axis key snaps the selected vertices to the minor grid on that axis and finishes; otherwise no vertex changes |

## Left out

- `align_view_to_face` and `get_selected_face_normal`: they use quaternion tracking and viewport state of the host.
- Host plumbing is not modelled: object-mode switching (`mode_set`), creating and freeing `bmesh` copies, header text, modal handler registration, menus, `register`/`unregister`, the toggle operators and the `invoke` methods.
- `bpy.ops.uv.cube_project` is a host operator. It is modelled only as the scale it is invoked with (the second half of `QuickCubeMapModal`'s result). The fixed-scale `QuickCubeMap` and `QuickCubeMapHalf` operators are not modelled.
- `get_active_face_image_name` and the `bpy.data.images` registry are host reads. The active face's image name and the list of image names are parameters. The exception that `face.image.name` raises when the active face has no image is not modelled.
- The viewport's grid subdivisions and scale are parameters. `scale > 0` and, on the minor grid, `subdivisions > 0` are required, because the host keeps them positive; the source divides by them.
- Building the `cubemap_modal_help` string: it is interface text only.
- `ytools.py` is not part of this model. It does not parse, and its logic is a vertex-only subset of `get_snap_target`.
- Coordinates are exact reals. IEEE rounding, and Blender storing positions as 32-bit floats, are not modelled.
- The active UV layer is assumed to exist. A mesh without one makes the source fail.
- When the image is missing, `assign_image_to_selected_faces_by_name` returns early and skips the mode restore. This is host plumbing; the model returns `false` and changes nothing.
- Well-formedness does not require edge–face adjacency to be symmetric (a face listed by an edge lists that edge). Nothing in the proofs needs it.
- ImageMatch.PassGrows: the bound of at most |faces| continuing passes is stated as a strict fall in the set of never-flagged faces. The passes are not counted.
