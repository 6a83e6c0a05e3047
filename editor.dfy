/**
 * The edited mesh and the commands that change it in place. Vertex and polygon
 * tables are arrays updated element by element; the edges (topology) and the last
 * entry of the selection history are fixed for the duration of a command.
 */
module Editor {
  import opened Wrappers
  import opened Geometry
  import opened MeshModel
  import opened ImageMatch
  import opened Alignment

  lemma WellFormedEndpoints(nv: nat, es: seq<Edge>, fs: seq<Face>, h: Option<Elem>)
    requires WellFormed(nv, es, fs, h)
    ensures EndpointsIn(es, nv)
  {
    forall k | 0 <= k < |es| ensures es[k].v1 < nv && es[k].v2 < nv {
      assert EdgeOk(es[k], nv, |fs|);
    }
  }

  class Mesh {
    const verts: array<Vertex>
    const faces: array<Face>
    const edges: seq<Edge>
    const history: Option<Elem>

    ghost predicate Valid()
      reads faces
    {
      WellFormed(verts.Length, edges, faces[..], history)
    }

    constructor (vs: seq<Vertex>, es: seq<Edge>, fs: seq<Face>, h: Option<Elem>)
      requires WellFormed(|vs|, es, fs, h)
      ensures Valid() && fresh(verts) && fresh(faces)
      ensures verts[..] == vs && faces[..] == fs && edges == es && history == h
    {
      verts := new Vertex[|vs|](i requires 0 <= i < |vs| => vs[i]);
      faces := new Face[|fs|](i requires 0 <= i < |fs| => fs[i]);
      edges := es;
      history := h;
    }

    // ------------------------------------------------------------ align to active

    /** `align_to_active`: write the active element's coordinate on `axis` into every selected vertex. */
    method AlignToActive(axis: Axis)
      requires Valid()
      modifies verts
      ensures verts[..] == AlignedToActive(old(verts[..]), edges, faces[..], history, axis)
    {
      var sel := SelectedVertices(verts[..]);
      if |sel| == 0 {
        return;
      }
      var target := SnapTarget(verts[..], edges, faces[..], history, axis);
      if target.None? {
        return;
      }
      var t := target.value;
      ghost var before := verts[..];
      for j := 0 to |sel|
        invariant forall i :: 0 <= i < verts.Length ==>
          verts[i] == if i in sel[..j] then before[i].(co := With(before[i].co, axis, t)) else before[i]
      {
        var i := sel[j];
        assert i in sel && i !in sel[..j];
        verts[i] := verts[i].(co := With(verts[i].co, axis, t));
      }
      assert sel[..|sel|] == sel;
      assert verts[..] == AlignedOn(before, axis, t);
    }

    /** `AlignH`: align on X, then on Y. */
    method AlignHorizontal()
      requires Valid()
      modifies verts
      ensures verts[..] == AlignedToActive(AlignedToActive(old(verts[..]), edges, faces[..], history, X), edges, faces[..], history, Y)
    {
      AlignToActive(X);
      AlignToActive(Y);
    }

    // ------------------------------------------------------------ grid snap

    /** `align_to_grid_on_axis`: snap the selected vertices to the major or minor grid on one axis. */
    method AlignToGridOnAxis(axis: Axis, onMinor: bool, subdivisions: nat, scale: real)
      requires scale > 0.0 && (onMinor ==> subdivisions > 0)
      modifies verts
      ensures verts[..] == GridSnapped(old(verts[..]), axis, GridMultiplier(subdivisions, scale, onMinor))
    {
      var multiplier := GridMultiplier(subdivisions, scale, onMinor);
      var sel := SelectedVertices(verts[..]);
      ghost var before := verts[..];
      for j := 0 to |sel|
        invariant forall i :: 0 <= i < verts.Length ==>
          verts[i] == if i in sel[..j]
                      then before[i].(co := With(before[i].co, axis, SnapToGrid(Get(before[i].co, axis), multiplier)))
                      else before[i]
      {
        var v := sel[j];
        assert v in sel && v !in sel[..j];
        // round(coordinate * multiplier) / multiplier
        verts[v] := verts[v].(co := With(verts[v].co, axis, SnapToGrid(Get(verts[v].co, axis), multiplier)));
      }
      assert sel[..|sel|] == sel;
      assert verts[..] == GridSnapped(before, axis, multiplier);
    }

    /** `SnapToMinorGrid`: snap to the minor grid on X, then Y, then Z. */
    method SnapToMinorGrid(subdivisions: nat, scale: real)
      requires scale > 0.0 && subdivisions > 0
      modifies verts
      ensures verts[..] == SnappedToMinorGrid(old(verts[..]), GridMultiplier(subdivisions, scale, true))
    {
      AlignToGridOnAxis(X, true, subdivisions, scale);
      AlignToGridOnAxis(Y, true, subdivisions, scale);
      AlignToGridOnAxis(Z, true, subdivisions, scale);
    }

    // ------------------------------------------------------------ smart edge align

    /** `smart_align_selected_edges`: straighten each selected edge in edge order. */
    method SmartAlignSelectedEdges()
      requires Valid()
      modifies verts
      ensures EndpointsIn(edges, verts.Length)
      ensures verts[..] == SmartAligned(old(verts[..]), edges)
    {
      WellFormedEndpoints(verts.Length, edges, faces[..], history);
      for k := 0 to |edges|
        invariant verts[..] == SmartAligned(old(verts[..]), edges[..k])
      {
        ghost var prev := verts[..];
        var edge := edges[k];
        if edge.select {
          var vertex1, vertex2 := edge.v1, edge.v2;
          var axes := ShortAxes(verts[vertex1].co, verts[vertex2].co);
          var midpoint := Midpoint(verts[vertex1].co, verts[vertex2].co);
          verts[vertex1] := verts[vertex1].(co := With(verts[vertex1].co, axes.0, Get(midpoint, axes.0)));
          verts[vertex1] := verts[vertex1].(co := With(verts[vertex1].co, axes.1, Get(midpoint, axes.1)));
          verts[vertex2] := verts[vertex2].(co := With(verts[vertex2].co, axes.0, Get(midpoint, axes.0)));
          verts[vertex2] := verts[vertex2].(co := With(verts[vertex2].co, axes.1, Get(midpoint, axes.1)));
          assert verts[..] == AlignEdge(prev, edge);
        }
        assert edges[..k + 1][..k] == edges[..k];
      }
      assert edges[..|edges|] == edges;
    }

    // ------------------------------------------------------------ faces with the same image

    /** `for edge in face.edges: for f in edge.link_faces: new_faces.append(f)` */
    method LinkedFacesOf(f: nat) returns (linked: seq<nat>)
      requires Linkable(edges, faces[..]) && f < faces.Length
      ensures linked == Neighbours(edges, faces[..], f)
    {
      linked := [];
      var faceEdges := faces[f].edges;
      for k := 0 to |faceEdges|
        invariant linked == LinkedThrough(edges, faces[..], faceEdges[..k])
      {
        var linkFaces := edges[faceEdges[k]].linkFaces;
        for j := 0 to |linkFaces|
          invariant linked == LinkedThrough(edges, faces[..], faceEdges[..k]) + linkFaces[..j]
        {
          linked := linked + [linkFaces[j]];
        }
        assert faceEdges[..k + 1][..k] == faceEdges[..k];
        assert linkFaces[..|linkFaces|] == linkFaces;
      }
      assert faceEdges[..|faceEdges|] == faceEdges;
    }

    /**
     * The linked search of `select_faces_with_same_image`: repeated passes over the
     * pending faces; a pass flags each unflagged face with the anchor's image and
     * queues the faces sharing one of its edges; the search ends with an empty queue.
     */
    method LinkedSearch(activeImage: Option<ImageName>, seeds: seq<nat>) returns (finalSelection: set<nat>)
      requires Linkable(edges, faces[..]) && InRange(seeds, faces.Length)
      ensures finalSelection == LinkedSelection(edges, faces[..], activeImage, seeds)
    {
      ghost var fs := faces[..];
      var faceList := seeds;
      finalSelection := {};
      while faceList != []
        invariant InRange(faceList, faces.Length) && SetInRange(finalSelection, faces.Length)
        invariant Spread(edges, fs, activeImage, faceList, finalSelection) == LinkedSelection(edges, fs, activeImage, seeds)
        decreases faceList != [], Unvisited(faces.Length, finalSelection)
      {
        ghost var found := finalSelection;
        var newFaces: seq<nat> := [];
        for i := 0 to |faceList|
          invariant Sweep(finalSelection, newFaces) == PassOver(edges, fs, activeImage, faceList[..i], found)
        {
          assert faceList[..i + 1][..i] == faceList[..i];
          var face := faceList[i];
          if face in finalSelection {
            continue;
          }
          if SameImage(faces[face].image, activeImage) {
            finalSelection := finalSelection + {face};
            var linked := LinkedFacesOf(face);
            newFaces := newFaces + linked;
          }
        }
        assert faceList[..|faceList|] == faceList;
        PassGrows(edges, fs, activeImage, faceList, found);
        // `new_faces if len(new_faces) > 0 else None`: both end the loop when empty
        faceList := newFaces;
      }
    }

    /** The global search of `select_faces_with_same_image`: every face with the anchor's image. */
    method GlobalSearch(activeImage: Option<ImageName>) returns (finalSelection: set<nat>)
      ensures finalSelection == GlobalSelection(faces[..], activeImage)
    {
      finalSelection := {};
      for i := 0 to faces.Length
        invariant finalSelection == set g: nat | g < i && Matches(faces[..], activeImage, g)
      {
        if SameImage(faces[i].image, activeImage) {
          finalSelection := finalSelection + {i};
        }
      }
    }

    /** `for face_index in final_selection: polygons[face_index].select = True` */
    method SelectAll(finalSelection: set<nat>)
      requires SetInRange(finalSelection, faces.Length)
      modifies faces
      ensures faces[..] == ApplySelection(old(faces[..]), finalSelection)
    {
      ghost var fs := faces[..];
      var rest := finalSelection;
      assert ApplySelection(fs, {}) == fs;
      while rest != {}
        invariant rest <= finalSelection
        invariant faces[..] == ApplySelection(fs, finalSelection - rest)
        decreases rest
      {
        var i :| i in rest;
        faces[i] := faces[i].(select := true);
        rest := rest - {i};
      }
      assert finalSelection - rest == finalSelection;
    }

    /**
     * `select_faces_with_same_image`: report an error when no face is selected;
     * otherwise flag the faces whose image matches the anchor's, anywhere (global
     * mode) or reachable from the selected faces (linked mode).
     */
    method SelectFacesWithSameImage(mustBeLinked: bool) returns (ok: bool)
      requires Valid()
      modifies faces
      ensures Valid()
      ensures var r := ImageSelection(edges, old(faces[..]), history, mustBeLinked);
        ok == r.Some? && faces[..] == if ok then ApplySelection(old(faces[..]), r.value) else old(faces[..])
    {
      WellFormedIsLinkable(verts.Length, edges, faces[..], history);
      var faceList := SelectedFaces(faces[..]);
      if |faceList| == 0 {
        // 'No faces selected.'
        return false;
      }
      assert forall k :: 0 <= k < |faceList| ==> faceList[k] in faceList;
      var activeFaceIndex := if history.Some? && history.value.F? then history.value.i else faceList[0];
      var activeImage := faces[activeFaceIndex].image;
      var finalSelection;
      if mustBeLinked {
        finalSelection := LinkedSearch(activeImage, faceList);
      } else {
        finalSelection := GlobalSearch(activeImage);
      }
      SelectAll(finalSelection);
      return true;
    }

    /**
     * `assign_image_to_selected_faces_by_name`: find the image by name in the image
     * list; if it is there, give it to every selected face.
     */
    method AssignImageToSelectedFacesByName(name: ImageName, images: seq<ImageName>) returns (found: bool)
      requires Valid()
      modifies faces
      ensures Valid()
      ensures found == (name in images)
      ensures faces[..] == if found then AssignedImage(old(faces[..]), name) else old(faces[..])
    {
      var k := 0;
      while k < |images| && images[k] != name
        invariant 0 <= k <= |images| && name !in images[..k]
      {
        k := k + 1;
      }
      if k == |images| {
        assert images[..k] == images;
        return false;
      }
      ghost var fs := faces[..];
      var selectedFaces := SelectedFaces(faces[..]);
      for j := 0 to |selectedFaces|
        invariant forall i :: 0 <= i < faces.Length ==>
          faces[i] == if i in selectedFaces[..j] then fs[i].(image := Some(name)) else fs[i]
      {
        var i := selectedFaces[j];
        assert i in selectedFaces && i !in selectedFaces[..j];
        faces[i] := faces[i].(image := Some(name));
      }
      assert selectedFaces[..|selectedFaces|] == selectedFaces;
      assert faces[..] == AssignedImage(fs, name);
      return true;
    }
  }
}
