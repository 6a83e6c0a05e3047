/**
 * The mesh as the tools see it: vertices with positions and selection flags,
 * edges with their two vertices and the faces incident to them, and faces with
 * their vertices, their edges, an optional image and a selection flag.
 * Elements are referred to by index.
 */
module MeshModel {
  import opened Wrappers
  import opened Geometry

  /** The name of an image; a face with no image carries None. */
  type ImageName = string

  datatype Vertex = Vertex(co: Vec3, select: bool)

  /** `vertices[0]`, `vertices[1]`, the selection flag and `link_faces`. */
  datatype Edge = Edge(v1: nat, v2: nat, select: bool, linkFaces: seq<nat>)

  /** A polygon: its vertex indices, its edge indices, its image and its selection flag. */
  datatype Face = Face(verts: seq<nat>, edges: seq<nat>, image: Option<ImageName>, select: bool)

  /** The last entry of the selection history. */
  datatype Elem = V(i: nat) | E(i: nat) | F(i: nat)

  predicate EdgeOk(e: Edge, nv: nat, nf: nat)
  {
    e.v1 < nv && e.v2 < nv && forall k :: 0 <= k < |e.linkFaces| ==> e.linkFaces[k] < nf
  }

  /** A polygon has at least three corners, and every index it holds is in range. */
  predicate FaceOk(f: Face, nv: nat, ne: nat)
  {
    && |f.verts| >= 3
    && (forall k :: 0 <= k < |f.verts| ==> f.verts[k] < nv)
    && (forall k :: 0 <= k < |f.edges| ==> f.edges[k] < ne)
  }

  predicate HistoryOk(h: Option<Elem>, nv: nat, ne: nat, nf: nat)
  {
    match h
    case None => true
    case Some(V(i)) => i < nv
    case Some(E(i)) => i < ne
    case Some(F(i)) => i < nf
  }

  /** Every index held by the edges, the faces and the history refers to an existing element. */
  predicate WellFormed(nv: nat, es: seq<Edge>, fs: seq<Face>, h: Option<Elem>)
  {
    && (forall i :: 0 <= i < |es| ==> EdgeOk(es[i], nv, |fs|))
    && (forall i :: 0 <= i < |fs| ==> FaceOk(fs[i], nv, |es|))
    && HistoryOk(h, nv, |es|, |fs|)
  }

  /** Indices of the elements of `s` that satisfy `p`, in increasing order (a list comprehension). */
  function Where<T>(s: seq<T>, p: T -> bool): (r: seq<nat>)
    ensures forall i: int :: i in r <==> 0 <= i < |s| && p(s[i])
    ensures forall j, k :: 0 <= j < k < |r| ==> r[j] < r[k]
  {
    if s == [] then []
    else
      var r0 := Where(s[..|s| - 1], p);
      assert forall j :: 0 <= j < |r0| ==> r0[j] in r0 && r0[j] < |s| - 1;
      if p(s[|s| - 1]) then r0 + [|s| - 1] else r0
  }

  function SelectedVertices(vs: seq<Vertex>): (r: seq<nat>)
    ensures forall i: int :: i in r <==> 0 <= i < |vs| && vs[i].select
    ensures forall k, l :: 0 <= k < l < |r| ==> r[k] < r[l]
  {
    Where(vs, (v: Vertex) => v.select)
  }

  function SelectedFaces(fs: seq<Face>): (r: seq<nat>)
    ensures forall i: int :: i in r <==> 0 <= i < |fs| && fs[i].select
    ensures forall k, l :: 0 <= k < l < |r| ==> r[k] < r[l]
  {
    Where(fs, (f: Face) => f.select)
  }

  /** The positions of the listed vertices, in the order listed. */
  function Positions(vs: seq<Vertex>, ids: seq<nat>): (ps: seq<Vec3>)
    requires forall k :: 0 <= k < |ids| ==> ids[k] < |vs|
    ensures |ps| == |ids| && forall k :: 0 <= k < |ids| ==> ps[k] == vs[ids[k]].co
  {
    seq(|ids|, k requires 0 <= k < |ids| => vs[ids[k]].co)
  }
}
