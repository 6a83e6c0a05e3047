/**
 * The geometry operations on vertex positions, as functions of the vertex table:
 * aligning selected vertices to the active element on one axis, snapping them to
 * the grid on one axis, and straightening selected edges onto their dominant axis.
 */
module Alignment {
  import opened Wrappers
  import opened Geometry
  import opened MeshModel

  // ---------------------------------------------------------------- align to active

  /**
   * `get_snap_target`: the coordinate on `a` of the active element: a vertex's own
   * coordinate, a face's median centre, or an edge's midpoint; none without history.
   */
  function SnapTarget(vs: seq<Vertex>, es: seq<Edge>, fs: seq<Face>, h: Option<Elem>, a: Axis): (r: Option<real>)
    requires WellFormed(|vs|, es, fs, h)
    ensures r.Some? <==> h.Some?
  {
    match h
    case None => None
    case Some(V(i)) => Some(Get(vs[i].co, a))
    case Some(F(i)) =>
      assert FaceOk(fs[i], |vs|, |es|);
      Some(Get(MedianCenter(Positions(vs, fs[i].verts)), a))
    case Some(E(i)) =>
      assert EdgeOk(es[i], |vs|, |fs|);
      Some(Get(Lerp(vs[es[i].v1].co, vs[es[i].v2].co, 0.5), a))
  }

  /** Every selected vertex gets coordinate t on axis a. */
  function AlignedOn(vs: seq<Vertex>, a: Axis, t: real): (r: seq<Vertex>)
    ensures |r| == |vs|
  {
    seq(|vs|, i requires 0 <= i < |vs| => if vs[i].select then vs[i].(co := With(vs[i].co, a, t)) else vs[i])
  }

  /** `align_to_active`: nothing happens without selected vertices or without a target. */
  function AlignedToActive(vs: seq<Vertex>, es: seq<Edge>, fs: seq<Face>, h: Option<Elem>, a: Axis): (r: seq<Vertex>)
    requires WellFormed(|vs|, es, fs, h)
    ensures |r| == |vs|
  {
    if |SelectedVertices(vs)| == 0 then vs
    else match SnapTarget(vs, es, fs, h, a)
      case None => vs
      case Some(t) => AlignedOn(vs, a, t)
  }

  /** What the snap target is for each kind of active element. */
  lemma SnapTargetMeaning(vs: seq<Vertex>, es: seq<Edge>, fs: seq<Face>, h: Option<Elem>, a: Axis)
    requires WellFormed(|vs|, es, fs, h) && h.Some?
    ensures h.value.V? ==> SnapTarget(vs, es, fs, h, a) == Some(Get(vs[h.value.i].co, a))
    ensures h.value.F? ==> (
      && FaceOk(fs[h.value.i], |vs|, |es|)
      && var ids := fs[h.value.i].verts;
         SnapTarget(vs, es, fs, h, a) == Some(SumOn(Positions(vs, ids), a) / |ids| as real))
    ensures h.value.E? ==> (
      && EdgeOk(es[h.value.i], |vs|, |fs|)
      && var e := es[h.value.i];
         SnapTarget(vs, es, fs, h, a) == Some((Get(vs[e.v1].co, a) + Get(vs[e.v2].co, a)) / 2.0))
  {
    match h.value
    case V(i) =>
    case F(i) =>
      assert FaceOk(fs[i], |vs|, |es|);
      MedianCenterIsMean(Positions(vs, fs[i].verts), a);
    case E(i) =>
      assert EdgeOk(es[i], |vs|, |fs|);
      LerpHalf(vs[es[i].v1].co, vs[es[i].v2].co, a);
  }

  /**
   * Align-to-active writes the target on `a` into every selected vertex and changes
   * nothing else; with no selected vertex or no history it changes nothing at all.
   */
  lemma AlignToActiveEffect(vs: seq<Vertex>, es: seq<Edge>, fs: seq<Face>, h: Option<Elem>, a: Axis)
    requires WellFormed(|vs|, es, fs, h)
    ensures (forall i :: 0 <= i < |vs| ==> !vs[i].select) || h.None? ==> AlignedToActive(vs, es, fs, h, a) == vs
    ensures (exists i :: 0 <= i < |vs| && vs[i].select) && h.Some? ==>
      var r := AlignedToActive(vs, es, fs, h, a);
      var t := SnapTarget(vs, es, fs, h, a).value;
      forall i :: 0 <= i < |vs| ==>
        && r[i].select == vs[i].select
        && (vs[i].select ==> Get(r[i].co, a) == t)
        && (forall b :: b != a ==> Get(r[i].co, b) == Get(vs[i].co, b))
        && (!vs[i].select ==> r[i] == vs[i])
  {
    var sel := SelectedVertices(vs);
    if |sel| > 0 {
      assert sel[0] in sel;
    }
    if exists i :: 0 <= i < |vs| && vs[i].select {
      var i :| 0 <= i < |vs| && vs[i].select;
      assert i in sel;
    }
  }

  /** The anchor stays put under alignment: it is a vertex, or all of its vertices are selected. */
  predicate AnchorFollows(vs: seq<Vertex>, es: seq<Edge>, fs: seq<Face>, h: Option<Elem>)
    requires WellFormed(|vs|, es, fs, h)
  {
    match h
    case None => true
    case Some(V(_)) => true
    case Some(F(i)) =>
      assert FaceOk(fs[i], |vs|, |es|);
      forall k :: 0 <= k < |fs[i].verts| ==> vs[fs[i].verts[k]].select
    case Some(E(i)) =>
      assert EdgeOk(es[i], |vs|, |fs|);
      vs[es[i].v1].select && vs[es[i].v2].select
  }

  /** After aligning to t, the anchor's target is t again. */
  lemma TargetAfterAlign(vs: seq<Vertex>, es: seq<Edge>, fs: seq<Face>, h: Option<Elem>, a: Axis, t: real)
    requires WellFormed(|vs|, es, fs, h) && AnchorFollows(vs, es, fs, h)
    requires SnapTarget(vs, es, fs, h, a) == Some(t)
    ensures SnapTarget(AlignedOn(vs, a, t), es, fs, h, a) == Some(t)
  {
    var r := AlignedOn(vs, a, t);
    match h.value
    case V(i) =>
    case F(i) =>
      assert FaceOk(fs[i], |vs|, |es|);
      var ps := Positions(r, fs[i].verts);
      assert forall k :: 0 <= k < |ps| ==> Get(ps[k], a) == t;
      MedianCenterOnConstantAxis(ps, a, t);
    case E(i) =>
      assert EdgeOk(es[i], |vs|, |fs|);
      LerpHalf(r[es[i].v1].co, r[es[i].v2].co, a);
  }

  /** Aligning again with the same anchor changes nothing when the anchor follows the selection. */
  lemma AlignIdempotent(vs: seq<Vertex>, es: seq<Edge>, fs: seq<Face>, h: Option<Elem>, a: Axis)
    requires WellFormed(|vs|, es, fs, h) && AnchorFollows(vs, es, fs, h)
    ensures var r := AlignedToActive(vs, es, fs, h, a);
      AlignedToActive(r, es, fs, h, a) == r
  {
    var r := AlignedToActive(vs, es, fs, h, a);
    if |SelectedVertices(vs)| != 0 && h.Some? {
      var t := SnapTarget(vs, es, fs, h, a).value;
      assert r == AlignedOn(vs, a, t);
      TargetAfterAlign(vs, es, fs, h, a, t);
      assert SelectedVertices(vs)[0] in SelectedVertices(vs);
      assert SelectedVertices(vs)[0] in SelectedVertices(r);
      forall i | 0 <= i < |r| ensures AlignedOn(r, a, t)[i] == r[i] {
        WithOwnValue(r[i].co, a);
      }
    }
  }

  /** The snap target on an axis depends only on the vertices' coordinates on that axis. */
  lemma SnapTargetDependsOnAxisOnly(vs: seq<Vertex>, ws: seq<Vertex>, es: seq<Edge>, fs: seq<Face>, h: Option<Elem>, a: Axis)
    requires |vs| == |ws| && WellFormed(|vs|, es, fs, h)
    requires forall i :: 0 <= i < |vs| ==> Get(vs[i].co, a) == Get(ws[i].co, a)
    ensures SnapTarget(vs, es, fs, h, a) == SnapTarget(ws, es, fs, h, a)
  {
    match h
    case None =>
    case Some(V(i)) =>
    case Some(E(i)) =>
    case Some(F(i)) =>
      assert FaceOk(fs[i], |vs|, |es|);
      MedianCenterDependsOnAxisOnly(Positions(vs, fs[i].verts), Positions(ws, fs[i].verts), a);
  }

  /**
   * The X pass of the horizontal alignment moves no y coordinate and no flag, so the
   * Y pass of `AlignH` uses the same target as it would have before the X pass.
   */
  lemma HorizontalUsesOriginalTargets(vs: seq<Vertex>, es: seq<Edge>, fs: seq<Face>, h: Option<Elem>)
    requires WellFormed(|vs|, es, fs, h)
    ensures var xs := AlignedToActive(vs, es, fs, h, X);
      && (forall i :: 0 <= i < |vs| ==> Get(xs[i].co, Y) == Get(vs[i].co, Y) && xs[i].select == vs[i].select)
      && SnapTarget(xs, es, fs, h, Y) == SnapTarget(vs, es, fs, h, Y)
  {
    var xs := AlignedToActive(vs, es, fs, h, X);
    AlignToActiveEffect(vs, es, fs, h, X);
    SnapTargetDependsOnAxisOnly(vs, xs, es, fs, h, Y);
  }

  /** After `AlignH`, every selected vertex sits at both original targets and keeps its z. */
  lemma HorizontalAlignEffect(vs: seq<Vertex>, es: seq<Edge>, fs: seq<Face>, h: Option<Elem>)
    requires WellFormed(|vs|, es, fs, h)
    ensures (exists i :: 0 <= i < |vs| && vs[i].select) && h.Some? ==>
      var r := AlignedToActive(AlignedToActive(vs, es, fs, h, X), es, fs, h, Y);
      forall i :: 0 <= i < |vs| ==>
        r[i] == if vs[i].select
                then vs[i].(co := Vec3(SnapTarget(vs, es, fs, h, X).value, SnapTarget(vs, es, fs, h, Y).value, vs[i].co.z))
                else vs[i]
  {
    if (exists i :: 0 <= i < |vs| && vs[i].select) && h.Some? {
      var xs := AlignedToActive(vs, es, fs, h, X);
      var r := AlignedToActive(xs, es, fs, h, Y);
      var tx := SnapTarget(vs, es, fs, h, X).value;
      var ty := SnapTarget(vs, es, fs, h, Y).value;
      HorizontalUsesOriginalTargets(vs, es, fs, h);
      AlignToActiveEffect(vs, es, fs, h, X);
      var i0 :| 0 <= i0 < |vs| && vs[i0].select;
      assert xs[i0].select;
      AlignToActiveEffect(xs, es, fs, h, Y);
      forall i | 0 <= i < |vs|
        ensures r[i] == if vs[i].select then vs[i].(co := Vec3(tx, ty, vs[i].co.z)) else vs[i]
      {
        if vs[i].select {
          assert Get(r[i].co, X) == Get(xs[i].co, X) == tx;
          assert Get(r[i].co, Y) == ty;
          assert Get(r[i].co, Z) == Get(xs[i].co, Z) == Get(vs[i].co, Z);
        }
      }
    }
  }

  // ---------------------------------------------------------------- grid snap

  /** `(grid_subdivisions if on_minor else 1) / grid_scale` */
  function GridMultiplier(subdivisions: nat, scale: real, onMinor: bool): (m: real)
    requires scale > 0.0 && (onMinor ==> subdivisions > 0)
    ensures m > 0.0
  {
    (if onMinor then subdivisions as real else 1.0) / scale
  }

  /** `round(c * m) / m` */
  function SnapToGrid(c: real, m: real): (r: real)
    requires m > 0.0
    ensures r * m == Round(c * m) as real
  {
    Round(c * m) as real / m
  }

  /** Every selected vertex has its coordinate on a snapped to the grid. */
  function GridSnapped(vs: seq<Vertex>, a: Axis, m: real): (r: seq<Vertex>)
    requires m > 0.0
    ensures |r| == |vs|
  {
    seq(|vs|, i requires 0 <= i < |vs| =>
      if vs[i].select then vs[i].(co := With(vs[i].co, a, SnapToGrid(Get(vs[i].co, a), m))) else vs[i])
  }

  /**
   * A snapped coordinate lies on a grid line: times m it is an integer, the nearest
   * one to c * m (within 1/2, the even one on a tie), so it is within half a grid
   * step of c.
   */
  lemma SnapToGridOnGrid(c: real, m: real)
    requires m > 0.0
    ensures SnapToGrid(c, m) * m == Round(c * m) as real
    ensures -0.5 <= c * m - SnapToGrid(c, m) * m <= 0.5
    ensures (c * m - SnapToGrid(c, m) * m == 0.5 || SnapToGrid(c, m) * m - c * m == 0.5) ==> Round(c * m) % 2 == 0
    ensures -0.5 / m <= c - SnapToGrid(c, m) <= 0.5 / m
  {
    var n := Round(c * m) as real;
    assert SnapToGrid(c, m) * m == n;
    var d := c - SnapToGrid(c, m);
    assert d * m == c * m - n;
    assert -0.5 <= d * m <= 0.5;
    assert d == (d * m) / m;
    DivLe(-0.5, d * m, m);
    DivLe(d * m, 0.5, m);
  }

  /** Dividing by a positive number keeps the order. */
  lemma DivLe(x: real, y: real, m: real)
    requires m > 0.0 && x <= y
    ensures x / m <= y / m
  {
    assert y / m - x / m == (y - x) / m;
  }

  /** A coordinate that lies on a grid line (c * m is an integer) does not move. */
  lemma SnapOnGridLine(c: real, m: real, n: int)
    requires m > 0.0 && c * m == n as real
    ensures SnapToGrid(c, m) == c
  {
    RoundInteger(n);
    assert c == (c * m) / m;
  }

  /** A coordinate already on a grid line stays where it is. */
  lemma SnapToGridIdempotent(c: real, m: real)
    requires m > 0.0
    ensures SnapToGrid(SnapToGrid(c, m), m) == SnapToGrid(c, m)
  {
    SnapToGridOnGrid(c, m);
    RoundInteger(Round(c * m));
  }

  /** On a unit grid with four subdivisions, 0.3 goes to the minor line at 0.25 and 0.375 to the even line at 0.5. */
  lemma GridSnapExamples()
    ensures GridMultiplier(4, 1.0, true) == 4.0
    ensures SnapToGrid(0.3, 4.0) == 0.25
    ensures SnapToGrid(0.375, 4.0) == 0.5
    ensures SnapToGrid(0.125, 4.0) == 0.0
  {
    RoundUnique(1.2, 1);
    RoundUnique(1.5, 2);
    RoundUnique(0.5, 0);
  }

  /** Grid snap moves only the selected vertices and only on the chosen axis. */
  lemma GridSnapEffect(vs: seq<Vertex>, a: Axis, m: real)
    requires m > 0.0
    ensures var r := GridSnapped(vs, a, m);
      forall i :: 0 <= i < |vs| ==>
        && r[i].select == vs[i].select
        && (vs[i].select ==> Get(r[i].co, a) == SnapToGrid(Get(vs[i].co, a), m)
                             && (forall b :: b != a ==> Get(r[i].co, b) == Get(vs[i].co, b)))
        && (!vs[i].select ==> r[i] == vs[i])
  {
  }

  /** A second snap with the same parameters changes nothing. */
  lemma GridSnapIdempotent(vs: seq<Vertex>, a: Axis, m: real)
    requires m > 0.0
    ensures GridSnapped(GridSnapped(vs, a, m), a, m) == GridSnapped(vs, a, m)
  {
    var r := GridSnapped(vs, a, m);
    forall i | 0 <= i < |vs| ensures GridSnapped(r, a, m)[i] == r[i] {
      if vs[i].select {
        SnapToGridIdempotent(Get(vs[i].co, a), m);
        WithOwnValue(r[i].co, a);
      }
    }
  }

  /** The minor-grid snap on all three axes (an X, a Y and a Z pass). */
  function SnappedToMinorGrid(vs: seq<Vertex>, m: real): (r: seq<Vertex>)
    requires m > 0.0
    ensures |r| == |vs|
  {
    GridSnapped(GridSnapped(GridSnapped(vs, X, m), Y, m), Z, m)
  }

  /** The three passes snap every coordinate of each selected vertex independently. */
  lemma MinorGridSnapsEveryAxis(vs: seq<Vertex>, m: real)
    requires m > 0.0
    ensures var r := SnappedToMinorGrid(vs, m);
      forall i :: 0 <= i < |vs| ==>
        r[i] == if vs[i].select
                then vs[i].(co := Vec3(SnapToGrid(vs[i].co.x, m), SnapToGrid(vs[i].co.y, m), SnapToGrid(vs[i].co.z, m)))
                else vs[i]
  {
  }

  // ---------------------------------------------------------------- smart edge align

  /** |difference| of two points on one axis. */
  function Delta(p: Vec3, q: Vec3, a: Axis): real
  {
    Abs(Get(p, a) - Get(q, a))
  }

  /** Axis l attains the largest |difference|, and no axis before it in X, Y, Z order does. */
  predicate FirstLongest(p: Vec3, q: Vec3, l: Axis)
  {
    && (forall b :: Delta(p, q, b) <= Delta(p, q, l))
    && (forall b :: Rank(b) < Rank(l) ==> Delta(p, q, b) < Delta(p, q, l))
  }

  /** `get_short_axes`: the two axes other than the first longest one, in X, Y, Z order. */
  function ShortAxes(p: Vec3, q: Vec3): (r: (Axis, Axis))
    ensures r.0 != r.1 && Rank(r.0) < Rank(r.1)
    ensures forall l :: l != r.0 && l != r.1 ==> FirstLongest(p, q, l)
  {
    var x := Delta(p, q, X);
    var y := Delta(p, q, Y);
    var z := Delta(p, q, Z);
    var longest := if x >= y && x >= z then x else if y >= z then y else z;
    if x == longest then (Y, Z)
    else if y == longest then (X, Z)
    else (X, Y)
  }

  /** There is only one first longest axis. */
  lemma FirstLongestUnique(p: Vec3, q: Vec3, l1: Axis, l2: Axis)
    requires FirstLongest(p, q, l1) && FirstLongest(p, q, l2)
    ensures l1 == l2
  {
    assert Delta(p, q, l1) == Delta(p, q, l2);
  }

  /** `get_edge_midpoint` */
  function Midpoint(p: Vec3, q: Vec3): (m: Vec3)
    ensures m == Lerp(p, q, 0.5)
    ensures forall a :: Get(m, a) == (Get(p, a) + Get(q, a)) / 2.0
  {
    Vec3((p.x + q.x) / 2.0, (p.y + q.y) / 2.0, (p.z + q.z) / 2.0)
  }

  /** Overwrite two coordinates of a vertex with those of a target point. */
  function MoveOn(v: Vertex, a1: Axis, a2: Axis, target: Vec3): Vertex
  {
    v.(co := With(With(v.co, a1, Get(target, a1)), a2, Get(target, a2)))
  }

  /** One iteration of `smart_align_selected_edges`: both endpoints take the midpoint on the short axes. */
  function AlignEdge(vs: seq<Vertex>, e: Edge): (r: seq<Vertex>)
    requires e.v1 < |vs| && e.v2 < |vs|
    ensures |r| == |vs|
  {
    var p := vs[e.v1].co;
    var q := vs[e.v2].co;
    var (a1, a2) := ShortAxes(p, q);
    var mid := Midpoint(p, q);
    var w := vs[e.v1 := MoveOn(vs[e.v1], a1, a2, mid)];
    w[e.v2 := MoveOn(w[e.v2], a1, a2, mid)]
  }

  predicate EndpointsIn(es: seq<Edge>, nv: nat)
  {
    forall k :: 0 <= k < |es| ==> es[k].v1 < nv && es[k].v2 < nv
  }

  /** The selected edges straightened one after the other, in edge order. */
  function SmartAligned(vs: seq<Vertex>, es: seq<Edge>): (r: seq<Vertex>)
    requires EndpointsIn(es, |vs|)
    ensures |r| == |vs|
  {
    if es == [] then vs
    else
      var w := SmartAligned(vs, es[..|es| - 1]);
      var e := es[|es| - 1];
      if e.select then AlignEdge(w, e) else w
  }

  /** A vertex that no selected edge touches keeps its position and flag. */
  lemma {:induction false} SmartAlignedLeavesOthers(vs: seq<Vertex>, es: seq<Edge>, i: nat)
    requires EndpointsIn(es, |vs|) && i < |vs|
    requires forall k :: 0 <= k < |es| && es[k].select ==> es[k].v1 != i && es[k].v2 != i
    ensures SmartAligned(vs, es)[i] == vs[i]
  {
    if es != [] {
      var init := es[..|es| - 1];
      assert forall k :: 0 <= k < |init| ==> init[k] == es[k];
      SmartAlignedLeavesOthers(vs, init, i);
    }
  }

  /**
   * After an edge is processed, both endpoints sit on the midpoint on the two short
   * axes and keep their own coordinate on the long axis; no other vertex and no
   * selection flag changes.
   */
  lemma EdgeStraightened(vs: seq<Vertex>, e: Edge)
    requires e.v1 < |vs| && e.v2 < |vs|
    ensures var p := vs[e.v1].co;
      var q := vs[e.v2].co;
      var r := AlignEdge(vs, e);
      var (a1, a2) := ShortAxes(p, q);
      && (forall b :: b == a1 || b == a2 ==>
            Get(r[e.v1].co, b) == (Get(p, b) + Get(q, b)) / 2.0 && Get(r[e.v2].co, b) == (Get(p, b) + Get(q, b)) / 2.0)
      && (forall l :: l != a1 && l != a2 ==> FirstLongest(p, q, l) && Get(r[e.v1].co, l) == Get(p, l) && Get(r[e.v2].co, l) == Get(q, l))
      && (forall i :: 0 <= i < |vs| ==> r[i].select == vs[i].select)
      && (forall i :: 0 <= i < |vs| && i != e.v1 && i != e.v2 ==> r[i] == vs[i])
  {
  }

  /** An edge whose endpoints already agree on its short axes is left as it is. */
  lemma AlignEdgeFixed(vs: seq<Vertex>, e: Edge)
    requires e.v1 < |vs| && e.v2 < |vs|
    requires var (a1, a2) := ShortAxes(vs[e.v1].co, vs[e.v2].co);
      Get(vs[e.v1].co, a1) == Get(vs[e.v2].co, a1) && Get(vs[e.v1].co, a2) == Get(vs[e.v2].co, a2)
    ensures AlignEdge(vs, e) == vs
  {
    var p := vs[e.v1].co;
    var q := vs[e.v2].co;
    var (a1, a2) := ShortAxes(p, q);
    var mid := Midpoint(p, q);
    WithOwnValue(p, a1);
    WithOwnValue(p, a2);
    WithOwnValue(q, a1);
    WithOwnValue(q, a2);
    assert MoveOn(vs[e.v1], a1, a2, mid) == vs[e.v1];
    assert MoveOn(vs[e.v2], a1, a2, mid) == vs[e.v2];
  }

  /** Points that differ only on a non-zero long side keep the short axes of the originals. */
  lemma ShortAxesKept(p: Vec3, q: Vec3, p': Vec3, q': Vec3, l: Axis)
    requires var (a1, a2) := ShortAxes(p, q);
      && l != a1 && l != a2 && Delta(p, q, l) > 0.0
      && Get(p', l) == Get(p, l) && Get(q', l) == Get(q, l)
      && Get(p', a1) == Get(q', a1) && Get(p', a2) == Get(q', a2)
    ensures ShortAxes(p', q') == ShortAxes(p, q)
  {
    var (a1, a2) := ShortAxes(p, q);
    forall b ensures Delta(p', q', b) <= Delta(p', q', l) && (Rank(b) < Rank(l) ==> Delta(p', q', b) < Delta(p', q', l)) {
      if b != l {
        assert b == a1 || b == a2;
      }
    }
    assert FirstLongest(p', q', l);
    var (b1, b2) := ShortAxes(p', q');
    var l' :| l' != b1 && l' != b2;
    FirstLongestUnique(p', q', l, l');
  }

  /** A straightened edge with a non-zero long side keeps its short axes. */
  lemma StraightenedKeepsShortAxes(vs: seq<Vertex>, e: Edge, l: Axis)
    requires e.v1 < |vs| && e.v2 < |vs| && e.v1 != e.v2
    requires var (a1, a2) := ShortAxes(vs[e.v1].co, vs[e.v2].co);
      l != a1 && l != a2 && Delta(vs[e.v1].co, vs[e.v2].co, l) > 0.0
    ensures var r := AlignEdge(vs, e);
      ShortAxes(r[e.v1].co, r[e.v2].co) == ShortAxes(vs[e.v1].co, vs[e.v2].co)
  {
    EdgeStraightened(vs, e);
    var r := AlignEdge(vs, e);
    ShortAxesKept(vs[e.v1].co, vs[e.v2].co, r[e.v1].co, r[e.v2].co, l);
  }

  /** Straightening an edge that was just straightened changes nothing. */
  lemma AlignEdgeIdempotent(vs: seq<Vertex>, e: Edge)
    requires e.v1 < |vs| && e.v2 < |vs|
    ensures AlignEdge(AlignEdge(vs, e), e) == AlignEdge(vs, e)
  {
    var p := vs[e.v1].co;
    var q := vs[e.v2].co;
    var (a1, a2) := ShortAxes(p, q);
    var l :| l != a1 && l != a2;
    EdgeStraightened(vs, e);
    var r := AlignEdge(vs, e);
    if e.v1 == e.v2 || Delta(p, q, l) == 0.0 {
      // the endpoints already agree on the short axes
      AlignEdgeFixed(vs, e);
      AlignEdgeFixed(r, e);
    } else {
      StraightenedKeepsShortAxes(vs, e, l);
      AlignEdgeFixed(r, e);
    }
  }
}
