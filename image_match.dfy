/**
 * Selecting faces that carry the same image as an anchor face, either anywhere in
 * the mesh (global mode) or only through chains of edge-adjacent matching faces
 * (linked mode). The linked search is specified here by the sequence of frontier
 * passes it performs; the lemmas characterise its result as the least set that
 * contains the matching seed faces and is closed under matching neighbours.
 */
module ImageMatch {
  import opened Wrappers
  import opened MeshModel

  /** `same_image`: two absent images match, an absent and a present one never do,
   *  two present ones match when their names are equal. */
  function SameImage(a: Option<ImageName>, b: Option<ImageName>): (r: bool)
    ensures r <==> a == b
  {
    if a.None? && b.None? then true
    else if a.None? || b.None? then false
    else a.value == b.value
  }

  /** The adjacency the search walks: incident faces of edges and edges of faces are in range. */
  predicate Linkable(es: seq<Edge>, fs: seq<Face>)
  {
    && (forall i :: 0 <= i < |es| ==> forall k :: 0 <= k < |es[i].linkFaces| ==> es[i].linkFaces[k] < |fs|)
    && (forall i :: 0 <= i < |fs| ==> forall k :: 0 <= k < |fs[i].edges| ==> fs[i].edges[k] < |es|)
  }

  lemma WellFormedIsLinkable(nv: nat, es: seq<Edge>, fs: seq<Face>, h: Option<Elem>)
    requires WellFormed(nv, es, fs, h)
    ensures Linkable(es, fs)
  {
    forall i | 0 <= i < |es| ensures forall k :: 0 <= k < |es[i].linkFaces| ==> es[i].linkFaces[k] < |fs| {
      assert EdgeOk(es[i], nv, |fs|);
    }
    forall i | 0 <= i < |fs| ensures forall k :: 0 <= k < |fs[i].edges| ==> fs[i].edges[k] < |es| {
      assert FaceOk(fs[i], nv, |es|);
    }
  }

  predicate InRange(list: seq<nat>, n: nat)
  {
    forall k :: 0 <= k < |list| ==> list[k] < n
  }

  predicate SetInRange(s: set<nat>, n: nat)
  {
    forall g :: g in s ==> g < n
  }

  /** The faces met, in order, by `for edge in edges: for f in edge.link_faces`. */
  function LinkedThrough(es: seq<Edge>, fs: seq<Face>, ids: seq<nat>): (r: seq<nat>)
    requires Linkable(es, fs) && InRange(ids, |es|)
    ensures InRange(r, |fs|)
  {
    if ids == [] then []
    else LinkedThrough(es, fs, ids[..|ids| - 1]) + es[ids[|ids| - 1]].linkFaces
  }

  /** The faces appended to the next frontier when face f matches (f itself included). */
  function Neighbours(es: seq<Edge>, fs: seq<Face>, f: nat): (r: seq<nat>)
    requires Linkable(es, fs) && f < |fs|
    ensures InRange(r, |fs|)
  {
    LinkedThrough(es, fs, fs[f].edges)
  }

  predicate Matches(fs: seq<Face>, key: Option<ImageName>, g: nat)
    requires g < |fs|
  {
    SameImage(fs[g].image, key)
  }

  /** Global mode: every face whose image matches the key. */
  function GlobalSelection(fs: seq<Face>, key: Option<ImageName>): (r: set<nat>)
    ensures forall g: nat :: g in r <==> g < |fs| && fs[g].image == key
  {
    set g: nat | g < |fs| && Matches(fs, key, g)
  }

  /** What one pass over the frontier produces: the grown selection and the next frontier. */
  datatype Sweep = Sweep(found: set<nat>, next: seq<nat>)

  /**
   * One pass of `for face in face_list`: a face already found is skipped; a matching
   * face is added and its neighbours are appended to the next frontier; a face that
   * does not match is dropped.
   */
  function PassOver(es: seq<Edge>, fs: seq<Face>, key: Option<ImageName>, list: seq<nat>, found: set<nat>): (r: Sweep)
    requires Linkable(es, fs) && InRange(list, |fs|) && SetInRange(found, |fs|)
    ensures SetInRange(r.found, |fs|) && InRange(r.next, |fs|)
  {
    if list == [] then Sweep(found, [])
    else
      var prev := PassOver(es, fs, key, list[..|list| - 1], found);
      var f := list[|list| - 1];
      if f in prev.found then prev
      else if Matches(fs, key, f) then Sweep(prev.found + {f}, prev.next + Neighbours(es, fs, f))
      else prev
  }

  /** Faces not yet found: the measure that shrinks on every pass that continues. */
  function Unvisited(n: nat, found: set<nat>): set<nat>
  {
    set g: nat | g < n && g !in found
  }

  /**
   * `while face_list: ...`: passes are repeated until a pass yields an empty next
   * frontier; the result is the set of faces found.
   */
  function Spread(es: seq<Edge>, fs: seq<Face>, key: Option<ImageName>, list: seq<nat>, found: set<nat>): (r: set<nat>)
    requires Linkable(es, fs) && InRange(list, |fs|) && SetInRange(found, |fs|)
    ensures SetInRange(r, |fs|)
    decreases list != [], Unvisited(|fs|, found)
  {
    if list == [] then found
    else
      var step := PassOver(es, fs, key, list, found);
      PassGrows(es, fs, key, list, found);
      Spread(es, fs, key, step.next, step.found)
  }

  /** Linked mode started from the given seed faces with nothing found yet. */
  function LinkedSelection(es: seq<Edge>, fs: seq<Face>, key: Option<ImageName>, seeds: seq<nat>): (r: set<nat>)
    requires Linkable(es, fs) && InRange(seeds, |fs|)
    ensures SetInRange(r, |fs|)
  {
    Spread(es, fs, key, seeds, {})
  }

  /** A set of faces that contains every matching neighbour of each of its members. */
  ghost predicate Closed(es: seq<Edge>, fs: seq<Face>, key: Option<ImageName>, s: set<nat>)
    requires Linkable(es, fs) && SetInRange(s, |fs|)
  {
    forall f, j :: f in s && 0 <= j < |Neighbours(es, fs, f)| && Matches(fs, key, Neighbours(es, fs, f)[j]) ==>
      Neighbours(es, fs, f)[j] in s
  }

  /** Every matching neighbour of a found face is found or still waiting in the frontier. */
  ghost predicate Covered(es: seq<Edge>, fs: seq<Face>, key: Option<ImageName>, found: set<nat>, list: seq<nat>)
    requires Linkable(es, fs) && SetInRange(found, |fs|)
  {
    forall f, j :: f in found && 0 <= j < |Neighbours(es, fs, f)| && Matches(fs, key, Neighbours(es, fs, f)[j]) ==>
      Neighbours(es, fs, f)[j] in found || Neighbours(es, fs, f)[j] in list
  }

  // ---------------------------------------------------------------- one pass

  /** A pass only adds faces, only adds matching faces of the frontier, and adds every
   *  matching face of the frontier. */
  lemma {:induction false} PassAdds(es: seq<Edge>, fs: seq<Face>, key: Option<ImageName>, list: seq<nat>, found: set<nat>)
    requires Linkable(es, fs) && InRange(list, |fs|) && SetInRange(found, |fs|)
    ensures var r := PassOver(es, fs, key, list, found);
      && found <= r.found
      && (forall g :: g in r.found && g !in found ==> g in list && Matches(fs, key, g))
      && (forall k :: 0 <= k < |list| && Matches(fs, key, list[k]) ==> list[k] in r.found)
  {
    if list != [] {
      var init := list[..|list| - 1];
      PassAdds(es, fs, key, init, found);
      assert forall k :: 0 <= k < |init| ==> init[k] == list[k];
      assert forall g :: g in init ==> g in list;
    }
  }

  /** Every neighbour of a face added by a pass is in the next frontier. */
  lemma {:induction false} PassEnqueues(es: seq<Edge>, fs: seq<Face>, key: Option<ImageName>, list: seq<nat>, found: set<nat>)
    requires Linkable(es, fs) && InRange(list, |fs|) && SetInRange(found, |fs|)
    ensures var r := PassOver(es, fs, key, list, found);
      forall g, j :: g in r.found && g !in found && 0 <= j < |Neighbours(es, fs, g)| ==> Neighbours(es, fs, g)[j] in r.next
  {
    if list != [] {
      var init := list[..|list| - 1];
      PassEnqueues(es, fs, key, init, found);
      PassAdds(es, fs, key, init, found);
      var prev := PassOver(es, fs, key, init, found);
      var f := list[|list| - 1];
      if f !in prev.found && Matches(fs, key, f) {
        var r := PassOver(es, fs, key, list, found);
        forall g, j | g in r.found && g !in found && 0 <= j < |Neighbours(es, fs, g)|
          ensures Neighbours(es, fs, g)[j] in r.next
        {
          if g == f {
            assert r.next[|prev.next| + j] == Neighbours(es, fs, g)[j];
          } else {
            assert Neighbours(es, fs, g)[j] in prev.next;
          }
        }
      }
    }
  }

  /** Face x is a neighbour of a matching face in `now` that was not in `before`. */
  ghost predicate QueuedByNewMatch(es: seq<Edge>, fs: seq<Face>, key: Option<ImageName>, before: set<nat>, now: set<nat>, x: nat)
    requires Linkable(es, fs)
  {
    exists g: nat, j :: g in now && g !in before && g < |fs| && Matches(fs, key, g) &&
      0 <= j < |Neighbours(es, fs, g)| && Neighbours(es, fs, g)[j] == x
  }

  /** Every face in the next frontier is a neighbour of a matching face that the pass added,
   *  so a face that does not match, or was found before, queues nothing. */
  lemma {:induction false} PassQueuesOnlyNeighbours(es: seq<Edge>, fs: seq<Face>, key: Option<ImageName>, list: seq<nat>, found: set<nat>)
    requires Linkable(es, fs) && InRange(list, |fs|) && SetInRange(found, |fs|)
    ensures var r := PassOver(es, fs, key, list, found);
      forall k :: 0 <= k < |r.next| ==> QueuedByNewMatch(es, fs, key, found, r.found, r.next[k])
  {
    if list != [] {
      var init := list[..|list| - 1];
      PassQueuesOnlyNeighbours(es, fs, key, init, found);
      PassAdds(es, fs, key, init, found);
      var prev := PassOver(es, fs, key, init, found);
      var f := list[|list| - 1];
      if f !in prev.found && Matches(fs, key, f) {
        var r := PassOver(es, fs, key, list, found);
        forall k | 0 <= k < |r.next|
          ensures QueuedByNewMatch(es, fs, key, found, r.found, r.next[k])
        {
          if k < |prev.next| {
            assert QueuedByNewMatch(es, fs, key, found, prev.found, prev.next[k]);
            var g: nat, j :| g in prev.found && g !in found && g < |fs| && Matches(fs, key, g) &&
              0 <= j < |Neighbours(es, fs, g)| && Neighbours(es, fs, g)[j] == prev.next[k];
            assert r.next[k] == prev.next[k];
            assert g in r.found;
          } else {
            var j := k - |prev.next|;
            assert r.next[k] == Neighbours(es, fs, f)[j];
            assert f in r.found && f !in found;
          }
        }
      }
    }
  }

  /** A pass that leaves a non-empty frontier has found at least one new face. */
  lemma PassGrows(es: seq<Edge>, fs: seq<Face>, key: Option<ImageName>, list: seq<nat>, found: set<nat>)
    requires Linkable(es, fs) && InRange(list, |fs|) && SetInRange(found, |fs|)
    ensures var r := PassOver(es, fs, key, list, found);
      r.next != [] ==> Unvisited(|fs|, r.found) < Unvisited(|fs|, found) && |r.found| > |found|
  {
    var r := PassOver(es, fs, key, list, found);
    if r.next != [] {
      PassOnlyEnqueuesFromNew(es, fs, key, list, found);
      var g :| g in r.found && g !in found;
      PassAdds(es, fs, key, list, found);
      assert g in Unvisited(|fs|, found) && g !in Unvisited(|fs|, r.found);
      assert r.found == found + (r.found - found) && found !! (r.found - found);
      assert {g} <= r.found - found;
    }
  }

  /** A non-matching or already found face appends nothing, so a non-empty next frontier
   *  means a face was added. */
  lemma {:induction false} PassOnlyEnqueuesFromNew(es: seq<Edge>, fs: seq<Face>, key: Option<ImageName>, list: seq<nat>, found: set<nat>)
    requires Linkable(es, fs) && InRange(list, |fs|) && SetInRange(found, |fs|)
    ensures var r := PassOver(es, fs, key, list, found);
      r.next != [] ==> exists g :: g in r.found && g !in found
  {
    if list != [] {
      var init := list[..|list| - 1];
      PassOnlyEnqueuesFromNew(es, fs, key, init, found);
      PassAdds(es, fs, key, init, found);
    }
  }

  /** A pass stays inside any closed set that holds what was found and the matching frontier faces. */
  lemma {:induction false} PassWithin(es: seq<Edge>, fs: seq<Face>, key: Option<ImageName>, list: seq<nat>, found: set<nat>, c: set<nat>)
    requires Linkable(es, fs) && InRange(list, |fs|) && SetInRange(found, |fs|) && SetInRange(c, |fs|)
    requires Closed(es, fs, key, c) && found <= c
    requires forall k :: 0 <= k < |list| && Matches(fs, key, list[k]) ==> list[k] in c
    ensures var r := PassOver(es, fs, key, list, found);
      r.found <= c && forall k :: 0 <= k < |r.next| && Matches(fs, key, r.next[k]) ==> r.next[k] in c
  {
    if list != [] {
      var init := list[..|list| - 1];
      assert forall k :: 0 <= k < |init| ==> init[k] == list[k];
      PassWithin(es, fs, key, init, found, c);
      var prev := PassOver(es, fs, key, init, found);
      var f := list[|list| - 1];
      if f !in prev.found && Matches(fs, key, f) {
        var r := PassOver(es, fs, key, list, found);
        var nb := Neighbours(es, fs, f);
        forall k | 0 <= k < |r.next| && Matches(fs, key, r.next[k]) ensures r.next[k] in c {
          if k >= |prev.next| {
            assert r.next[k] == nb[k - |prev.next|];
          }
        }
      }
    }
  }

  // ---------------------------------------------------------------- all passes

  /** Linked mode only ever finds matching faces. */
  lemma {:induction false} SpreadMatches(es: seq<Edge>, fs: seq<Face>, key: Option<ImageName>, list: seq<nat>, found: set<nat>)
    requires Linkable(es, fs) && InRange(list, |fs|) && SetInRange(found, |fs|)
    requires forall g :: g in found ==> Matches(fs, key, g)
    ensures forall g :: g in Spread(es, fs, key, list, found) ==> Matches(fs, key, g)
    decreases list != [], Unvisited(|fs|, found)
  {
    if list != [] {
      var r := PassOver(es, fs, key, list, found);
      PassAdds(es, fs, key, list, found);
      PassGrows(es, fs, key, list, found);
      SpreadMatches(es, fs, key, r.next, r.found);
    }
  }

  /** Linked mode keeps what was found and finds every matching face of the frontier. */
  lemma {:induction false} SpreadKeeps(es: seq<Edge>, fs: seq<Face>, key: Option<ImageName>, list: seq<nat>, found: set<nat>)
    requires Linkable(es, fs) && InRange(list, |fs|) && SetInRange(found, |fs|)
    ensures found <= Spread(es, fs, key, list, found)
    ensures forall k :: 0 <= k < |list| && Matches(fs, key, list[k]) ==> list[k] in Spread(es, fs, key, list, found)
    decreases list != [], Unvisited(|fs|, found)
  {
    if list != [] {
      var r := PassOver(es, fs, key, list, found);
      PassAdds(es, fs, key, list, found);
      PassGrows(es, fs, key, list, found);
      SpreadKeeps(es, fs, key, r.next, r.found);
    }
  }

  /** When the search stops, every matching neighbour of a found face has been found. */
  lemma {:induction false} SpreadClosed(es: seq<Edge>, fs: seq<Face>, key: Option<ImageName>, list: seq<nat>, found: set<nat>)
    requires Linkable(es, fs) && InRange(list, |fs|) && SetInRange(found, |fs|)
    requires Covered(es, fs, key, found, list)
    ensures Closed(es, fs, key, Spread(es, fs, key, list, found))
    decreases list != [], Unvisited(|fs|, found)
  {
    if list != [] {
      var r := PassOver(es, fs, key, list, found);
      PassAdds(es, fs, key, list, found);
      PassEnqueues(es, fs, key, list, found);
      PassGrows(es, fs, key, list, found);
      forall f, j | f in r.found && 0 <= j < |Neighbours(es, fs, f)| && Matches(fs, key, Neighbours(es, fs, f)[j])
        ensures Neighbours(es, fs, f)[j] in r.found || Neighbours(es, fs, f)[j] in r.next
      {
        var g := Neighbours(es, fs, f)[j];
        if f in found && g !in found {
          assert g in list;
          var k :| 0 <= k < |list| && list[k] == g;
        }
      }
      SpreadClosed(es, fs, key, r.next, r.found);
    }
  }

  /** The search never leaves a closed set that holds what was found and the matching frontier faces. */
  lemma {:induction false} SpreadWithin(es: seq<Edge>, fs: seq<Face>, key: Option<ImageName>, list: seq<nat>, found: set<nat>, c: set<nat>)
    requires Linkable(es, fs) && InRange(list, |fs|) && SetInRange(found, |fs|) && SetInRange(c, |fs|)
    requires Closed(es, fs, key, c) && found <= c
    requires forall k :: 0 <= k < |list| && Matches(fs, key, list[k]) ==> list[k] in c
    ensures Spread(es, fs, key, list, found) <= c
    decreases list != [], Unvisited(|fs|, found)
  {
    if list != [] {
      var r := PassOver(es, fs, key, list, found);
      PassWithin(es, fs, key, list, found, c);
      PassGrows(es, fs, key, list, found);
      SpreadWithin(es, fs, key, r.next, r.found, c);
    }
  }

  // ---------------------------------------------------------------- linked mode

  /** Every face of the linked result matches the key, so it is also in the global result. */
  lemma LinkedWithinGlobal(es: seq<Edge>, fs: seq<Face>, key: Option<ImageName>, seeds: seq<nat>)
    requires Linkable(es, fs) && InRange(seeds, |fs|)
    ensures LinkedSelection(es, fs, key, seeds) <= GlobalSelection(fs, key)
  {
    SpreadMatches(es, fs, key, seeds, {});
  }

  /** Every seed face that matches the key is in the linked result. */
  lemma LinkedHasMatchingSeeds(es: seq<Edge>, fs: seq<Face>, key: Option<ImageName>, seeds: seq<nat>)
    requires Linkable(es, fs) && InRange(seeds, |fs|)
    ensures forall k :: 0 <= k < |seeds| && Matches(fs, key, seeds[k]) ==> seeds[k] in LinkedSelection(es, fs, key, seeds)
  {
    SpreadKeeps(es, fs, key, seeds, {});
  }

  /** The linked result contains every matching neighbour of each of its faces. */
  lemma LinkedIsClosed(es: seq<Edge>, fs: seq<Face>, key: Option<ImageName>, seeds: seq<nat>)
    requires Linkable(es, fs) && InRange(seeds, |fs|)
    ensures Closed(es, fs, key, LinkedSelection(es, fs, key, seeds))
  {
    SpreadClosed(es, fs, key, seeds, {});
  }

  /** The linked result lies inside every closed set that holds the matching seeds: a face is
   *  found only through a chain of matching, edge-adjacent faces from a seed. */
  lemma LinkedIsLeast(es: seq<Edge>, fs: seq<Face>, key: Option<ImageName>, seeds: seq<nat>, c: set<nat>)
    requires Linkable(es, fs) && InRange(seeds, |fs|) && SetInRange(c, |fs|)
    requires Closed(es, fs, key, c)
    requires forall k :: 0 <= k < |seeds| && Matches(fs, key, seeds[k]) ==> seeds[k] in c
    ensures LinkedSelection(es, fs, key, seeds) <= c
  {
    SpreadWithin(es, fs, key, seeds, {}, c);
  }

  // ---------------------------------------------------------------- the operation

  /** The anchor: the last history entry if it is a face, otherwise the first selected face. */
  function Anchor(fs: seq<Face>, h: Option<Elem>): (a: nat)
    requires SelectedFaces(fs) != [] && (h.Some? && h.value.F? ==> h.value.i < |fs|)
    ensures a < |fs|
  {
    assert SelectedFaces(fs)[0] in SelectedFaces(fs);
    if h.Some? && h.value.F? then h.value.i else SelectedFaces(fs)[0]
  }

  /**
   * `select_faces_with_same_image`, up to applying the flags: None when no face is
   * selected (the error report), otherwise the faces to flag as selected.
   */
  function ImageSelection(es: seq<Edge>, fs: seq<Face>, h: Option<Elem>, mustBeLinked: bool): (r: Option<set<nat>>)
    requires Linkable(es, fs) && (h.Some? && h.value.F? ==> h.value.i < |fs|)
    ensures r.None? <==> SelectedFaces(fs) == []
  {
    var selected := SelectedFaces(fs);
    if selected == [] then None
    else
      assert forall k :: 0 <= k < |selected| ==> selected[k] in selected;
      var key := fs[Anchor(fs, h)].image;
      Some(if mustBeLinked then LinkedSelection(es, fs, key, selected) else GlobalSelection(fs, key))
  }

  /** Setting the selection flag of the listed faces; nothing is cleared, nothing else changes. */
  function ApplySelection(fs: seq<Face>, s: set<nat>): (r: seq<Face>)
    ensures |r| == |fs|
    ensures forall i :: 0 <= i < |fs| ==> r[i] == fs[i].(select := fs[i].select || i in s)
  {
    seq(|fs|, i requires 0 <= i < |fs| => if i in s then fs[i].(select := true) else fs[i])
  }

  /**
   * The faces flagged by either mode all carry the anchor's image; global mode flags
   * exactly those; both modes flag every selected face that carries it, the anchor
   * included when it is selected (it always is when it comes from the fallback).
   */
  lemma ImageSelectionMeaning(es: seq<Edge>, fs: seq<Face>, h: Option<Elem>, mustBeLinked: bool)
    requires Linkable(es, fs) && (h.Some? && h.value.F? ==> h.value.i < |fs|)
    ensures var r := ImageSelection(es, fs, h, mustBeLinked);
      r.Some? ==>
        var a := Anchor(fs, h);
        && r.value <= GlobalSelection(fs, fs[a].image)
        && (!mustBeLinked ==> r.value == GlobalSelection(fs, fs[a].image))
        && (forall i :: 0 <= i < |fs| && fs[i].select && fs[i].image == fs[a].image ==> i in r.value)
        && (!(h.Some? && h.value.F?) ==> fs[a].select)
        && (fs[a].select ==> a in r.value)
  {
    var selected := SelectedFaces(fs);
    if selected != [] {
      assert forall k :: 0 <= k < |selected| ==> selected[k] in selected;
      var a := Anchor(fs, h);
      var key := fs[a].image;
      assert selected[0] in selected;
      if mustBeLinked {
        LinkedWithinGlobal(es, fs, key, selected);
        LinkedHasMatchingSeeds(es, fs, key, selected);
        forall i | 0 <= i < |fs| && fs[i].select && fs[i].image == key
          ensures i in LinkedSelection(es, fs, key, selected)
        {
          assert i in selected;
          var k :| 0 <= k < |selected| && selected[k] == i;
        }
      }
    }
  }

  // ---------------------------------------------------------------- assigning an image

  /** `assign_image_to_selected_faces_by_name` once the image is found: every selected face gets it. */
  function AssignedImage(fs: seq<Face>, name: ImageName): (r: seq<Face>)
    ensures |r| == |fs|
    ensures forall i :: 0 <= i < |fs| ==> r[i].image == (if fs[i].select then Some(name) else fs[i].image)
    ensures forall i :: 0 <= i < |fs| ==> r[i].(image := fs[i].image) == fs[i]
  {
    seq(|fs|, i requires 0 <= i < |fs| => if fs[i].select then fs[i].(image := Some(name)) else fs[i])
  }

  /** After assigning an image to the selected faces, global image selection by that image
   *  finds exactly the selected faces and the faces that already carried it. */
  lemma AssignedFacesMatch(fs: seq<Face>, name: ImageName)
    ensures GlobalSelection(AssignedImage(fs, name), Some(name)) ==
      set i: nat | i < |fs| && (fs[i].select || fs[i].image == Some(name))
  {
  }
}
