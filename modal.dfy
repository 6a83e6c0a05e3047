/**
 * The key-driven modal operators. Each handler looks at one key event and
 * answers running (wait for the next event), finished or cancelled; the slot
 * operators also read and write the session-wide table of stored image names.
 */
module Modal {
  import opened Wrappers
  import opened Geometry
  import opened MeshModel
  import opened ImageMatch
  import opened Alignment
  import opened Editor

  /** What a modal handler returns to the host. */
  datatype Status = RunningModal | Finished | Cancelled

  /** The parts of a key event the handlers read: the typed text and the key's type name. */
  datatype Event = Event(unicode: string, kind: string)

  /** `valid_texkeys`: the ten digit keys. */
  const TexKeys: set<string> := {"1", "2", "3", "4", "5", "6", "7", "8", "9", "0"}

  /** `cubemap_scales`, with the scales as exact quarters. */
  const CubemapScales: map<string, real> := map[
    "1" := 0.25, "2" := 0.5, "3" := 0.75, "4" := 1.0, "5" := 1.25,
    "6" := 1.5, "7" := 1.75, "8" := 2.0, "9" := 2.25, "0" := 2.5]

  /** A single decimal digit typed as text. */
  predicate IsDigitKey(k: string)
  {
    |k| == 1 && '0' <= k[0] <= '9'
  }

  /** The number a digit key stands for on a row of keys 1 … 9, 0, with 0 as ten. */
  function KeyNumber(k: string): (n: nat)
    requires IsDigitKey(k)
    ensures 1 <= n <= 10 && n % 10 == k[0] as int - '0' as int
  {
    if k[0] == '0' then 10 else k[0] as int - '0' as int
  }

  /** The slot keys are exactly the one-character digit strings. */
  lemma TexKeysAreDigits(k: string)
    ensures k in TexKeys <==> IsDigitKey(k)
  {
    if IsDigitKey(k) {
      assert k == [k[0]];
    }
  }

  /** The cube scales are keyed by the slot keys and key `d` scales by a quarter of its number. */
  lemma CubemapScalesAreQuarters(k: string)
    ensures k in CubemapScales <==> IsDigitKey(k)
    ensures IsDigitKey(k) ==> CubemapScales[k] == KeyNumber(k) as real * 0.25
  {
    TexKeysAreDigits(k);
    assert CubemapScales.Keys == TexKeys;
  }

  // ------------------------------------------------------------ QuickCubeMapModal

  /**
   * `QuickCubeMapModal.modal`: the status returned and the scale the cube
   * projection is run with, if it is run.
   */
  function QuickCubeMapModal(ev: Event): (r: (Status, Option<real>))
    ensures r.1.Some? <==> r.0 == Finished
    ensures r.0 == Finished <==> IsDigitKey(ev.unicode)
    ensures r.1.Some? ==> r.1.value == KeyNumber(ev.unicode) as real * 0.25
    ensures r.0 == Cancelled <==> !IsDigitKey(ev.unicode) && ev.kind == "ESC"
  {
    CubemapScalesAreQuarters(ev.unicode);
    if ev.unicode in CubemapScales then
      (Finished, Some(CubemapScales[ev.unicode]))
    else if ev.kind == "ESC" then
      (Cancelled, None)
    else
      (RunningModal, None)
  }

  /** Key 1 projects at a quarter, key 4 at unit scale and key 0 at two and a half. */
  lemma QuickCubeMapExamples()
    ensures QuickCubeMapModal(Event("1", "ONE")) == (Finished, Some(0.25))
    ensures QuickCubeMapModal(Event("4", "FOUR")) == (Finished, Some(1.0))
    ensures QuickCubeMapModal(Event("0", "ZERO")) == (Finished, Some(2.5))
    ensures QuickCubeMapModal(Event("", "ESC")) == (Cancelled, None)
    ensures QuickCubeMapModal(Event("a", "A")) == (RunningModal, None)
  {
    assert IsDigitKey("1") && IsDigitKey("4") && IsDigitKey("0");
  }

  // ------------------------------------------------------------ PickImageModal

  /**
   * `PickImageModal.modal` on the table of stored image names: a slot key stores
   * the active face's image name under that key and finishes.
   */
  function PickImage(stored: map<string, ImageName>, ev: Event, activeImage: ImageName): (r: (Status, map<string, ImageName>))
    ensures r.0 == Finished <==> IsDigitKey(ev.unicode)
    ensures r.0 == Cancelled <==> !IsDigitKey(ev.unicode) && ev.kind == "ESC"
    ensures r.0 == Finished ==> ev.unicode in r.1 && r.1[ev.unicode] == activeImage
    ensures r.1 - {ev.unicode} == stored - {ev.unicode}
    ensures r.0 != Finished ==> r.1 == stored
  {
    TexKeysAreDigits(ev.unicode);
    if ev.unicode in TexKeys then
      (Finished, stored[ev.unicode := activeImage])
    else if ev.kind == "ESC" then
      (Cancelled, stored)
    else
      (RunningModal, stored)
  }

  // ------------------------------------------------------------ AssignImageModal

  /**
   * `AssignImageModal.modal` on the table of stored image names: the status
   * returned and the name handed to `assign_image_to_selected_faces_by_name`.
   * A slot key on an empty slot cancels.
   */
  function AssignImage(stored: map<string, ImageName>, ev: Event): (r: (Status, Option<ImageName>))
    ensures r.1.Some? <==> r.0 == Finished
    ensures r.0 == Finished <==> IsDigitKey(ev.unicode) && ev.unicode in stored
    ensures r.1.Some? ==> r.1.value == stored[ev.unicode]
    ensures r.0 == Cancelled <==>
      (IsDigitKey(ev.unicode) && ev.unicode !in stored) || (!IsDigitKey(ev.unicode) && ev.kind == "ESC")
  {
    TexKeysAreDigits(ev.unicode);
    if ev.unicode in TexKeys then
      if ev.unicode in stored then (Finished, Some(stored[ev.unicode])) else (Cancelled, None)
    else if ev.kind == "ESC" then
      (Cancelled, None)
    else
      (RunningModal, None)
  }

  /** Assigning from the slot just picked hands on the picked name, whatever the other slots hold. */
  lemma AssignAfterPick(stored: map<string, ImageName>, pick: Event, assign: Event, name: ImageName)
    requires IsDigitKey(pick.unicode) && assign.unicode == pick.unicode
    ensures AssignImage(PickImage(stored, pick, name).1, assign) == (Finished, Some(name))
  {
  }

  /** Picking into one slot leaves what assigning from any other slot does unchanged. */
  lemma PickKeepsOtherSlots(stored: map<string, ImageName>, pick: Event, assign: Event, name: ImageName)
    requires assign.unicode != pick.unicode
    ensures AssignImage(PickImage(stored, pick, name).1, assign) == AssignImage(stored, assign)
  {
    var after := PickImage(stored, pick, name).1;
    assert assign.unicode in after <==> assign.unicode in after - {pick.unicode};
    assert assign.unicode in stored <==> assign.unicode in stored - {pick.unicode};
    if assign.unicode in stored {
      assert (after - {pick.unicode})[assign.unicode] == (stored - {pick.unicode})[assign.unicode];
    }
  }

  // ------------------------------------------------------------ GridSnapModal, GridSnapMinorModal

  /** The axis an `X`, `Y` or `Z` key event selects. */
  function GridAxis(ev: Event): (r: Option<Axis>)
    ensures r == Some(X) <==> ev.kind == "X"
    ensures r == Some(Y) <==> ev.kind == "Y"
    ensures r == Some(Z) <==> ev.kind == "Z"
  {
    if ev.kind == "X" then Some(X)
    else if ev.kind == "Y" then Some(Y)
    else if ev.kind == "Z" then Some(Z)
    else None
  }

  /** The status of both grid-snap handlers: an axis key finishes, ESC cancels. */
  function GridSnapStatus(ev: Event): (s: Status)
    ensures s == Finished <==> GridAxis(ev).Some?
    ensures s == Cancelled <==> ev.kind == "ESC"
  {
    if GridAxis(ev).Some? then Finished
    else if ev.kind == "ESC" then Cancelled
    else RunningModal
  }

  /** The session-wide state of the add-on: `stored_images`. */
  class Session {
    var storedImages: map<string, ImageName>

    constructor ()
      ensures storedImages == map[]
    {
      storedImages := map[];
    }

    /** `PickImageModal.modal`; `activeImage` is the name of the active face's image. */
    method PickImageModal(ev: Event, activeImage: ImageName) returns (status: Status)
      modifies this
      ensures (status, storedImages) == PickImage(old(storedImages), ev, activeImage)
    {
      if ev.unicode in TexKeys {
        storedImages := storedImages[ev.unicode := activeImage];
        return Finished;
      }
      if ev.kind == "ESC" {
        return Cancelled;
      }
      return RunningModal;
    }

    /** `AssignImageModal.modal`; `images` are the names of the images the file holds. */
    method AssignImageModal(mesh: Mesh, ev: Event, images: seq<ImageName>) returns (status: Status)
      requires mesh.Valid()
      modifies mesh.faces
      ensures mesh.Valid()
      ensures var r := AssignImage(storedImages, ev);
        status == r.0 &&
        mesh.faces[..] == if r.1.Some? && r.1.value in images then AssignedImage(old(mesh.faces[..]), r.1.value) else old(mesh.faces[..])
    {
      if ev.unicode in TexKeys {
        if ev.unicode in storedImages {
          // the outcome of the search for the image does not change the status
          var _ := mesh.AssignImageToSelectedFacesByName(storedImages[ev.unicode], images);
          return Finished;
        } else {
          return Cancelled;
        }
      }
      if ev.kind == "ESC" {
        return Cancelled;
      }
      return RunningModal;
    }
  }

  /**
   * `GridSnapModal.modal`: an axis key snaps the selected vertices to the major
   * grid on that axis; `subdivisions` and `scale` are the viewport's grid settings.
   */
  method GridSnapModal(mesh: Mesh, ev: Event, subdivisions: nat, scale: real) returns (status: Status)
    requires GridAxis(ev).Some? ==> scale > 0.0
    modifies mesh.verts
    ensures status == GridSnapStatus(ev)
    ensures mesh.verts[..] == match GridAxis(ev)
      case Some(axis) => GridSnapped(old(mesh.verts[..]), axis, GridMultiplier(subdivisions, scale, false))
      case None => old(mesh.verts[..])
  {
    if ev.kind == "X" {
      mesh.AlignToGridOnAxis(X, false, subdivisions, scale);
      return Finished;
    }
    if ev.kind == "Y" {
      mesh.AlignToGridOnAxis(Y, false, subdivisions, scale);
      return Finished;
    }
    if ev.kind == "Z" {
      mesh.AlignToGridOnAxis(Z, false, subdivisions, scale);
      return Finished;
    }
    if ev.kind == "ESC" {
      return Cancelled;
    }
    return RunningModal;
  }

  /** `GridSnapMinorModal.modal`: as `GridSnapModal`, on the minor grid. */
  method GridSnapMinorModal(mesh: Mesh, ev: Event, subdivisions: nat, scale: real) returns (status: Status)
    requires GridAxis(ev).Some? ==> scale > 0.0 && subdivisions > 0
    modifies mesh.verts
    ensures status == GridSnapStatus(ev)
    ensures mesh.verts[..] == match GridAxis(ev)
      case Some(axis) => GridSnapped(old(mesh.verts[..]), axis, GridMultiplier(subdivisions, scale, true))
      case None => old(mesh.verts[..])
  {
    if ev.kind == "X" {
      mesh.AlignToGridOnAxis(X, true, subdivisions, scale);
      return Finished;
    }
    if ev.kind == "Y" {
      mesh.AlignToGridOnAxis(Y, true, subdivisions, scale);
      return Finished;
    }
    if ev.kind == "Z" {
      mesh.AlignToGridOnAxis(Z, true, subdivisions, scale);
      return Finished;
    }
    if ev.kind == "ESC" {
      return Cancelled;
    }
    return RunningModal;
  }
}
