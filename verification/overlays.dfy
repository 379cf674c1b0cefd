/**
 The overlay handle lifecycle of `overlay_image` (camera.py): the camera's compositor
 is modelled as the map of overlays currently on screen, keyed by handle.
 */
module Overlays {
  import opened Geometry

  /** What `overlay_image` returns when the overlay has already been removed. */
  const NO_OVERLAY: int := -1

  /** One overlay on screen: its padded pixel buffer, the size it was announced
      with, and the display layer it sits on. */
  datatype OnScreen = OnScreen(placement: Placement, layer: int)

  /** The compositor: the overlays on screen, and the handle the next one will get.
      Handles are positive, so none of them is the sentinel. */
  datatype Compositor = Compositor(active: map<int, OnScreen>, next: int)

  /** Every handle on screen was issued earlier: it is positive and below `next`. */
  predicate Valid(c: Compositor) {
    c.next >= 1 && forall id :: id in c.active ==> 1 <= id < c.next
  }

  /** A compositor with nothing on screen. */
  function Empty(): (c: Compositor)
    ensures Valid(c) && c.active == map[]
  {
    Compositor(map[], 1)
  }

  /** The result of one `overlay_image` call: the compositor afterwards and the
      handle returned to the caller. */
  datatype Shown = Shown(screen: Compositor, handle: int)

  /** `CAMERA.add_overlay`: puts an overlay on screen under a fresh handle. */
  function AddOverlay(c: Compositor, l: OnScreen): (r: Shown)
    requires Valid(c)
    ensures Valid(r.screen)
    ensures r.handle >= 1 && r.handle !in c.active
    ensures r.screen.active == c.active[r.handle := l]
  {
    Shown(Compositor(c.active[c.next := l], c.next + 1), c.next)
  }

  /** `CAMERA.remove_overlay`: takes the overlay with this handle off screen. */
  function RemoveOverlay(c: Compositor, id: int): (r: Compositor)
    requires Valid(c)
    ensures Valid(r)
    ensures id !in r.active
    ensures forall other :: other != id ==> (other in r.active <==> other in c.active)
    ensures forall other :: other in r.active ==> r.active[other] == c.active[other]
  {
    Compositor(c.active - {id}, c.next)
  }

  /** `overlay_image(image, duration, layer)` for an image of size `img`: fits and pads
      the image, adds it as an overlay announced with the fitted size, and, when a
      positive duration is given, removes it again after the hold and returns the
      sentinel; otherwise the overlay stays on screen and its handle is returned. */
  function OverlayImage(c: Compositor, img: Size, screenW: nat, duration: int, layer: int): (r: Shown)
    requires Valid(c)
    ensures Valid(r.screen)
    ensures duration > 0 ==> r.handle == NO_OVERLAY && r.screen.active == c.active
    ensures duration <= 0 ==> r.handle >= 1 && r.handle !in c.active
    ensures duration <= 0 ==>
      r.screen.active == c.active[r.handle := OnScreen(PlaceImage(img, screenW), layer)]
  {
    var added := AddOverlay(c, OnScreen(PlaceImage(img, screenW), layer));
    if duration > 0 then
      var removed := RemoveOverlay(added.screen, added.handle);
      assert removed.active == c.active;
      Shown(removed, NO_OVERLAY)
    else
      added
  }

  /** The overlay a caller keeps is announced with the fitted, unpadded size, and its
      buffer is the block-aligned padding of that size. */
  lemma KeptOverlayAnnouncesFittedSize(c: Compositor, img: Size, screenW: nat, layer: int)
    requires Valid(c)
    ensures var r := OverlayImage(c, img, screenW, 0, layer);
      && r.handle in r.screen.active
      && r.screen.active[r.handle].placement.size == FitToScreen(img, screenW)
      && r.screen.active[r.handle].placement.buffer == PadToBlocks(FitToScreen(img, screenW))
      && r.screen.active[r.handle].layer == layer
  {
  }

  /** Removing the handle of a kept overlay restores the screen as it was before. */
  lemma RemoveKeptOverlayRestores(c: Compositor, img: Size, screenW: nat, duration: int, layer: int)
    requires Valid(c)
    requires duration <= 0
    ensures var r := OverlayImage(c, img, screenW, duration, layer);
      RemoveOverlay(r.screen, r.handle).active == c.active
  {
    var r := OverlayImage(c, img, screenW, duration, layer);
    assert RemoveOverlay(r.screen, r.handle).active == c.active[r.handle := r.screen.active[r.handle]] - {r.handle};
  }
}
