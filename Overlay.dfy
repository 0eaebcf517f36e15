/**
 * The cursor overlay: a 100x100 window that follows the cursor, placed so
 * that it stays on screen.
 */
module Overlay {
  import opened Motion

  /** Side of the square overlay window, in pixels. */
  const OverlaySize: int := 100

  /**
   * The top-left coordinate of the overlay window centred on `centre` along
   * one screen axis: the centred position capped at the far edge, then
   * raised to zero. The window always starts on screen; on a screen at
   * least as large as the window it also ends on screen; a position that
   * fits is kept, and one that does not lands exactly on the nearer edge.
   */
  function OverlayOrigin(screenSize: int, centre: real): (o: real)
    ensures o >= 0.0
    ensures screenSize >= OverlaySize ==> o + OverlaySize as real <= screenSize as real
    ensures screenSize < OverlaySize ==> o == 0.0
    ensures 0.0 <= centre - (OverlaySize / 2) as real <= (screenSize - OverlaySize) as real
            ==> o == centre - (OverlaySize / 2) as real
    ensures centre - (OverlaySize / 2) as real <= 0.0 ==> o == 0.0
    ensures screenSize >= OverlaySize && centre - (OverlaySize / 2) as real >= (screenSize - OverlaySize) as real
            ==> o == (screenSize - OverlaySize) as real
  {
    var upper := (screenSize - OverlaySize) as real;
    var wanted := centre - (OverlaySize / 2) as real;
    var capped := if upper <= wanted then upper else wanted;
    if capped > 0.0 then capped else 0.0
  }

  /** The clamped origin is the on-screen origin nearest to the centred one. */
  lemma OverlayOriginIsNearest(screenSize: int, centre: real, p: real)
    requires screenSize >= OverlaySize
    requires 0.0 <= p <= (screenSize - OverlaySize) as real
    ensures Abs(OverlayOrigin(screenSize, centre) - (centre - (OverlaySize / 2) as real))
            <= Abs(p - (centre - (OverlaySize / 2) as real))
  {
  }
}
