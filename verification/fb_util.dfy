/**
  libfb's utility routines: the simulated view and cursor of a frame
  buffer that keeps them in its own record, the window and zoom
  operations built on them, and the backward-compatibility stubs.
*/
module FbUtil {
  import opened Wrappers

  /** The view a frame buffer shows: the center pixel and the zoom factors. */
  datatype View = View(xcenter: int, ycenter: int, xzoom: int, yzoom: int)

  /** The cursor: its mode and position. */
  datatype Cursor = Cursor(mode: int, x: int, y: int)

  /** The part of a frame buffer these routines touch, plus its size, which they never touch. */
  datatype Fb = Fb(view: View, cursor: Cursor, width: int, height: int)

  /** A frame buffer after a call, with the status the call returns. */
  datatype Updated = Updated(fb: Fb, status: int)

  /** fb_sim_view: store the center and zoom in the record. */
  function SimView(fb: Fb, xcenter: int, ycenter: int, xzoom: int, yzoom: int): (r: Updated)
    ensures r.status == 0
    ensures r.fb.cursor == fb.cursor && r.fb.width == fb.width && r.fb.height == fb.height
  {
    Updated(fb.(view := View(xcenter, ycenter, xzoom, yzoom)), 0)
  }

  /** What fb_sim_getview writes through its four pointers, and its status. */
  datatype ViewReply = ViewReply(status: int, view: View)

  /** fb_sim_getview: read the center and zoom back from the record. */
  function SimGetview(fb: Fb): (r: ViewReply)
    ensures r.status == 0
  {
    ViewReply(0, fb.view)
  }

  /** fb_sim_cursor: store the cursor mode and position in the record. */
  function SimCursor(fb: Fb, mode: int, x: int, y: int): (r: Updated)
    ensures r.status == 0
    ensures r.fb.view == fb.view && r.fb.width == fb.width && r.fb.height == fb.height
  {
    Updated(fb.(cursor := Cursor(mode, x, y)), 0)
  }

  /** What fb_sim_getcursor writes through its three pointers, and its status. */
  datatype CursorReply = CursorReply(status: int, cursor: Cursor)

  /** fb_sim_getcursor: read the cursor back from the record. */
  function SimGetcursor(fb: Fb): (r: CursorReply)
    ensures r.status == 0
  {
    CursorReply(0, fb.cursor)
  }

  /** Setting a view and reading it back gives the values set. */
  lemma ViewRoundTrip(fb: Fb, xcenter: int, ycenter: int, xzoom: int, yzoom: int)
    ensures SimGetview(SimView(fb, xcenter, ycenter, xzoom, yzoom).fb) == ViewReply(0, View(xcenter, ycenter, xzoom, yzoom))
  {
  }

  /** Setting the view just read changes nothing. */
  lemma GetviewThenView(fb: Fb)
    ensures var v := SimGetview(fb).view;
      SimView(fb, v.xcenter, v.ycenter, v.xzoom, v.yzoom) == Updated(fb, 0)
  {
  }

  /** Setting a cursor and reading it back gives the values set. */
  lemma CursorRoundTrip(fb: Fb, mode: int, x: int, y: int)
    ensures SimGetcursor(SimCursor(fb, mode, x, y).fb) == CursorReply(0, Cursor(mode, x, y))
  {
  }

  /** Setting the cursor just read changes nothing. */
  lemma GetcursorThenCursor(fb: Fb)
    ensures var c := SimGetcursor(fb).cursor;
      SimCursor(fb, c.mode, c.x, c.y) == Updated(fb, 0)
  {
  }

  /** The view and the cursor are independent: either setter leaves the other getter's answer alone, and they commute. */
  lemma ViewAndCursorIndependent(fb: Fb, xcenter: int, ycenter: int, xzoom: int, yzoom: int, mode: int, x: int, y: int)
    ensures SimGetcursor(SimView(fb, xcenter, ycenter, xzoom, yzoom).fb) == SimGetcursor(fb)
    ensures SimGetview(SimCursor(fb, mode, x, y).fb) == SimGetview(fb)
    ensures SimCursor(SimView(fb, xcenter, ycenter, xzoom, yzoom).fb, mode, x, y).fb
      == SimView(SimCursor(fb, mode, x, y).fb, xcenter, ycenter, xzoom, yzoom).fb
  {
  }

  /** A call on a possibly null frame buffer: the buffer afterwards, and the status. */
  datatype Outcome = Outcome(fb: Option<Fb>, status: int)

  /** fb_reset: a null buffer is allowed; nothing is done and the status is 0. */
  function Reset(fb: Option<Fb>): (r: Outcome)
    ensures r.fb == fb && r.status == 0
  {
    Outcome(fb, 0)
  }

  /** fb_viewport: the rectangle is ignored; nothing is done and the status is 0. */
  function Viewport(fb: Option<Fb>, left: int, top: int, right: int, bottom: int): (r: Outcome)
    ensures r.fb == fb && r.status == 0
  {
    Outcome(fb, 0)
  }

  /** fb_scursor: the cursor arguments are ignored; nothing is done and the status is 0. */
  function Scursor(fb: Option<Fb>, mode: int, x: int, y: int): (r: Outcome)
    ensures r.fb == fb && r.status == 0
  {
    Outcome(fb, 0)
  }

  /**
    fb_window: read the view, replace its center, and set it again; a null
    buffer returns 0. The buffer's view routines are the simulated ones.
  */
  function Window(fb: Option<Fb>, x: int, y: int): (r: Outcome)
    ensures fb.None? ==> r == Outcome(None, 0)
    ensures fb.Some? ==> r.fb.Some? && r.status == 0
    ensures fb.Some? ==> r.fb.value.view.xcenter == x && r.fb.value.view.ycenter == y
    ensures fb.Some? ==> r.fb.value.view.xzoom == fb.value.view.xzoom && r.fb.value.view.yzoom == fb.value.view.yzoom
    ensures fb.Some? ==> r.fb.value.cursor == fb.value.cursor
  {
    match fb
    case None => Outcome(None, 0)
    case Some(f) =>
      var current := SimGetview(f).view;
      var stored := SimView(f, x, y, current.xzoom, current.yzoom);
      Outcome(Some(stored.fb), stored.status)
  }

  /**
    fb_zoom: read the view, replace its zoom, and set it again; a null
    buffer returns 0. The buffer's view routines are the simulated ones.
  */
  function Zoom(fb: Option<Fb>, x: int, y: int): (r: Outcome)
    ensures fb.None? ==> r == Outcome(None, 0)
    ensures fb.Some? ==> r.fb.Some? && r.status == 0
    ensures fb.Some? ==> r.fb.value.view.xzoom == x && r.fb.value.view.yzoom == y
    ensures fb.Some? ==> r.fb.value.view.xcenter == fb.value.view.xcenter && r.fb.value.view.ycenter == fb.value.view.ycenter
    ensures fb.Some? ==> r.fb.value.cursor == fb.value.cursor
  {
    match fb
    case None => Outcome(None, 0)
    case Some(f) =>
      var current := SimGetview(f).view;
      var stored := SimView(f, current.xcenter, current.ycenter, x, y);
      Outcome(Some(stored.fb), stored.status)
  }

  /** Windowing on the current center, or zooming to the current zoom, changes nothing. */
  lemma WindowAndZoomInPlace(f: Fb)
    ensures Window(Some(f), f.view.xcenter, f.view.ycenter) == Outcome(Some(f), 0)
    ensures Zoom(Some(f), f.view.xzoom, f.view.yzoom) == Outcome(Some(f), 0)
  {
  }

  /** Window and zoom touch different halves of the view, so their order does not matter. */
  lemma WindowZoomCommute(fb: Option<Fb>, cx: int, cy: int, zx: int, zy: int)
    ensures Window(Zoom(fb, zx, zy).fb, cx, cy) == Zoom(Window(fb, cx, cy).fb, zx, zy)
  {
  }

  /** A window followed by a zoom sets the whole view, as one fb_sim_view call would. */
  lemma WindowThenZoomIsView(f: Fb, cx: int, cy: int, zx: int, zy: int)
    ensures Zoom(Window(Some(f), cx, cy).fb, zx, zy) == Outcome(Some(SimView(f, cx, cy, zx, zy).fb), 0)
  {
  }
}
