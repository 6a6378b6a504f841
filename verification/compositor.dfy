/**
 * The terminal screen's window list: placing a new window on the screen
 * (`position_window`) and redrawing every window from a reset terminal, as
 * happens when a window is unregistered.
 */
module Compositor {
  import opened Ints
  import opened UiDefs
  import opened TermSurface
  import opened Wrappers
  import RenderTarget
  import opened DiffRender

  //{{{ Placement

  /** What the placement needs to know of a registered window: its id and its screen area. */
  datatype Placed = Placed(id: nat, area: Rect)

  /** `find_if` on the window list: the first window with id `id`. */
  function FindWindow(ws: seq<Placed>, id: nat): (r: Option<nat>)
    ensures r.Some? ==> r.value < |ws| && ws[r.value].id == id && forall j :: 0 <= j < r.value ==> ws[j].id != id
    ensures r.None? ==> forall j :: 0 <= j < |ws| ==> ws[j].id != id
  {
    if ws == [] then None
    else if ws[0].id == id then Some(0)
    else match FindWindow(ws[1..], id)
      case None => None
      case Some(i) => Some(i + 1)
  }

  /** C++ `int` division by two, which truncates toward zero. */
  function Half(n: int): (r: int)
    ensures n >= 0 ==> 0 <= n - 2 * r <= 1
    ensures n < 0 ==> -1 <= n - 2 * r <= 0
  {
    if n >= 0 then n / 2 else -((-n) / 2)
  }

  /**
   * `position_window`: the requested area is in parent coordinates (the
   * screen's when the parent is not registered); a zero width or height
   * takes the parent's; a toplevel window or a dialog is centred
   * horizontally and put against the bottom edge of its parent; the
   * result is clipped to the screen.
   */
  function PositionWindow(ws: seq<Placed>, scr: Size, info: WindowInfo): (r: Rect)
    ensures WellFormed(RectOfSize(scr)) ==> Within(RectOfSize(scr), r) && Clip(RectOfSize(scr), r) == r
  {
    var parwin := FindWindow(ws, info.parent);
    var scrarea := RectOfSize(scr);
    var pararea := if parwin.Some? then ws[parwin.value].area else scrarea;
    var moved := MoveBy(info.area, PointAsOffset(Pos(pararea)));
    var sized := moved.(w := if moved.w == 0 then pararea.w else moved.w, h := if moved.h == 0 then pararea.h else moved.h);
    var placed :=
      if parwin.None? || info.wtype == Dialog then
        sized.(x := WrapI16(pararea.x + Half(pararea.w - sized.w)), y := WrapI16(pararea.y + pararea.h - sized.h))
      else sized;
    var r := Clip(scrarea, placed);
    if WellFormed(scrarea) then ClipWithinUnchanged(scrarea, r); r else r
  }

  /** A toplevel window that fits on the screen is centred horizontally and sits on the bottom row. */
  lemma ToplevelCentred(ws: seq<Placed>, scr: Size, info: WindowInfo)
    requires FindWindow(ws, info.parent).None? && scr.w < 0x8000 && scr.h < 0x8000
    requires 0 < info.area.w <= scr.w && 0 < info.area.h <= scr.h
    ensures PositionWindow(ws, scr, info) == Rect((scr.w - info.area.w) / 2, scr.h - info.area.h, info.area.w, info.area.h)
  {
    var placed := Rect((scr.w - info.area.w) / 2, scr.h - info.area.h, info.area.w, info.area.h);
    ClipWithinUnchanged(RectOfSize(scr), placed);
  }

  /** A toplevel window asking for no size gets the whole screen. */
  lemma ZeroSizeFillsScreen(ws: seq<Placed>, scr: Size, info: WindowInfo)
    requires FindWindow(ws, info.parent).None? && scr.w < 0x8000 && scr.h < 0x8000
    requires info.area.w == 0 && info.area.h == 0
    ensures PositionWindow(ws, scr, info) == RectOfSize(scr)
  {
    ClipWithinUnchanged(RectOfSize(scr), RectOfSize(scr));
  }

  /**
   * A child window that is not a dialog keeps its requested size, at its
   * requested position relative to its parent, when that lies on the screen.
   */
  lemma ChildAtParentOffset(ws: seq<Placed>, scr: Size, info: WindowInfo)
    requires FindWindow(ws, info.parent).Some? && info.wtype != Dialog && scr.w < 0x8000 && scr.h < 0x8000
    requires info.area.w > 0 && info.area.h > 0
    requires var par := ws[FindWindow(ws, info.parent).value].area;
      0 <= par.x + info.area.x && par.x + info.area.x + info.area.w <= scr.w &&
      0 <= par.y + info.area.y && par.y + info.area.y + info.area.h <= scr.h
    ensures var par := ws[FindWindow(ws, info.parent).value].area;
      PositionWindow(ws, scr, info) == Rect(par.x + info.area.x, par.y + info.area.y, info.area.w, info.area.h)
  {
    var par := ws[FindWindow(ws, info.parent).value].area;
    var placed := Rect(par.x + info.area.x, par.y + info.area.y, info.area.w, info.area.h);
    assert MoveBy(info.area, PointAsOffset(Pos(par))) == placed;
    ClipWithinUnchanged(RectOfSize(scr), placed);
  }

  /** A dialog no larger than its on-screen parent is centred across it and put against its bottom edge. */
  lemma DialogCentredOnParent(ws: seq<Placed>, scr: Size, info: WindowInfo)
    requires FindWindow(ws, info.parent).Some? && info.wtype == Dialog && scr.w < 0x8000 && scr.h < 0x8000
    requires var par := ws[FindWindow(ws, info.parent).value].area;
      Within(RectOfSize(scr), par) && 0 < info.area.w <= par.w && 0 < info.area.h <= par.h
    ensures var par := ws[FindWindow(ws, info.parent).value].area;
      PositionWindow(ws, scr, info) == Rect(par.x + (par.w - info.area.w) / 2, par.y + par.h - info.area.h, info.area.w, info.area.h)
  {
    var par := ws[FindWindow(ws, info.parent).value].area;
    var placed := Rect(par.x + (par.w - info.area.w) / 2, par.y + par.h - info.area.h, info.area.w, info.area.h);
    ClipWithinUnchanged(RectOfSize(scr), placed);
  }

  //}}}
  //{{{ Redrawing every window

  /** A window list the renderer accepts: every window placed on the screen, every cell drawable. */
  predicate AllFit(s: Screen, ws: seq<RenderTarget.Window>)
  {
    forall i :: 0 <= i < |ws| ==> FitsScreen(s, ws[i]) && AllDrawable(ws[i])
  }

  /**
   * `draw_window` on each window in list order, bottom to top: as written
   * when `fixed` is false, with the corrected cell loop when it is true.
   */
  function DrawAll(s: Screen, ws: seq<RenderTarget.Window>, fixed: bool): (r: (Screen, seq<TermOp>))
    requires ValidScreen(s) && AllFit(s, ws)
    ensures ValidScreen(r.0) && r.0.size == s.size
    ensures ws == [] ==> r == (s, [])
    decreases |ws|
  {
    if ws == [] then (s, [])
    else
      var r1 := DrawWindowWith(s, ws[0], fixed);
      var r2 := DrawAll(r1.0, ws[1..], fixed);
      (r2.0, r1.1 + r2.1)
  }

  /**
   * `unregister_window`'s redraw of the remaining windows: a full reset,
   * then every window in order, with `draw_window` as written or corrected.
   */
  function RedrawAll(s: Screen, ws: seq<RenderTarget.Window>, fixed: bool): (r: (Screen, seq<TermOp>))
    requires ValidScreen(s) && AllFit(s, ws)
    ensures ValidScreen(r.0) && r.0.size == s.size
  {
    var r0 := ScreenReset(s);
    var r1 := DrawAll(r0.0, ws, fixed);
    (r1.0, r0.1 + r1.1)
  }

  /** Every cell of window `w` is on the terminal, as substituted for display. */
  predicate ShowsWindow(t: Term, w: RenderTarget.Window)
    requires ValidSurface(w.surface) && w.surface.sz == RectSize(w.area)
  {
    forall y, x :: 0 <= y < w.area.h && 0 <= x < w.area.w ==>
      0 <= w.area.y + y < |t.display| && 0 <= w.area.x + x < |t.display[w.area.y + y]| &&
      t.display[w.area.y + y][w.area.x + x] == LookOf(Substitute(At(w.surface, x, y)))
  }

  /**
   * With the corrected `draw_window`, drawing a list of windows keeps the
   * terminal in step, and the topmost window is shown whole.
   */
  lemma {:induction false} DrawAllSynced(s: Screen, t: Term, ws: seq<RenderTarget.Window>)
    requires Synced(s, t) && AllFit(s, ws)
    ensures var r := DrawAll(s, ws, true); var t' := Interpret(t, r.1);
      Synced(r.0, t') && (ws != [] ==> ShowsWindow(t', ws[|ws| - 1]))
    decreases |ws|
  {
    if ws != [] {
      var r1 := DrawWindow(s, ws[0]);
      DrawWindowShown(s, t, ws[0]);
      DrawAllUnfold(s, t, ws);
      if |ws| > 1 {
        DrawAllSynced(r1.0, Interpret(t, r1.1), ws[1..]);
        assert ws[1..][|ws[1..]| - 1] == ws[|ws| - 1];
      }
    }
  }

  /** The corrected `DrawAll` draws the first window, then the rest on the screen it leaves. */
  lemma DrawAllUnfold(s: Screen, t: Term, ws: seq<RenderTarget.Window>)
    requires ValidScreen(s) && AllFit(s, ws) && ws != []
    ensures var r1 := DrawWindow(s, ws[0]); var r2 := DrawAll(r1.0, ws[1..], true);
      AllFit(r1.0, ws[1..]) && DrawAll(s, ws, true).0 == r2.0 &&
      Interpret(t, DrawAll(s, ws, true).1) == Interpret(Interpret(t, r1.1), r2.1) &&
      (|ws| == 1 ==> r2 == (r1.0, []) && Interpret(t, DrawAll(s, ws, true).1) == Interpret(t, r1.1))
  {
    var r1 := DrawWindow(s, ws[0]);
    assert AllFit(r1.0, ws[1..]);
    var r2 := DrawAll(r1.0, ws[1..], true);
    InterpretAppend(t, r1.1, r2.1);
  }

  /** `DrawWindowShowsWindow`, in terms of `ShowsWindow`. */
  lemma DrawWindowShown(s: Screen, t: Term, w: RenderTarget.Window)
    requires Synced(s, t) && FitsScreen(s, w) && AllDrawable(w)
    ensures var r := DrawWindow(s, w); var t' := Interpret(t, r.1);
      Synced(r.0, t') && ShowsWindow(t', w)
  {
    DrawWindowShowsWindow(s, t, w);
  }

  /**
   * With the corrected `draw_window`, whatever the terminal showed before,
   * redrawing every window leaves it in step, the topmost window on top.
   */
  lemma RedrawAllSynced(s: Screen, t: Term, ws: seq<RenderTarget.Window>)
    requires ValidScreen(s) && AllFit(s, ws) && ValidTerm(t) && t.size == s.size && t.caretShown == s.caretOn
    ensures var r := RedrawAll(s, ws, true); var t' := Interpret(t, r.1);
      Synced(r.0, t') && (ws != [] ==> ShowsWindow(t', ws[|ws| - 1]))
  {
    var r0 := ScreenReset(s);
    ResetSyncs(s, t);
    var t0 := Interpret(t, r0.1);
    assert AllFit(r0.0, ws);
    DrawAllSynced(r0.0, t0, ws);
    InterpretAppend(t, r0.1, DrawAll(r0.0, ws, true).1);
  }

  //}}}
}
