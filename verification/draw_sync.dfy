/**
 * Draw coalescing in a terminal window: a draw request while the previous
 * frame is still being written is remembered as pending, and the vertical
 * sync event that ends the frame starts the pending draw instead of being
 * passed on, so several requests in one frame produce a single redraw.
 */
module DrawSync {

  /** The window's `f_DrawInProgress`, `f_DrawPending` and `f_Unused` flags. */
  datatype Flags = Flags(inProgress: bool, pending: bool, unused: bool)

  /** What a call did: whether it started a `draw_window`, and whether it forwarded the event to the owner. */
  datatype Outcome = Outcome(flags: Flags, drew: bool, forwarded: bool)

  /** `TerminalScreenWindow::draw`. */
  function Draw(f: Flags): (r: Outcome)
    ensures !r.forwarded && r.flags.unused == f.unused
    ensures r.drew <==> !f.inProgress && !f.unused
    ensures r.drew ==> r.flags.inProgress && !r.flags.pending
    ensures !r.drew ==> r.flags == f.(pending := true)
  {
    if f.inProgress || f.unused then Outcome(f.(pending := true), false, false)
    else Outcome(f.(pending := false, inProgress := true), true, false)
  }

  /** `TerminalScreenWindow::on_event` for a vertical sync (`vsync`) or any other event. */
  function OnEvent(f: Flags, vsync: bool): (r: Outcome)
    ensures r.flags.unused == f.unused
    ensures f.unused ==> r == Outcome(f, false, false)
  {
    if f.unused then Outcome(f, false, false)
    else if vsync && (f.inProgress || f.pending) then
      var f1 := f.(inProgress := false);
      if f1.pending then Draw(f1) else Outcome(f1, false, true)
    else Outcome(f, false, true)
  }

  /** A pending draw always waits on a frame in progress (or on an unused window). */
  predicate Inv(f: Flags)
  {
    f.pending ==> f.inProgress || f.unused
  }

  /** Drawing and event handling keep the invariant, so a pending draw is never stranded. */
  lemma InvPreserved(f: Flags, vsync: bool)
    requires Inv(f)
    ensures Inv(Draw(f).flags) && Inv(OnEvent(f, vsync).flags)
  {
  }

  /** At most one frame is in flight: a draw starts only when none is, and leaves one in progress. */
  lemma OneFrameInFlight(f: Flags, vsync: bool)
    ensures Draw(f).drew ==> !f.inProgress && Draw(f).flags.inProgress
    ensures OnEvent(f, vsync).drew ==> vsync && f.pending && OnEvent(f, vsync).flags.inProgress
  {
  }

  /** `n` draw requests in a row. */
  function DrawN(f: Flags, n: nat): (r: Flags)
    decreases n
  {
    if n == 0 then f else DrawN(Draw(f).flags, n - 1)
  }

  /**
   * Any number of draw requests during a frame start nothing and leave one
   * pending draw; the sync that ends the frame starts exactly one draw and
   * is not passed on.
   */
  lemma {:induction false} DrawsCoalesce(f: Flags, n: nat)
    requires f.inProgress && !f.unused && n > 0
    ensures var g := DrawN(f, n);
      g == f.(pending := true) && OnEvent(g, true) == Outcome(Flags(true, false, false), true, false)
    decreases n
  {
    if n > 1 {
      DrawsCoalesce(f.(pending := true), n - 1);
    }
  }

  /** With no draw pending, the sync ends the frame and is passed on to the owner. */
  lemma SyncWithoutPending(f: Flags)
    requires f.inProgress && !f.pending && !f.unused
    ensures OnEvent(f, true) == Outcome(f.(inProgress := false), false, true)
  {
  }

  /** Events other than a sync, and syncs with nothing to draw, are passed on unchanged. */
  lemma OtherEventsForwarded(f: Flags, vsync: bool)
    requires !f.unused && (!vsync || (!f.inProgress && !f.pending))
    ensures OnEvent(f, vsync) == Outcome(f, false, true)
  {
  }

  /** A window the sync loop treats as waiting on a frame. */
  predicate Busy(f: Flags)
  {
    f.inProgress || f.pending
  }

  /** How many of `fs` are busy. */
  function CountBusy(fs: seq<Flags>): (n: nat)
    ensures n <= |fs|
    ensures n == 0 <==> forall i :: 0 <= i < |fs| ==> !Busy(fs[i])
  {
    if fs == [] then 0 else (if Busy(fs[0]) then 1 else 0) + CountBusy(fs[1..])
  }

  /** `k` sync events delivered to one window. */
  function Syncs(f: Flags, k: nat): (r: Flags)
    ensures r.unused == f.unused
    ensures k == 0 ==> r == f
    decreases k
  {
    if k == 0 then f else Syncs(OnEvent(f, true).flags, k - 1)
  }

  /**
   * The loop after the output drains, as written: for each window that is
   * busy, the sync goes to the last (topmost) window, so only that window's
   * frames end. The last window is tested after the syncs before it.
   */
  function SyncAllAsWritten(fs: seq<Flags>): (r: seq<Flags>)
    ensures |r| == |fs|
    ensures forall i :: 0 <= i < |fs| - 1 ==> r[i] == fs[i]
  {
    if fs == [] then []
    else
      var n := |fs| - 1;
      var top := Syncs(fs[n], CountBusy(fs[..n]));
      fs[..n] + [if Busy(top) then OnEvent(top, true).flags else top]
  }

  /** The loop with each busy window given its own sync. */
  function SyncAllCorrected(fs: seq<Flags>): (r: seq<Flags>)
    ensures |r| == |fs|
  {
    seq(|fs|, i requires 0 <= i < |fs| => if Busy(fs[i]) then OnEvent(fs[i], true).flags else fs[i])
  }

  /**
   * With each window given its own sync, every window in use ends its
   * frame: nothing is left pending, and a window is drawing again exactly
   * when it had a draw pending.
   */
  lemma SyncAllCorrectedEndsFrames(fs: seq<Flags>)
    ensures var r := SyncAllCorrected(fs);
      forall i :: 0 <= i < |fs| && !fs[i].unused ==> !r[i].pending && (r[i].inProgress <==> fs[i].pending)
  {
    var r := SyncAllCorrected(fs);
    forall i | 0 <= i < |fs| && !fs[i].unused
      ensures !r[i].pending && (r[i].inProgress <==> fs[i].pending)
    {
      if Busy(fs[i]) {
        assert r[i] == OnEvent(fs[i], true).flags;
      }
    }
  }

  /** The two loops agree whenever no window below the top one is busy. */
  lemma SyncAllAgreesWhenOnlyTopBusy(fs: seq<Flags>)
    requires fs != [] && forall i :: 0 <= i < |fs| - 1 ==> !Busy(fs[i])
    ensures SyncAllAsWritten(fs) == SyncAllCorrected(fs)
  {
    var n := |fs| - 1;
    assert CountBusy(fs[..n]) == 0;
    var a, c := SyncAllAsWritten(fs), SyncAllCorrected(fs);
    forall i | 0 <= i < |fs|
      ensures a[i] == c[i]
    {
    }
  }

  /**
   * As written, a lower window in the middle of a frame is never sent the
   * sync: its frame stays in progress, so its next draw is only marked
   * pending; the idle top window is sent the sync instead and passes it on.
   */
  lemma SyncAllAsWrittenStrands()
    ensures var fs := [Flags(true, false, false), Flags(false, false, false)];
      var r := SyncAllAsWritten(fs);
      r == fs && SyncAllCorrected(fs) == [Flags(false, false, false), Flags(false, false, false)] &&
      !Draw(r[0]).drew && OnEvent(fs[1], true).forwarded
  {
    var fs := [Flags(true, false, false), Flags(false, false, false)];
    assert fs[..1] == [fs[0]];
    assert CountBusy(fs[..1]) == 1;
    assert Syncs(fs[1], 1) == fs[1];
    assert SyncAllAsWritten(fs) == fs[..1] + [fs[1]];
  }
}
