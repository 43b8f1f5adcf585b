/**
 * `RunningApplications.GetListOfRunningApps`: `EnumDesktopWindows` hands every top-level window
 * to `FilterCallback`, which appends the window's title when the window can be streamed and
 * removes the first entry with that title when the window is minimised or cloaked. The Win32
 * answers about each window are given as a `WindowInfo` record.
 */
module RunningApplications {
  import opened ListOps

  /** `WS_CAPTION`: a title bar, which includes the `WS_BORDER` bit. */
  const WsCaption: bv32 := 0xC0_0000
  const WsBorder: bv32 := 0x80_0000
  const WsDlgFrame: bv32 := 0x40_0000

  /** What the Win32 calls report about one window, in enumeration order. */
  datatype WindowInfo = WindowInfo(
    visible: bool,   // IsWindowVisible
    title: string,   // GetWindowText
    style: bv32,     // GetWindowLong(handle, GWL_STYLE)
    iconic: bool,    // IsIconic
    cloaked: bool)   // DwmGetWindowAttribute(handle, DWMWA_CLOAKED)

  /** The window has a title bar: both bits of `WS_CAPTION` are set. */
  function IsHasCaption(style: bv32): (b: bool)
    ensures b <==> style & WsBorder != 0 && style & WsDlgFrame != 0
  {
    (style & WsCaption) == WsCaption
  }

  /** Bits outside `WS_CAPTION` do not matter. */
  lemma CaptionIgnoresOtherBits(style: bv32, other: bv32)
    requires other & WsCaption == 0
    ensures IsHasCaption(style | other) == IsHasCaption(style)
  {
  }

  /** A window whose title is offered for streaming. */
  predicate Streamable(w: WindowInfo)
  {
    w.visible && w.title != "" && IsHasCaption(w.style)
  }

  /** What one call of `FilterCallback` does to the list. */
  function Step(apps: seq<string>, w: WindowInfo): seq<string>
  {
    var added := if Streamable(w) then apps + [w.title] else apps;
    if w.iconic || w.cloaked then RemoveFirst(added, w.title) else added
  }

  /** The list after the callback has seen `windows`, one after another. */
  function Collected(windows: seq<WindowInfo>): seq<string>
  {
    if windows == [] then [] else Step(Collected(windows[..|windows| - 1]), windows[|windows| - 1])
  }

  /** The titles of the streamable windows, in enumeration order. */
  function StreamableTitles(windows: seq<WindowInfo>): (r: seq<string>)
    ensures forall i :: 0 <= i < |r| ==> r[i] != ""
  {
    if windows == [] then []
    else
      var w := windows[|windows| - 1];
      StreamableTitles(windows[..|windows| - 1]) + (if Streamable(w) then [w.title] else [])
  }

  /** Every offered title is the title of a visible, captioned window among those enumerated. */
  lemma {:induction false} StreamableTitlesOrigin(windows: seq<WindowInfo>, x: string)
    requires x in StreamableTitles(windows)
    ensures exists j :: 0 <= j < |windows| && Streamable(windows[j]) && windows[j].title == x
    decreases |windows|
  {
    var front := windows[..|windows| - 1];
    var w := windows[|windows| - 1];
    if x in StreamableTitles(front) {
      StreamableTitlesOrigin(front, x);
      var j :| 0 <= j < |front| && Streamable(front[j]) && front[j].title == x;
      assert windows[j] == front[j];
    } else {
      assert Streamable(windows[|windows| - 1]) && windows[|windows| - 1].title == x;
    }
  }

  /** The list `FilterCallback` fills, captured by the local function. */
  class RunningAppsCollector {
    var runningApps: seq<string>

    constructor ()
      ensures runningApps == []
    {
      runningApps := [];
    }

    /** One window: append its title if it qualifies, then drop it if minimised or cloaked. */
    method FilterCallback(w: WindowInfo) returns (continueEnumeration: bool)
      modifies this
      ensures runningApps == Step(old(runningApps), w)
      ensures continueEnumeration
    {
      if w.visible && w.title != "" && IsHasCaption(w.style) {
        runningApps := runningApps + [w.title];
      }
      if w.iconic || w.cloaked {
        runningApps := RemoveFirst(runningApps, w.title);
      }
      return true;
    }
  }

  /**
   * Enumerates `windows` through the callback, stopping early only if it returned false, and
   * returns the collected titles.
   */
  method GetListOfRunningApps(windows: seq<WindowInfo>) returns (apps: seq<string>)
    ensures apps == Collected(windows)
  {
    var collector := new RunningAppsCollector();
    var i := 0;
    var more := true;
    while more && i < |windows|
      invariant 0 <= i <= |windows|
      invariant more
      invariant collector.runningApps == Collected(windows[..i])
    {
      assert windows[..i + 1][..i] == windows[..i];
      more := collector.FilterCallback(windows[i]);
      i := i + 1;
    }
    assert windows[..i] == windows;
    apps := collector.runningApps;
  }

  /**
   * Every entry of the result is the title of a streamable window, so none is empty, and the
   * entries keep the order in which their windows were enumerated.
   */
  lemma {:induction false} CollectedFromStreamable(windows: seq<WindowInfo>)
    ensures IsSubsequence(Collected(windows), StreamableTitles(windows))
    decreases |windows|
  {
    if windows != [] {
      var front := windows[..|windows| - 1];
      var w := windows[|windows| - 1];
      CollectedFromStreamable(front);
      var added := if Streamable(w) then Collected(front) + [w.title] else Collected(front);
      if Streamable(w) {
        SubsequenceSnoc(Collected(front), StreamableTitles(front), w.title);
      } else {
        assert StreamableTitles(windows) == StreamableTitles(front);
      }
      assert IsSubsequence(added, StreamableTitles(windows));
      if w.iconic || w.cloaked {
        RemoveFirstSubsequence(added, w.title);
        SubsequenceTransitive(Collected(windows), added, StreamableTitles(windows));
      }
    }
  }

  /** The result never holds an empty title. */
  lemma CollectedHasNoEmptyTitle(windows: seq<WindowInfo>)
    ensures "" !in Collected(windows)
  {
    CollectedFromStreamable(windows);
    SubsequenceElements(Collected(windows), StreamableTitles(windows));
  }

  /** Every title in the result belongs to a visible, captioned window that was enumerated. */
  lemma CollectedFromStreamableWindow(windows: seq<WindowInfo>, x: string)
    requires x in Collected(windows)
    ensures exists j :: 0 <= j < |windows| && Streamable(windows[j]) && windows[j].title == x
  {
    CollectedFromStreamable(windows);
    SubsequenceElements(Collected(windows), StreamableTitles(windows));
    var k :| 0 <= k < |Collected(windows)| && Collected(windows)[k] == x;
    StreamableTitlesOrigin(windows, x);
  }

  /**
   * A minimised window removes the first entry with its title even when that entry came from
   * another, earlier window.
   */
  lemma MinimisedWindowRemovesEarlierEntry(title: string, other: string)
    requires title != "" && other != "" && other != title
    ensures var shown := WindowInfo(true, title, WsCaption, false, false);
            var minimised := WindowInfo(false, title, 0, true, false);
            var second := WindowInfo(true, other, WsCaption, false, false);
            Collected([shown, second, minimised]) == [other]
  {
    var shown := WindowInfo(true, title, WsCaption, false, false);
    var second := WindowInfo(true, other, WsCaption, false, false);
    var minimised := WindowInfo(false, title, 0, true, false);
    var ws := [shown, second, minimised];
    assert ws[..2] == [shown, second];
    assert [shown, second][..1] == [shown];
    assert [shown][..0] == [];
    assert IsHasCaption(WsCaption);
    assert Collected([shown]) == [title];
    assert Collected([shown, second]) == [title] + [other];
    assert RemoveFirst([title, other], title) == [other];
  }
}
