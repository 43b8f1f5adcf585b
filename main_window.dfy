/**
 * The logic of `MainWindow` that does not touch widgets: the combobox label lookups, the scan
 * of the command line, and the refresh of the application-window combobox. Text fields and
 * the combobox item collection are plain values; pressing the start button and hiding the
 * window are reported as `UiAction`s.
 */
module MainWindow {
  import opened ListOps
  import opened FrameRate
  import opened Resolution

  // Labels and command-line flags of `UiConstants`.
  const OneHundredAndTwentyFpsLabel := "120 FPS"
  const SixtyFpsLabel := "60 FPS"
  const ThirtyFpsLabel := "30 FPS"
  const FifteenFpsLabel := "15 FPS"
  const OneThousandAndEightyPLabel := "1920x1080 (1080p)"
  const SevenHundredAndTwentyPLabel := "1280x720 (720p)"
  const FourHundredAndEightyPLabel := "854x480 (480p)"
  const ThreeHundredAndSixtyPLabel := "480x360 (360p)"
  const TwoHundredAndFortyPLabel := "352x240 (240p)"
  const IpArgs := "--ip"
  const PortArgs := "--port"
  const HideWindowArgs := "--hide"
  const StartServerArgs := "--start"

  /** The label the FPS combobox shows for each member. */
  function FpsLabel(f: Fps): string
  {
    match f
    case OneHundredAndTwenty => OneHundredAndTwentyFpsLabel
    case Sixty => SixtyFpsLabel
    case Thirty => ThirtyFpsLabel
    case Fifteen => FifteenFpsLabel
  }

  /** The label the resolution combobox shows for each member. */
  function ResolutionLabel(r: Resolutions): string
  {
    match r
    case OneThousandAndEightyP => OneThousandAndEightyPLabel
    case SevenHundredAndTwentyP => SevenHundredAndTwentyPLabel
    case FourHundredAndEightyP => FourHundredAndEightyPLabel
    case ThreeHundredAndSixtyP => ThreeHundredAndSixtyPLabel
    case TwoHundredAndFortyP => TwoHundredAndFortyPLabel
  }

  /** The member whose label is selected; anything else selects 30 FPS. */
  function GetFpsFromComboBox(selectedFps: string): (f: Fps)
    ensures forall g :: selectedFps == FpsLabel(g) ==> f == g
    ensures (forall g :: selectedFps != FpsLabel(g)) ==> f == Thirty
  {
    assert FpsLabel(OneHundredAndTwenty) == OneHundredAndTwentyFpsLabel && FpsLabel(Sixty) == SixtyFpsLabel;
    assert FpsLabel(Thirty) == ThirtyFpsLabel && FpsLabel(Fifteen) == FifteenFpsLabel;
    if selectedFps == OneHundredAndTwentyFpsLabel then OneHundredAndTwenty
    else if selectedFps == SixtyFpsLabel then Sixty
    else if selectedFps == ThirtyFpsLabel then Thirty
    else if selectedFps == FifteenFpsLabel then Fifteen
    else Thirty
  }

  /** The member whose label is selected; anything else selects 720p. */
  function GetResolutionFromComboBox(selectedScreenResolution: string): (r: Resolutions)
    ensures forall g :: selectedScreenResolution == ResolutionLabel(g) ==> r == g
    ensures (forall g :: selectedScreenResolution != ResolutionLabel(g)) ==> r == SevenHundredAndTwentyP
  {
    var s := selectedScreenResolution;
    assert ResolutionLabel(OneThousandAndEightyP) == OneThousandAndEightyPLabel;
    assert ResolutionLabel(SevenHundredAndTwentyP) == SevenHundredAndTwentyPLabel;
    assert ResolutionLabel(FourHundredAndEightyP) == FourHundredAndEightyPLabel;
    assert ResolutionLabel(ThreeHundredAndSixtyP) == ThreeHundredAndSixtyPLabel;
    assert ResolutionLabel(TwoHundredAndFortyP) == TwoHundredAndFortyPLabel;
    if s == OneThousandAndEightyPLabel then OneThousandAndEightyP
    else if s == SevenHundredAndTwentyPLabel then SevenHundredAndTwentyP
    else if s == FourHundredAndEightyPLabel then FourHundredAndEightyP
    else if s == ThreeHundredAndSixtyPLabel then ThreeHundredAndSixtyP
    else if s == TwoHundredAndFortyPLabel then TwoHundredAndFortyP
    else SevenHundredAndTwentyP
  }

  /** The 720p label announces a width the size table does not give it. */
  lemma SevenHundredAndTwentyPLabelDisagrees()
    ensures ResolutionLabel(SevenHundredAndTwentyP)[..4] == "1280"
    ensures SizeOf(GetResolutionFromComboBox(SevenHundredAndTwentyPLabel)).width == 1080
  {
  }

  /** `string.StartsWith` with ordinal comparison. */
  predicate StartsWith(s: string, prefix: string)
  {
    |prefix| <= |s| && s[..|prefix|] == prefix
  }

  /** `string.Contains` with ordinal comparison. */
  predicate Contains(s: string, sub: string)
    decreases |s|
  {
    StartsWith(s, sub) || (s != [] && Contains(s[1..], sub))
  }

  /** `Contains` holds exactly when `sub` occurs at some position of `s`. */
  lemma {:induction false} ContainsAt(s: string, sub: string)
    ensures Contains(s, sub) <==> exists k :: 0 <= k <= |s| - |sub| && s[k..][..|sub|] == sub
    decreases |s|
  {
    if Contains(s, sub) {
      if StartsWith(s, sub) {
        assert s[0..][..|sub|] == sub;
      } else {
        ContainsAt(s[1..], sub);
        var k :| 0 <= k <= |s[1..]| - |sub| && s[1..][k..][..|sub|] == sub;
        assert s[k + 1..] == s[1..][k..];
      }
    }
    if k :| 0 <= k <= |s| - |sub| && s[k..][..|sub|] == sub {
      if k == 0 {
        assert s[0..] == s;
      } else {
        ContainsAt(s[1..], sub);
        assert s[1..][k - 1..] == s[k..];
      }
    }
  }

  /** Some argument contains `flag`. */
  predicate AnyContains(args: seq<string>, flag: string)
  {
    exists i :: 0 <= i < |args| && Contains(args[i], flag)
  }

  /**
   * The text a value flag leaves in its field after the scan has seen `args[..n]`: the argument
   * after the last one that contains `flag` and has a successor, or `initial` if none does.
   */
  function ValueAfter(args: seq<string>, n: nat, flag: string, initial: string): string
    requires n <= |args|
  {
    if n == 0 then initial
    else if n < |args| && Contains(args[n - 1], flag) then args[n]
    else ValueAfter(args, n - 1, flag, initial)
  }

  /** The last matching argument decides the value. */
  lemma {:induction false} ValueAfterLastMatch(args: seq<string>, n: nat, flag: string, initial: string, i: nat)
    requires i < n <= |args| && i + 1 < |args| && Contains(args[i], flag)
    requires forall j :: i < j < n && j + 1 < |args| ==> !Contains(args[j], flag)
    ensures ValueAfter(args, n, flag, initial) == args[i + 1]
    decreases n
  {
    if n - 1 != i {
      ValueAfterLastMatch(args, n - 1, flag, initial, i);
    }
  }

  /** Without a matching argument the field keeps its value. */
  lemma {:induction false} ValueAfterNoMatch(args: seq<string>, n: nat, flag: string, initial: string)
    requires n <= |args|
    requires forall j :: 0 <= j < n && j + 1 < |args| ==> !Contains(args[j], flag)
    ensures ValueAfter(args, n, flag, initial) == initial
    decreases n
  {
    if n != 0 {
      ValueAfterNoMatch(args, n - 1, flag, initial);
    }
  }

  /** What the window does once the scan is over. */
  datatype UiAction = StartStream | HideWindow

  /**
   * `CmdArgs_Validation` over the full command line (program name included), starting from the
   * IP and port texts loaded from the settings. An argument containing `--ip` or `--port` reads
   * the next argument; when it is the last one that read fails (`IndexOutOfRangeException`)
   * and nothing after it happens, though the text fields keep what was already assigned.
   */
  method CmdArgsValidation(args: seq<string>, ipText0: string, portText0: string)
    returns (ipText: string, portText: string, actions: seq<UiAction>, failed: bool)
    ensures failed <==> |args| > 0 && (Contains(args[|args| - 1], IpArgs) || Contains(args[|args| - 1], PortArgs))
    ensures ipText == ValueAfter(args, |args|, IpArgs, ipText0)
    ensures portText == ValueAfter(args, |args|, PortArgs, portText0)
    ensures failed ==> actions == []
    ensures !failed ==>
              actions == (if AnyContains(args, StartServerArgs) then [StartStream] else [])
                         + (if AnyContains(args, HideWindowArgs) then [HideWindow] else [])
  {
    var hideWindowBool := false;
    var startStreamOnStart := false;
    ipText, portText := ipText0, portText0;
    for i := 0 to |args|
      invariant ipText == ValueAfter(args, i, IpArgs, ipText0)
      invariant portText == ValueAfter(args, i, PortArgs, portText0)
      invariant hideWindowBool == exists j :: 0 <= j < i && Contains(args[j], HideWindowArgs)
      invariant startStreamOnStart == exists j :: 0 <= j < i && Contains(args[j], StartServerArgs)
      invariant 0 < i ==> i < |args| || !(Contains(args[i - 1], IpArgs) || Contains(args[i - 1], PortArgs))
    {
      if Contains(args[i], IpArgs) {
        if i + 1 >= |args| {
          return ipText, portText, [], true;
        }
        ipText := args[i + 1];
      }
      if Contains(args[i], PortArgs) {
        if i + 1 >= |args| {
          return ipText, portText, [], true;
        }
        portText := args[i + 1];
      }
      if Contains(args[i], HideWindowArgs) {
        hideWindowBool := true;
      }
      if Contains(args[i], StartServerArgs) {
        startStreamOnStart := true;
      }
    }
    failed := false;
    actions := [];
    if startStreamOnStart {
      actions := actions + [StartStream];
    }
    if hideWindowBool {
      actions := actions + [HideWindow];
    }
  }

  /** Flags match as substrings: `--ipv6` sets the IP field just as `--ip` does. */
  lemma LongerArgumentMatchesFlag(prog: string, value: string)
    ensures Contains("--ipv6", IpArgs)
    ensures ValueAfter([prog, "--ipv6", value], 3, IpArgs, "") == value
  {
    assert StartsWith("--ipv6", IpArgs) by {
      assert "--ipv6"[..4] == IpArgs;
    }
  }

  /**
   * The value after a flag is scanned as an argument too: in `prog --ip --hide` the IP field
   * becomes "--hide" and the window is hidden as well.
   */
  lemma FlagValueIsScannedToo(prog: string)
    ensures var args := [prog, IpArgs, HideWindowArgs];
            ValueAfter(args, 3, IpArgs, "") == HideWindowArgs && AnyContains(args, HideWindowArgs)
  {
    var args := [prog, IpArgs, HideWindowArgs];
    assert StartsWith(IpArgs, IpArgs);
    assert StartsWith(HideWindowArgs, HideWindowArgs);
    assert Contains(args[2], HideWindowArgs);
    assert !Contains(args[2], IpArgs) by {
      ContainsAt(args[2], IpArgs);
      forall k | 0 <= k <= |args[2]| - |IpArgs|
        ensures args[2][k..][..|IpArgs|] != IpArgs
      {
        assert args[2][k..][..|IpArgs|][3] != IpArgs[3];
      }
    }
  }

  /**
   * The survivors of `items` followed by every running app not yet present, appended in
   * running-app order: what `CbAppWindow_OnDropDownOpened` leaves in the combobox.
   */
  function Reconciled(items: seq<string>, runningApps: seq<string>): seq<string>
  {
    var kept := KeepIn(items, runningApps);
    kept + Appended(kept, runningApps)
  }

  /**
   * What the adding loop appends to `acc`: each element of `apps` that neither `acc` nor an
   * earlier append holds, checked one at a time. Everything appended comes from `apps` and is
   * new to `acc`.
   */
  function Appended(acc: seq<string>, apps: seq<string>): (m: seq<string>)
    ensures forall i :: 0 <= i < |m| ==> m[i] in apps && m[i] !in acc
  {
    if apps == [] then []
    else
      var front := apps[..|apps| - 1];
      var app := apps[|apps| - 1];
      var m := Appended(acc, front);
      assert forall x :: x in front ==> x in apps;
      if app in acc || app in m then m else m + [app]
  }

  /** Every element of `apps` ends up in `acc` or among the appended ones. */
  lemma {:induction false} AppendedCovers(acc: seq<string>, apps: seq<string>)
    ensures forall i :: 0 <= i < |apps| ==> apps[i] in acc || apps[i] in Appended(acc, apps)
    decreases |apps|
  {
    if apps != [] {
      var front := apps[..|apps| - 1];
      AppendedCovers(acc, front);
      assert forall i :: 0 <= i < |front| ==> apps[i] == front[i];
    }
  }

  /** Nothing is appended twice. */
  lemma {:induction false} AppendedNoDuplicates(acc: seq<string>, apps: seq<string>)
    ensures NoDuplicates(Appended(acc, apps))
    decreases |apps|
  {
    if apps != [] {
      var front := apps[..|apps| - 1];
      var app := apps[|apps| - 1];
      AppendedNoDuplicates(acc, front);
      if !(app in acc || app in Appended(acc, front)) {
        NoDuplicatesSnoc(Appended(acc, front), app);
      }
    }
  }

  /** The appended apps keep their order in `apps`. */
  lemma {:induction false} AppendedInOrder(acc: seq<string>, apps: seq<string>)
    ensures IsSubsequence(Appended(acc, apps), apps)
    decreases |apps|
  {
    if apps != [] {
      var front := apps[..|apps| - 1];
      var app := apps[|apps| - 1];
      var m := Appended(acc, front);
      AppendedInOrder(acc, front);
      assert apps == front + [app];
      if app in acc || app in m {
        SubsequenceExtend(m, front, app);
      } else {
        SubsequenceSnoc(m, front, app);
      }
    }
  }

  /** After the refresh the items are exactly the running apps. */
  lemma ReconciledMembers(items: seq<string>, runningApps: seq<string>, x: string)
    ensures x in Reconciled(items, runningApps) <==> x in runningApps
  {
    var kept := KeepIn(items, runningApps);
    var m := Appended(kept, runningApps);
    assert x in Reconciled(items, runningApps) <==> x in kept || x in m;
    if x in kept {
      var j :| 0 <= j < |kept| && kept[j] == x;
    }
    if x in m {
      var j :| 0 <= j < |m| && m[j] == x;
    }
    if x in runningApps {
      AppendedCovers(kept, runningApps);
      var i :| 0 <= i < |runningApps| && runningApps[i] == x;
    }
  }

  /**
   * The refresh keeps the surviving items first, in their old relative order. What follows
   * them is new, holds no app twice, and lists the apps in running-app order.
   */
  lemma ReconciledLayout(items: seq<string>, runningApps: seq<string>)
    ensures var kept := KeepIn(items, runningApps);
            var r := Reconciled(items, runningApps);
            var added := r[|kept|..];
            && r == kept + added
            && IsSubsequence(kept, items)
            && NoDuplicates(added)
            && (forall i :: 0 <= i < |added| ==> added[i] !in kept)
            && IsSubsequence(added, runningApps)
  {
    var kept := KeepIn(items, runningApps);
    var r := Reconciled(items, runningApps);
    assert r[|kept|..] == Appended(kept, runningApps);
    KeepInSubsequence(items, runningApps);
    AppendedNoDuplicates(kept, runningApps);
    AppendedInOrder(kept, runningApps);
  }

  /** One pass of the removal loop keeps the items as the kept prefix plus the unvisited rest. */
  lemma RemoveStep(appList: seq<string>, i: nat, runningApps: seq<string>)
    requires i < |appList|
    ensures var item := appList[i];
            var items := KeepIn(appList[..i], runningApps) + appList[i..];
            var next := KeepIn(appList[..i + 1], runningApps) + appList[i + 1..];
            (if item in runningApps then items else RemoveFirst(items, item)) == next
  {
    var item := appList[i];
    var kept := KeepIn(appList[..i], runningApps);
    var rest := appList[i + 1..];
    assert appList[i..] == [item] + rest;
    ConcatAssoc(kept, [item], rest);
    KeepInSnoc(appList[..i], item, runningApps);
    assert appList[..i + 1] == appList[..i] + [item];
    if item in runningApps {
      assert KeepIn(appList[..i + 1], runningApps) == kept + [item];
    } else {
      assert item !in kept;
      assert KeepIn(appList[..i + 1], runningApps) == kept;
      RemoveAfterPrefix(kept, item, rest);
    }
  }

  /** One pass of the adding loop appends the app when the items do not hold it yet. */
  lemma AddStep(survivors: seq<string>, runningApps: seq<string>, j: nat)
    requires j < |runningApps|
    ensures var items := survivors + Appended(survivors, runningApps[..j]);
            var app := runningApps[j];
            survivors + Appended(survivors, runningApps[..j + 1])
              == if app in items then items else items + [app]
  {
    assert runningApps[..j + 1][..j] == runningApps[..j];
    var m := Appended(survivors, runningApps[..j]);
    ConcatAssoc(survivors, m, [runningApps[j]]);
  }

  /** The application-window combobox: its item collection. */
  class AppWindowComboBox {
    var items: seq<string>

    constructor (items: seq<string>)
      ensures this.items == items
    {
      this.items := items;
    }

    /**
     * Drops every item that is no longer a running app (one `Remove` per copy of it in the
     * snapshot), then appends each running app the collection does not hold at that moment.
     */
    method OnDropDownOpened(runningApps: seq<string>)
      modifies this
      ensures items == Reconciled(old(items), runningApps)
    {
      var appList := items;
      for i := 0 to |appList|
        invariant items == KeepIn(appList[..i], runningApps) + appList[i..]
      {
        var item := appList[i];
        RemoveStep(appList, i, runningApps);
        if item !in runningApps {
          items := RemoveFirst(items, item);
        }
      }
      assert appList[..|appList|] == appList && appList[|appList|..] == [];
      var survivors := items;
      assert survivors == KeepIn(old(items), runningApps);
      for j := 0 to |runningApps|
        invariant items == survivors + Appended(survivors, runningApps[..j])
      {
        var runningApp := runningApps[j];
        AddStep(survivors, runningApps, j);
        if runningApp !in items {
          items := items + [runningApp];
        }
      }
      assert runningApps[..|runningApps|] == runningApps;
      assert items == Reconciled(old(items), runningApps);
    }
  }
}
