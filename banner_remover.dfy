/**
 * The banner remover of the VRChat SDK panel: it hides or shows the SDK banner by rewriting the
 * `max-height` percentage on line 17 of the SDK's panel stylesheet, decides from that line whether
 * the banner is shown, and asks the editor to refresh when the stylesheet's write time changes.
 * The file system is the `file` and `fileWriteTime` fields; the editor's window refresh is an
 * event appended to `events`.
 */
module BannerRemover {
  import opened Wrappers
  import opened HeightPattern

  /** TARGET_LINE_NUMBER: the 1-based number of the stylesheet line that holds the banner height. */
  const TargetLineNumber: nat := 17

  /** The 0-based index of that line. */
  const TargetIndex: nat := TargetLineNumber - 1

  /** A file write time; 0 is the earliest one, System.DateTime.MinValue. */
  type Timestamp = nat

  const MinTime: Timestamp := 0

  /** What the remover asks of the editor: RefreshVRCSDKWindows, which repaints the SDK windows,
      refreshes the asset database and schedules a second repaint, as one event. */
  datatype HostEvent = Refresh

  /** How ToggleBannerVisibility ended, as its log messages tell: the file was missing, it had too
      few lines, or it was written and the banner reported hidden or shown. */
  datatype ToggleOutcome = FileMissing | InvalidLineCount | Done(hidden: bool)

  /** ValidateLineContent: the file is long enough to have the target line. */
  predicate ValidateLineContent(lines: seq<string>): (r: bool)
    ensures r <==> TargetIndex < |lines|
  {
    |lines| >= TargetLineNumber
  }

  /** What IsBannerVisible reports for the stylesheet `f` (None when the file does not exist). */
  function FileShowsBanner(f: Option<seq<string>>): (r: bool)
    ensures f.None? ==> r
    ensures f.Some? && !ValidateLineContent(f.value) ==> r
    ensures f.Some? && ValidateLineContent(f.value) && !HasMatch(f.value[TargetIndex]) ==> r
    ensures f.Some? && ValidateLineContent(f.value) ==>
      forall m :: Leftmost(f.value[TargetIndex], m) ==>
        (r <==> Captured(f.value[TargetIndex], m) != "0")
  {
    if f.None? then true
    else if !ValidateLineContent(f.value) then true
    else LineShowsBanner(f.value[TargetIndex])
  }

  /** The lines ToggleBannerVisibility writes back for the lines it read. */
  function PatchLines(lines: seq<string>, v: string): (r: seq<string>)
    requires ValidateLineContent(lines)
    ensures |r| == |lines|
    ensures forall i | 0 <= i < |lines| && i != TargetIndex :: r[i] == lines[i]
    ensures r[TargetIndex] == Rewrite(lines[TargetIndex], v)
  {
    lines[TargetIndex := Rewrite(lines[TargetIndex], v)]
  }

  /** The stylesheet after ToggleBannerVisibility(v): patched when it exists and is long enough,
      and otherwise not written at all. */
  function AfterToggle(f: Option<seq<string>>, v: string): (r: Option<seq<string>>)
    ensures !(f.Some? && ValidateLineContent(f.value)) ==> r == f
    ensures f.Some? && ValidateLineContent(f.value) ==> r == Some(PatchLines(f.value, v))
  {
    if f.Some? && ValidateLineContent(f.value) then Some(PatchLines(f.value, v)) else f
  }

  /** The outcome ToggleBannerVisibility(v) reports for the stylesheet `f`: an error for a missing
      or short file, and otherwise "hidden" exactly for the value "0%". */
  function OutcomeOf(f: Option<seq<string>>, v: string): (r: ToggleOutcome)
    ensures r == FileMissing <==> f.None?
    ensures r == InvalidLineCount <==> f.Some? && !ValidateLineContent(f.value)
    ensures r.Done? ==> (r.hidden <==> v == "0%")
  {
    if f.None? then FileMissing
    else if !ValidateLineContent(f.value) then InvalidLineCount
    else Done(v == "0%")
  }

  /** The reported outcome agrees with the write: an error outcome leaves the file as it was,
      and a successful one writes a file with as many lines as before. */
  lemma OutcomeMatchesWrite(f: Option<seq<string>>, v: string)
    ensures !OutcomeOf(f, v).Done? ==> AfterToggle(f, v) == f
    ensures OutcomeOf(f, v).Done? ==> AfterToggle(f, v).Some? && |AfterToggle(f, v).value| == |f.value|
  {
  }

  /** Toggling to the same percentage twice leaves the file as toggling once does. */
  lemma ToggleIdempotent(f: Option<seq<string>>, v: string)
    requires IsPercent(v)
    ensures AfterToggle(AfterToggle(f, v), v) == AfterToggle(f, v)
  {
    if f.Some? && ValidateLineContent(f.value) {
      var once := PatchLines(f.value, v);
      RewriteIdempotent(f.value[TargetIndex], v);
      assert once[TargetIndex] == Rewrite(once[TargetIndex], v);
      assert PatchLines(once, v) == once;
    }
  }

  /** Toggling a stylesheet whose target line holds a match makes detection agree with the new
      value: shown exactly when its digits are not "0". */
  lemma ToggleSetsVisibility(f: Option<seq<string>>, v: string)
    requires IsPercent(v)
    requires f.Some? && ValidateLineContent(f.value) && HasMatch(f.value[TargetIndex])
    ensures FileShowsBanner(AfterToggle(f, v)) <==> v[..|v| - 1] != "0"
  {
    RewriteSetsVisibility(f.value[TargetIndex], v);
  }

  /** The two values the menu commands write: "0%" hides the banner and "100%" shows it. */
  lemma HideAndShow(f: Option<seq<string>>)
    requires f.Some? && ValidateLineContent(f.value) && HasMatch(f.value[TargetIndex])
    ensures !FileShowsBanner(AfterToggle(f, "0%"))
    ensures FileShowsBanner(AfterToggle(f, "100%"))
  {
    assert IsPercent("0%") && "0%"[..1] == "0";
    assert IsPercent("100%") && "100%"[..3] == "100";
    ToggleSetsVisibility(f, "0%");
    ToggleSetsVisibility(f, "100%");
  }

  /** SDKBannerRemover: its static state together with the files and the editor it works on. */
  class SDKBannerRemover {
    /** The stylesheet at TARGET_FILE_PATH, line by line; None when the file does not exist. */
    var file: Option<seq<string>>
    /** What File.GetLastWriteTime reports for the stylesheet. */
    var fileWriteTime: Timestamp
    /** _lastWriteTime: the write time the poller saw last. */
    var lastWriteTime: Timestamp
    /** The refreshes requested from the editor, oldest first. */
    var events: seq<HostEvent>

    /** The class as the editor loads it: _lastWriteTime starts at DateTime.MinValue. */
    constructor (file: Option<seq<string>>, fileWriteTime: Timestamp)
      ensures this.file == file && this.fileWriteTime == fileWriteTime
      ensures lastWriteTime == MinTime && events == []
    {
      this.file := file;
      this.fileWriteTime := fileWriteTime;
      lastWriteTime := MinTime;
      events := [];
    }

    /** ValidateFileIntegrity: the stylesheet exists; when it does not, detection fails open. */
    predicate ValidateFileIntegrity(): (r: bool)
      reads this
      ensures r <==> file.Some?
      ensures !r ==> FileShowsBanner(file)
    {
      file.Some?
    }

    /** IsBannerVisible: detection on the current stylesheet. It reports shown when the file is
        missing or too short, and otherwise follows the leftmost match on the target line. */
    predicate IsBannerVisible(): (r: bool)
      reads this
      ensures !ValidateFileIntegrity() ==> r
      ensures file.Some? && !ValidateLineContent(file.value) ==> r
      ensures file.Some? && ValidateLineContent(file.value) ==>
        (r <==> LineShowsBanner(file.value[TargetIndex]))
    {
      FileShowsBanner(file)
    }

    /** The "Hide" menu entry is enabled exactly when the banner is visible. */
    function ValidateHideBanner(): (r: bool)
      reads this
      ensures r <==> FileShowsBanner(file)
    {
      IsBannerVisible()
    }

    /** The "Show" menu entry is enabled exactly when the "Hide" one is not. */
    function ValidateShowBanner(): (r: bool)
      reads this
      ensures r <==> !ValidateHideBanner()
    {
      !IsBannerVisible()
    }

    /** MonitorStyleFileChanges, run on every editor update: when the stylesheet exists and its
        write time differs from the one last seen, record it and request one refresh. */
    method MonitorStyleFileChanges()
      modifies this`lastWriteTime, this`events
      ensures old(file.Some? && fileWriteTime != lastWriteTime) ==>
        lastWriteTime == fileWriteTime && events == old(events) + [Refresh]
      ensures !old(file.Some? && fileWriteTime != lastWriteTime) ==>
        lastWriteTime == old(lastWriteTime) && events == old(events)
      ensures file.Some? ==> lastWriteTime == fileWriteTime
    {
      if file.None? {
        return;
      }
      var currentWriteTime := fileWriteTime;
      if currentWriteTime != lastWriteTime {
        lastWriteTime := currentWriteTime;
        RefreshVRCSDKWindows();
      }
    }

    /** RefreshVRCSDKWindows, reduced to the event it sends the editor. */
    method RefreshVRCSDKWindows()
      modifies this`events
      ensures events == old(events) + [Refresh]
    {
      events := events + [Refresh];
    }

    /** ToggleBannerVisibility: read the stylesheet, rewrite the percentage on the target line,
        write every line back at time `now` and request a refresh; a missing file or one with
        too few lines is left as it is, with no write and no refresh. */
    method ToggleBannerVisibility(newHeightValue: string, now: Timestamp) returns (outcome: ToggleOutcome)
      requires '$' !in newHeightValue
      modifies this`file, this`fileWriteTime, this`events
      ensures outcome == OutcomeOf(old(file), newHeightValue)
      ensures file == AfterToggle(old(file), newHeightValue)
      ensures outcome.Done? ==> fileWriteTime == now && events == old(events) + [Refresh]
      ensures !outcome.Done? ==> fileWriteTime == old(fileWriteTime) && events == old(events)
    {
      if !ValidateFileIntegrity() {
        return FileMissing;
      }
      var lines := file.value;
      var styleLines := new string[|lines|](i requires 0 <= i < |lines| => lines[i]);
      assert styleLines[..] == lines;
      if !ValidateLineContent(styleLines[..]) {
        return InvalidLineCount;
      }
      var patched := Rewrite(styleLines[TargetIndex], newHeightValue);
      styleLines[TargetIndex] := patched;
      assert styleLines[..] == lines[TargetIndex := patched];
      file := Some(styleLines[..]);
      fileWriteTime := now;
      RefreshVRCSDKWindows();
      outcome := Done(newHeightValue == "0%");
    }

    /** HideBanner, the "Hide" menu command: toggle to "0%". */
    method HideBanner(now: Timestamp) returns (outcome: ToggleOutcome)
      modifies this`file, this`fileWriteTime, this`events
      ensures outcome == OutcomeOf(old(file), "0%")
      ensures file == AfterToggle(old(file), "0%")
      ensures outcome.Done? ==> fileWriteTime == now && events == old(events) + [Refresh]
      ensures !outcome.Done? ==> fileWriteTime == old(fileWriteTime) && events == old(events)
      ensures old(file.Some? && ValidateLineContent(file.value) && HasMatch(file.value[TargetIndex])) ==>
        !IsBannerVisible()
    {
      ghost var before := file;
      outcome := ToggleBannerVisibility("0%", now);
      if before.Some? && ValidateLineContent(before.value) && HasMatch(before.value[TargetIndex]) {
        HideAndShow(before);
      }
    }

    /** ShowBanner, the "Show" menu command: toggle to "100%". */
    method ShowBanner(now: Timestamp) returns (outcome: ToggleOutcome)
      modifies this`file, this`fileWriteTime, this`events
      ensures outcome == OutcomeOf(old(file), "100%")
      ensures file == AfterToggle(old(file), "100%")
      ensures outcome.Done? ==> fileWriteTime == now && events == old(events) + [Refresh]
      ensures !outcome.Done? ==> fileWriteTime == old(fileWriteTime) && events == old(events)
      ensures old(file.Some? && ValidateLineContent(file.value) && HasMatch(file.value[TargetIndex])) ==>
        IsBannerVisible()
    {
      ghost var before := file;
      outcome := ToggleBannerVisibility("100%", now);
      if before.Some? && ValidateLineContent(before.value) && HasMatch(before.value[TargetIndex]) {
        HideAndShow(before);
      }
    }

    /** The start-up rule the static constructor schedules: hide the banner when it is visible
        and the stylesheet exists. Afterwards the banner is hidden whenever the target line holds
        a match. */
    method Startup(now: Timestamp)
      modifies this`file, this`fileWriteTime, this`events
      ensures old(IsBannerVisible() && file.Some?) ==> file == AfterToggle(old(file), "0%")
      ensures old(IsBannerVisible() && file.Some? && ValidateLineContent(file.value)) ==>
        fileWriteTime == now && events == old(events) + [Refresh]
      ensures old(IsBannerVisible() && file.Some? && !ValidateLineContent(file.value)) ==>
        fileWriteTime == old(fileWriteTime) && events == old(events)
      ensures !old(IsBannerVisible() && file.Some?) ==>
        file == old(file) && fileWriteTime == old(fileWriteTime) && events == old(events)
      ensures old(file.Some? && ValidateLineContent(file.value) && HasMatch(file.value[TargetIndex])) ==>
        !IsBannerVisible()
    {
      if IsBannerVisible() && file.Some? {
        var _ := HideBanner(now);
      }
    }
  }
}
