# SDK banner remover, modelled in Dafny

`SDKBannerRemover` is a Unity editor extension that hides the VRChat SDK panel banner. It edits
one line of the SDK's stylesheet, line 17 of `VRCSdkPanelStyles.uss`, rewriting the
`max-height` percentage there to `0%` to hide the banner or to `100%` to show it again. The model covers:

- **Detection.** `IsBannerVisible` finds the leftmost match of `max-height:\s*(\d+)%` on line 17. It
  reports the banner as shown unless the captured digits are exactly the string `"0"`. It
  also reports it as shown when the file is missing, has fewer than 17 lines, or line 17
  holds no match.
- **Patching.** `ToggleBannerVisibility` checks that the file exists and has at least 17 lines.
  It then rewrites line 17 with `(max-height:\s*)(\d+%)` → `${1}<value>`, writes every line
  back and requests a refresh of the editor windows.
- **Polling.** `MonitorStyleFileChanges` remembers the last write time it saw. When the time
  changes it stores the new one and requests a refresh.
- **Menu commands, guards and start-up.** The Hide/Show commands and their two guards. The start-up rule hides the
  banner if it is visible.

How the model is organised:

- `wrappers.dfy`: the `Option` type.
- `height_pattern.dfy` (module `HeightPattern`): both regular expressions, written out by hand over
  strings.
  - `IsMatch` says when a span of a line is a match.
  - `FirstMatch` finds the leftmost match, and `LineShowsBanner` is the detection on one line.
  - `Rewrite` is `Regex.Replace`. It rewrites every non-overlapping match from left to right and keeps
    group 1, the key and its whitespace.
  - `\s`, `\d` and `%` share no character, so at most one match starts at any position. `MatchUnique`
    and `MatchAtComplete` prove this, which is why the engine's backtracking order cannot change a
    result.
- `banner_remover.dfy` (module `BannerRemover`) holds the file and the class.
  - The stylesheet is an `Option<seq<string>>` of lines, with `None` for a missing file.
  - Its write time is a `nat`, with `0` standing for `DateTime.MinValue`.
  - The class `SDKBannerRemover` holds that state, `_lastWriteTime` and the log of refresh requests.
  - `ToggleBannerVisibility` copies the lines into an array, as `File.ReadAllLines` does. It assigns
    the target line in place and writes the array back.

The code rewrites **every** match on line 17, because that is what `Regex.Replace` does. The model
follows the code here rather than a reading that only the first occurrence is replaced.
`RewriteLeavesOnlyValue` states the consequence: after a rewrite, every match on the line
carries the new value. `RewriteKeepsPieces` states that everything else on the line is kept.

## Model

| member | source | states |
|---|---|---|
| HeightPattern.IsSpace | Editor/VRCSDKBannerRemover.cs:151 | `\s` of both patterns: exactly `[\f\n\r\t\v\x85\p{Z}]`, the .NET whitespace class. A whitespace character is never a digit, the `%` or a letter of `max-height:`. |
| HeightPattern.IsDigit | Editor/VRCSDKBannerRemover.cs:151 | `\d` of both patterns, taken as the ASCII digits. A digit is never the `%` or a letter of `max-height:`. |
| HeightPattern.SpaceRun | Editor/VRCSDKBannerRemover.cs:151 | The greedy `\s*`: the end of the longest whitespace run from a position. Every character before it is whitespace, and the one at it is not. |
| HeightPattern.DigitRun | Editor/VRCSDKBannerRemover.cs:151 | The greedy `\d+` (group 1): the end of the longest digit run from a position. Every character before it is a digit, and the one at it is not. |
| HeightPattern.Captured | Editor/VRCSDKBannerRemover.cs:154 | `match.Groups[1].Value`: the text between the whitespace and the `%`. For a match it is a non-empty run of digits. |
| HeightPattern.DetectAccepts | Editor/VRCSDKBannerRemover.cs:151 | The language of `max-height:\s*(\d+)%`: the word is `max-height:`, then a run of `\s` characters (ws), then a non-empty run of `\d` characters (the group-1 digits), then `%`. Such a word starts with the key, ends in `%`, and its length is the sum of its parts. |
| HeightPattern.RewriteAccepts | Editor/VRCSDKBannerRemover.cs:85 | The language of `(max-height:\s*)(\d+%)` read with its two groups: g1 is the key followed by a `\s` run, and g2 is a non-empty `\d` run followed by `%`. Such a word starts with the key and ends in `%`. |
| HeightPattern.IsMatch | Editor/VRCSDKBannerRemover.cs:151 | A match inside a line: s[start..end] is `max-height:`, then a `\s` run, then a non-empty `\d` run, then `%`. The digits sit at s[digits..end-1]. It is the reference definition that the matcher and the rewrite are proved against. |
| HeightPattern.Leftmost | Editor/VRCSDKBannerRemover.cs:151 | The leftmost-match rule of `Regex.Match`: a match such that no other match starts before it. FirstIsLeftmost ties the matcher to it. |
| HeightPattern.PatternsAgree | Editor/VRCSDKBannerRemover.cs:83-87 | The detection pattern `max-height:\s*(\d+)%` and the rewrite pattern `(max-height:\s*)(\d+%)` accept exactly the same words, in both directions. The rewrite's group 2 is the detection's group 1 followed by `%`. |
| HeightPattern.DetectUnique | Editor/VRCSDKBannerRemover.cs:151 | A word of the detection pattern has only one reading, so its whitespace run and its captured digits are determined. |
| HeightPattern.OccurrenceIsMatch | Editor/VRCSDKBannerRemover.cs:83-87 | A span of a line is an occurrence of `(max-height:\s*)(\d+%)` exactly when it is a match. Its group 1 is the text from the match start to the digits, and its group 2 is the digits and `%`. So the rewrite and the detection see the same spans. |
| HeightPattern.MatchAtComplete | Editor/VRCSDKBannerRemover.cs:151 | The matcher at a position returns every match that starts there, so the hand-written matcher misses none. |
| HeightPattern.MatchUnique | Editor/VRCSDKBannerRemover.cs:151 | Two matches that start at the same position are the same match, so backtracking order is irrelevant. |
| HeightPattern.MatchAt | Editor/VRCSDKBannerRemover.cs:151 | Anything the matcher returns for a position is a match starting at that position. MatchAtComplete gives the converse. |
| HeightPattern.FirstMatch | Editor/VRCSDKBannerRemover.cs:151 | The result is a match at or after the start position and no later than any other match there. None means no match starts there. |
| HeightPattern.FirstIsLeftmost | Editor/VRCSDKBannerRemover.cs:151 | FirstMatch from position 0 returns a span exactly when that span is the leftmost match of the line, which is what `Regex.Match` reports. |
| HeightPattern.HasMatch | Editor/VRCSDKBannerRemover.cs:151-152 | `match.Success`: true exactly when some match exists on the line. |
| HeightPattern.LineShowsBanner | Editor/VRCSDKBannerRemover.cs:151-156 | A line without a match shows the banner. With a match, the banner is shown exactly when the leftmost match's digit group is not the string "0". |
| HeightPattern.DoubleZeroShows | Editor/VRCSDKBannerRemover.cs:154 | The comparison is on strings, so `max-height: 00%` counts as shown. |
| HeightPattern.Rewrite | Editor/VRCSDKBannerRemover.cs:83-87 | A line without a match is returned unchanged. RewriteKeepsPieces and RewriteLeavesOnlyValue give the general case. |
| HeightPattern.RewriteHead | Editor/VRCSDKBannerRemover.cs:83-87 | In the rewritten line, everything before the first match's digits is unchanged, so `max-height:` and its whitespace are kept. The new value follows, and that spot is the leftmost match of the rewritten line. |
| HeightPattern.RewriteLeavesOnlyValue | Editor/VRCSDKBannerRemover.cs:83-87 | Every match is replaced: each match of the rewritten line captures the new value's digits. |
| HeightPattern.RewriteIdempotent | Editor/VRCSDKBannerRemover.cs:83-87 | Rewriting with the same percentage twice gives the same line as rewriting once. |
| HeightPattern.RewriteKeepsPieces | Editor/VRCSDKBannerRemover.cs:83-87 | A rewrite changes only the values. The text before the first match, between matches and after the last one is kept, and so is the key with its whitespace in every match. Together with RewriteLeavesOnlyValue this fixes the whole rewritten line. |
| HeightPattern.RewriteSingle | Editor/VRCSDKBannerRemover.cs:83-87 | On a line with a single match, the rewrite replaces that match's digits and `%` by the new value and keeps every other character. |
| HeightPattern.RewriteSetsVisibility | Editor/VRCSDKBannerRemover.cs:83-87 | If a line holds a match, the rewritten line still holds one. Detection on it reports the banner shown exactly when the new value's digits are not "0". |
| HeightPattern.ExampleMatch | Editor/VRCSDKBannerRemover.cs:151 | On the stylesheet line `    max-height: 100%;` the leftmost match spans `max-height: 100%`, and its digits start at column 16. |
| HeightPattern.HideExample | Editor/VRCSDKBannerRemover.cs:83-87 | Rewriting that line with `0%` gives `    max-height: 0%;`. Only `100%` is replaced; the indentation, the key, its whitespace and the `;` are kept. |
| HeightPattern.HideExampleHidden | Editor/VRCSDKBannerRemover.cs:151-155 | Detection reports the rewritten line `    max-height: 0%;` as hidden. |
| BannerRemover.FileShowsBanner | Editor/VRCSDKBannerRemover.cs:143-161 | Detection fails open. It reports shown when the file is missing, has fewer than 17 lines, or line 17 has no match. Otherwise it reports shown exactly when the leftmost digit group is not "0". |
| BannerRemover.ValidateLineContent | Editor/VRCSDKBannerRemover.cs:131-136 | The check passes exactly when the file has a line at index 16 (line 17). |
| BannerRemover.PatchLines | Editor/VRCSDKBannerRemover.cs:81-88 | The lines written back: the same count, every line other than index 16 unchanged, and index 16 rewritten. |
| BannerRemover.OutcomeMatchesWrite | Editor/VRCSDKBannerRemover.cs:80-88 | An error outcome leaves the file as it was. A successful one writes a file with as many lines as before. |
| BannerRemover.AfterToggle | Editor/VRCSDKBannerRemover.cs:80-88 | A missing file or one with fewer than 17 lines is left as it is. Otherwise the file becomes the patched lines. |
| BannerRemover.OutcomeOf | Editor/VRCSDKBannerRemover.cs:80-94 | "File missing" exactly when the file is absent, and "invalid line count" exactly when it has fewer than 17 lines. Otherwise the reported action is "hidden" exactly when the value is "0%". |
| BannerRemover.ToggleIdempotent | Editor/VRCSDKBannerRemover.cs:83-88 | Toggling twice to the same percentage leaves the same file as toggling once. |
| BannerRemover.ToggleSetsVisibility | Editor/VRCSDKBannerRemover.cs:83-87 | If line 17 held a match, detection after a toggle reports shown exactly when the new digits are not "0". |
| BannerRemover.HideAndShow | Editor/VRCSDKBannerRemover.cs:48-68 | If line 17 held a match, toggling to "0%" makes detection report hidden, and toggling to "100%" makes it report shown. |
| BannerRemover.SDKBannerRemover.constructor | Editor/VRCSDKBannerRemover.cs:13 | `_lastWriteTime` starts at `DateTime.MinValue`, and no refresh has been requested yet. |
| BannerRemover.SDKBannerRemover.ValidateFileIntegrity | Editor/VRCSDKBannerRemover.cs:124-129 | The check passes exactly when the stylesheet exists. When it does not, detection reports the banner shown. |
| BannerRemover.SDKBannerRemover.IsBannerVisible | Editor/VRCSDKBannerRemover.cs:143-162 | Reports shown when the stylesheet is missing or has fewer than 17 lines. Otherwise it gives the line-17 detection result. |
| BannerRemover.SDKBannerRemover.ValidateHideBanner | Editor/VRCSDKBannerRemover.cs:56-60 | The Hide entry is enabled exactly when detection reports the banner shown. |
| BannerRemover.SDKBannerRemover.ValidateShowBanner | Editor/VRCSDKBannerRemover.cs:70-74 | The Show entry is enabled exactly when the Hide entry is not. |
| BannerRemover.SDKBannerRemover.MonitorStyleFileChanges | Editor/VRCSDKBannerRemover.cs:29-46 | The file may exist with a write time that differs from the last one seen. Then the poller stores the new time and requests exactly one refresh. Otherwise, nothing changes. |
| BannerRemover.SDKBannerRemover.RefreshVRCSDKWindows | Editor/VRCSDKBannerRemover.cs:102-122 | Exactly one refresh event is appended to the log. |
| BannerRemover.SDKBannerRemover.ToggleBannerVisibility | Editor/VRCSDKBannerRemover.cs:76-100 | A missing file or one with fewer than 17 lines gives no write and no refresh, and the matching outcome is reported. Otherwise the file becomes the patched lines, stamped with the write time, and one refresh is appended. The outcome is "hidden" exactly when the value is "0%". The write and the refresh happen even when line 17 has no match. |
| BannerRemover.SDKBannerRemover.HideBanner | Editor/VRCSDKBannerRemover.cs:48-54 | Toggles to "0%". If line 17 held a match, the banner is afterwards reported hidden. |
| BannerRemover.SDKBannerRemover.ShowBanner | Editor/VRCSDKBannerRemover.cs:62-68 | Toggles to "100%". If line 17 held a match, the banner is afterwards reported shown. |
| BannerRemover.SDKBannerRemover.Startup | Editor/VRCSDKBannerRemover.cs:17-24 | If the banner is visible and the file exists, the start-up rule toggles it to "0%". A file with at least 17 lines is then written at `now` and one refresh is requested. A shorter file is left with its write time, and no refresh is requested. Otherwise nothing changes. If line 17 held a match, the banner is afterwards reported hidden. |

## Left out

- Unity editor APIs are not modelled; they are host glue with no logic of their own. These include:
  - `EditorApplication.delayCall` and `update` registration, and the scheduling order of delayed callbacks;
  - `Menu.SetChecked`, `EditorUtility.SetDirty` and `AssetDatabase.Refresh`;
  - window lookup and `Repaint`.
- RefreshVRCSDKWindows: the loop over editor windows and the deferred second repaint are reduced to one `Refresh` event. Which windows get repainted depends on the editor and is not state of this class.
- `Debug.Log` and `Debug.LogError` text is not modelled. Only the outcome the messages report is kept, as `ToggleOutcome`.
- File I/O is reduced to a sequence of lines. Byte encoding, BOM handling and the newline that `File.WriteAllLines` writes are not modelled.
- The exception paths of the `catch` blocks are not modelled. Their I/O failures come from the environment, not from this code.
- OutcomeOf: the `ToggleOutcome` of a successful write assumes that the host calls after the write raise nothing. These are `RefreshVRCSDKWindows` and `EditorUtility.SetDirty(Selection.activeObject)`, at lines 90-91. Either one may throw; `Selection.activeObject` is null when nothing is selected. If one throws, the file has still been written and refreshed, but the program logs "Operation failed" instead of the success message. The model reports `Done` for that case.
- `System.DateTime` is a natural number, and the time of a write is the parameter `now`, because the clock is outside the model.
- The detection at start-up reads the file once, and the model uses that reading. A concurrent external edit between the two reads is not modelled.
- IsDigit: `\d` is modelled as the ASCII digits `0`-`9`. .NET also matches the other Unicode decimal digits, so lines that use those are outside the model.
- ToggleBannerVisibility: requires that the new value contains no `$`. In `${1}<value>`, .NET would read a `$` in the value as a substitution, and that is not modelled. The only callers pass `0%` and `100%`.
- ToggleIdempotent: stated for a value that is itself a percentage, that is digits followed by `%`. The only values the code passes are `0%` and `100%`.
