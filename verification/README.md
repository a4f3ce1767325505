# fenster: a verified model

fenster saves and restores window layouts on Windows. This project models the logic above the Win32
layer in Dafny and proves what that logic is for. `dafny verify dfyconfig.toml` checks everything.

| files | what they model |
|---|---|
| `Types`, `Machine`, `Text`, `Decimal`, `Sequences` | plain data, wrapping machine arithmetic, and the string operations borrowed from the Go runtime; case mapping, folding and file-name rules are parameters (`Locale`) over which every result holds |
| `Titles`, `Levenshtein` | title normalization; the two-row edit-distance program and the metric it computes |
| `Assignment`, `Matching`, `Matcher` | pairing saved entries with open windows: partial injections, the three greedy passes as a specification, and the program that updates `taken` and `matched` in place |
| `MatchingTheorems`, `MatchingRanks`, `MatchingSimilar`, `MatchingStability`, `MatchingLocality`, `Capture` | what matching achieves: what each pass picks, optimality, stability under title churn, locality per executable, finding what was captured |
| `Clamp`, `Restore`, `RestorePlacements` | int32 geometry, what a restore places, leaves alone, minimizes and counts, and the save-restore round trip |
| `Fingerprint`, `FingerprintTheorems`, `FingerprintShape` | the monitor fingerprint's canonical string as a complete invariant |
| `HotkeyText`, `HotkeyTokens`, `HotkeyNames`, `HotkeyRoundTrip`, `HotkeyCapture` | parsing, printing and capturing key combinations |
| `HotkeySelect`, `HotkeyManager`, `HotkeyRuns`, `HotkeyLeaks`, `HotkeyLife`, `HotkeyMisreports` | which combinations should be live, the manager that registers them against a system it does not control, whole runs of it (alone, with releases that fail, and together with the actions that change the store), and the runs in which it misleads |
| `Menu`, `BuildMenu`, `MenuActions`, `MenuShape` | the tray menu, the two walks that number it, and what a built menu offers and shows |
| `Store`, `SliceDelete`, `Actions`, `ActionEffects`, `Application`, `Reentrancy` | the store and its atomic save, the actions with their effects and rollbacks, and nested message loops |

Code that changes state is modelled as methods over classes and arrays. Each is proved equal to a
specification function (`Matcher.MatchEntries` to `Matching.PlanOf`, `HotkeyManager.Manager.Sync` to
`Resync`, the methods of `Application` to `Actions.Do`, and so on), and the theorems are about those
functions. Sorting stands for any sort: the model's sort picks freely among equal elements.

## Where the code does not do quite what its texts say

- **Fingerprint beyond 2^31.** Normalization subtracts in int32. As long as all coordinate differences fit,
  the canonical string identifies arrangements up to order and translation (`CanonicalIsComplete`). Beyond
  that it does not (`WideArrangementsCollide`); the exact condition on all inputs is `CanonicalModuloWrap`.
- **The probe's record.** `probeReleasePending` is meant to say that id 0 is still registered. Whenever id 0 is
  held it is set, in every run. The converse fails in exactly one step: a later probe is granted and
  released while an earlier one is on record (`RecordSlipsOnlyThere`, a run in `RecordCanSlip`). The next sync
  that can release the probe repairs it (`SyncHealsRecord`).
- **Failing releases.** The loop at the start of a sync logs a failing release and forgets the id. It keeps its
  combination through all later syncs until the id is given out anew (`ForgottenStays`, `RecordCompleteIffFewFail`).
- **Overwriting bypasses the conflict check.** `select.go` says that two layouts of one setup repeat a
  combination only after editing the file by hand. Overwriting moves a layout to the current setup without
  asking who uses its combination there; distinctness survives exactly when nobody does
  (`OverwriteKeepsDistinctIffNoRival`, an input in `OverwriteBreaksDistinctness`).
- **"Used by another application".** A refused probe is reported this way. In every run, the combination is then held by
  another application, by an earlier probe or a registration whose release failed, or by fenster itself for a layout of
  the last sync (`RefusedExactlyWhen`). The last happens when the layout being edited has a hand-edited text that is not
  canonical (`OtherOrderRefusesOwn`), and when no sync has followed a change of monitors or layouts, for instance because
  the monitors could not be listed (`SkippedSyncRefusesOwn`). With layouts and setup as last synced only the first remains
  (`RefusedInStep`), and with canonical texts neither (`RefusedProbeMeansTaken`).
- **Presses after a skipped sync.** A layout deleted, moved or rebound just before the monitors cannot be listed stays
  registered as it was (`DeletedLayoutStaysRegistered`); a press finds its layout exactly when none of this happened
  (`PressFindsItsLayoutIffUntouched`).
- **Clamping near the int32 limits.** A visible rectangle is left alone exactly when its edges exist in int32
  (`ClampedIsReachable`); a hand-edited one whose right edge wraps is moved (`WideWindowIsMoved`). When centres are 2^31
  or more apart the farther of two monitors can be taken for the nearer (`FarWindowPicksFartherMonitor`).
- **Em dashes keep the application name.** Separators are tried em dash, en dash, hyphen, and only the first that occurs
  counts, so " - AppName" stays behind a title with an em dash in it (`OwnNameIsStrippedIff`).
- **Folding and lower-casing differ.** Executables are compared under folding, application names under lower-casing, so
  a raw title can match another executable's window (`FoldedNamesSwap`). Churn swaps windows exactly when pass 1 does so.
- **Two walks over the menu.** The decisions document notes that they agree "by inspection". They agree exactly when
  nothing clickable lies below a separator (`WalksAgreeIffNothingHidden`), which every built menu satisfies.

## Model

| member | source | states |
|---|---|---|
| Titles.NormalizeTitle | internal/layout/match.go:134-149 | the loop over the separators, with its `continue` and `break`, computes `Normalized`: only the first separator that occurs past the start decides, and only a segment naming the executable is dropped |
| Titles.MarkersAreIgnored | internal/layout/match.go:127-135 | any run of modification markers put in front of any title leaves the normalized title unchanged |
| Titles.OnlyMarkersAreIgnored | internal/layout/match.go:126-135 | the characters ignored in front are blank, tab, asterisk, hyphen, em dash and the five dots and circles; any other stays |
| Titles.StrippedIff | internal/layout/match.go:137-147 | a last segment is dropped exactly when the first separator of the list that occurs past the start stands before it, and it names the application |
| Titles.OwnNameIsStrippedIff | internal/layout/match.go:137-147 | behind a title extended by a separator and the application's name, that suffix and nothing else disappears exactly when no separator tried earlier occurs past the start (an em dash in the title keeps a hyphenated name in place) |
| Titles.OwnNameIsIgnored | internal/layout/match.go:129-149 | under that condition the extended title normalizes to the trimmed lower-cased title |
| Titles.NameBehindDashIsIgnored | internal/layout/match.go:137-157 | the file name of the executable without extension, in any case, disappears behind a dash between blanks, if no earlier kind of dash occurs past the start |
| Levenshtein.Compute | internal/layout/match.go:177-195 | the two-row program with its buffer swap returns the recursively defined distance of the whole strings |
| Levenshtein.DistanceIsLeastEditCost | internal/layout/match.go:177-195 | the distance is attained by some script of insertions, deletions and substitutions, and no script is shorter |
| Levenshtein.Metric | internal/layout/match.go:177-195 | the distance is a metric (zero only between equal strings, symmetric, triangle inequality) and at most the longer length |
| Levenshtein.ComputeSimilarity | internal/layout/match.go:161-175 | the early returns and the final quotient together compute the similarity of the two titles |
| Levenshtein.SimilarityIsNormalized | internal/layout/match.go:159-175 | similarity lies in [0, 1], is 1 exactly for equal strings, is symmetric, and reaches 0.6 exactly when five times the distance is at most twice the longer length |
| Matching.FilterEligible | internal/layout/match.go:41-46 | the candidates are exactly the eligible live windows, in enumeration order |
| Matching.EligiblesConcat | internal/layout/match.go:41-46 | filtering acts window by window, so the order is kept |
| Matching.PickIsBest | internal/layout/match.go:67-105 | a pass picks nothing only if no free window is acceptable; otherwise it picks an acceptable one that no other beats, the first among equals |
| Matching.RunFacts | internal/layout/match.go:51-105 | every pass keeps the pairing an injective same-executable one, never undoes a pair, and leaves no acceptable free window to an unpaired entry |
| Matching.AssignIsPairing | internal/layout/match.go:51-105 | after each of the three passes the pairing is injective, within one executable, and extends the one before |
| Matcher.PickFirst | internal/layout/match.go:67-74 | the search of passes 1 and 3 (they differ in the title test) stops at the pass's best free window |
| Matcher.PickSimilar | internal/layout/match.go:79-93 | the running best and its score find the first of the highest-scoring free windows at or above the threshold |
| Matcher.RunPass | internal/layout/match.go:51-61 | one pass, updating both slices in place while it reads them, leaves them representing the specified pairing |
| Matcher.MatchEntries | internal/layout/match.go:40-124 | matches, missing entries and unmatched windows of the program are those of the three-pass pairing, in entry and enumeration order |
| MatchingSimilar.AcceptedIffNear | internal/layout/match.go:13-13 | a free window is acceptable to pass 2 exactly when it runs the entry's executable and five times the edit distance of the normalized titles is at most twice the longer length |
| MatchingSimilar.SimilarTakesNearest | internal/layout/match.go:76-93 | an entry pass 1 left unpaired is paired by pass 2 exactly when such a window is free at its turn, and then with the first of those needing the fewest edits per character |
| MatchingSimilar.SimilarIsPlanned | internal/layout/match.go:76-114 | and this pair stands in the plan |
| MatchingTheorems.ExactPassIsMaximal | internal/layout/match.go:67-74 | after pass 1 no unpaired entry and free window share executable and title |
| MatchingTheorems.FinalIsMaximal | internal/layout/match.go:95-105 | after pass 3 no unpaired entry and free window share an executable |
| MatchingTheorems.MatchingIsOptimal | internal/layout/match.go:36-105 | no injective same-executable assignment has more pairs than the greedy one, and none has more pairs of equal titles |
| MatchingRanks.ExactPassPairsByRank | internal/layout/match.go:67-74 | pass 1, declaratively: entry and window are paired exactly when executable and title agree and as many of them come before the one as before the other |
| MatchingStability.ChurnNeverSwapsWindows | internal/layout/match.go:67-93 | if every entry has exactly one window of its executable whose title still normalizes to the saved one, each entry is given that window, in any enumeration order, exactly when pass 1 finds no other window by its raw title |
| MatchingStability.SameNamesNeverSwap | internal/layout/match.go:134-157 | which is always so when executables equal under folding give the same application name |
| MatchingStability.FoldedNamesSwap | internal/layout/match.go:134-157 | an entry that pass 1 pairs with another window, because two executables are equal under folding and not under lower-casing |
| MatchingStability.TicksDoNotMatter | cmd/fenster/main.go:489-493 | entries that agree on executables and titles are paired alike: flipping any checkboxes does not change which window belongs to which entry |
| MatchingLocality.MatchingIsLocal | internal/layout/match.go:63-105 | the pairing of one executable's entries is the one found after removing all other entries and windows, indices renumbered |
| MatchingLocality.OrdinalTakesFirstFree | internal/layout/match.go:95-105 | what pass 3 gave an entry is the first window of its executable that was free at its turn |
| MatchingLocality.OrdinalsKeepOrder | internal/layout/match.go:95-105 | entries of one executable placed by pass 3 take windows in strictly increasing enumeration order |
| Capture.Capture | internal/layout/capture.go:59-81 | the running counters give every saved window the number of earlier eligible windows with its lower-cased path; nothing ineligible is saved, everything is ticked |
| Capture.OrdinalsCountUp | internal/layout/capture.go:57-81 | ordinals of one executable increase strictly in enumeration order |
| Capture.EntryRecords | internal/layout/capture.go:57-80 | a saved entry holds its window's executable, class, title, both rectangles, state and topmost flag, is ticked, and counts the earlier eligible windows of its executable |
| Capture.FirstPassFindsAll | internal/layout/match.go:67-74 | if the open windows include the captured ones as a multiset of executable and title, pass 1 alone pairs every entry |
| Capture.CapturedWindowsAreFound | internal/layout/match.go:67-123 | under the same condition, whatever the order and the extra windows, nothing is missing and every match has its exact title |
| Capture.CaptureIsFixed | internal/layout/match.go:67-123 | matched against the very windows it was captured from, entry i gets window i and no window is left over |
| Clamp.OverlapsIffSharesPixel | internal/layout/clamp.go:20-24 | on all rectangles with area, wrap-around included, the four comparisons hold exactly when the two have a pixel in common and neither has an edge beyond int32 |
| Clamp.OnScreenIffSharesPixel | internal/layout/clamp.go:19-24 | so the loop finds a rectangle on screen exactly when its edges exist in int32 and it shares a pixel with a monitor whose edges do |
| Clamp.EnumeratedEdgeFits | internal/win32/desktop_windows.go:218-223 | monitors enumerated with their edges in order have edges in int32, since sizes are computed from them |
| Clamp.Nearest | internal/layout/clamp.go:50-61 | on all inputs, wrap-around of int32 and int64 included, the loop returns the monitor the scan prefers |
| Clamp.PreferredIsNearest | internal/layout/clamp.go:49-61 | when no two centres are 2^31 or more apart, whatever wraps on the way, that is the first monitor at minimum centre distance |
| Clamp.FarWindowPicksFartherMonitor | internal/layout/clamp.go:50-61 | a hand-edited position and two ordinary monitors, of which the farther one is preferred because a difference wraps |
| Clamp.ClampToScreen | internal/layout/clamp.go:15-36 | on all inputs the early returns and the field-by-field adjustment compute the clamped rectangle, wrap-around included |
| Clamp.PlacedIsMinimal | internal/layout/clamp.go:26-35 | shrinking and shifting put a rectangle inside the area, shrunk only as needed, and moved on each axis no further than any other placement of that size |
| Clamp.ClampedIsReachable | internal/layout/clamp.go:8-47 | a rectangle is returned unchanged exactly when it shares a pixel with some monitor and its edges exist in int32; the result is always visible; any other rectangle ends wholly inside the work area of a monitor (inside the whole monitor if that area is unknown), minimally changed: of the first nearest monitor, if centres are less than 2^31 apart |
| Clamp.LandsAboveTaskbar | internal/layout/clamp.go:38-47 | a window below and right of a monitor with a taskbar comes to rest in the corner above it |
| Clamp.ClampIsIdempotent | internal/layout/clamp.go:15-36 | clamping a clamped rectangle changes nothing |
| Clamp.SmallNumbersFit | internal/layout/clamp.go:15-61 | coordinates and sizes within 2^29 of zero satisfy all these conditions |
| Clamp.WideWindowIsMoved | internal/layout/clamp.go:20-24 | a hand-edited rectangle in plain sight on an ordinary monitor whose right edge wraps, and which is therefore changed |
| Restore.ClampEntry | cmd/fenster/main.go:534-551 | the restored rectangle is always clamped, the screen rectangle only when it has area |
| Restore.WindowsToMinimize | cmd/fenster/main.go:513-532 | with the option on, the handles of the unmatched windows that are not minimized yet, in order; otherwise none |
| Restore.ActionRestore | cmd/fenster/main.go:464-500 | the four counters, the minimized windows and the sequence of placements attempted are those the plan prescribes, whichever windows refuse; what these are is said by the next rows |
| RestorePlacements.PlacementsFollowTicks | cmd/fenster/main.go:484-498 | the placements attempted are in order one for each ticked match: its window, the entry's restored rectangle clamped, its screen rectangle clamped if it has area, its state and topmost flag |
| RestorePlacements.CountersCount | cmd/fenster/main.go:483-499 | deselected counts the matches whose entry is not ticked, failed the ticked ones whose window cannot be placed, restored the other ticked ones |
| RestorePlacements.MatchesInOrder | internal/layout/match.go:107-115 | the matches are in entry order exactly one for each paired entry, with its own window, and missing counts the others |
| RestorePlacements.UnmatchedInOrder | internal/layout/match.go:116-123 | the unmatched windows are those no entry took, in enumeration order |
| RestorePlacements.MinimizedInOrder | cmd/fenster/main.go:520-532 | the handles to minimize are those of the unmatched windows not minimized yet, in order |
| RestorePlacements.SavedIsRestored | cmd/fenster/main.go:464-500 | save, then restore: with the same windows open and all of them on screen, each eligible window is placed once, in order, exactly as it is, and nothing is missing or minimized |
| RestorePlacements.OnlyOrdinaryWindows | internal/layout/capture.go:29-55 | saved, matched or possibly minimized are exactly the shown, titled windows of other programs with area; never tool, cloaked, shell or own windows |
| Restore.RestoreAccounts | cmd/fenster/main.go:483-499 | restored, deselected, failed and missing add up to the number of entries, and matched plus unmatched windows are exactly the eligible ones, each once |
| Restore.OnlyForeignWindowsAreMinimized | internal/layout/match.go:26-33 | with distinct handles no window claimed by an entry, ticked or not, is minimized; every other eligible window is, unless it already was |
| Fingerprint.SortedIsUnique | internal/monitors/fingerprint.go:64-99 | two sorted arrangements with the same monitors are equal field by field, so an unstable sort cannot show |
| Fingerprint.SortSlice | internal/monitors/fingerprint.go:75-99 | any sort by this comparator, free among equals, leaves a sorted permutation in place |
| Fingerprint.FindOrigin | internal/monitors/fingerprint.go:101-113 | the first primary monitor's corner, else the first monitor's, else zero |
| Fingerprint.Normalize | internal/monitors/fingerprint.go:67-120 | copy, sort, choice of origin and in-place int32 subtraction leave the normal form of the input |
| FingerprintTheorems.Canonical | internal/monitors/fingerprint.go:51-62 | the filled and joined parts are the rendering of the normal form |
| FingerprintShape.ListedTopToBottom | internal/monitors/fingerprint.go:75-99 | monitors are listed from top to bottom, then left to right, then by width, height, scale and primary last |
| FingerprintShape.MeasuredFromReference | internal/monitors/fingerprint.go:101-118 | the first primary monitor (the first one, if none is primary) lies at (0, 0), every other where it lies relative to it modulo 2^32, and nothing else changes |
| FingerprintShape.TwoMonitorsWritten | internal/monitors/fingerprint.go:48-62 | a primary monitor and a laptop to its lower left, and the string they are written as |
| FingerprintTheorems.PartIsReadable | internal/monitors/fingerprint.go:54-60 | one rendered monitor in front of a separator or the end determines all its fields and what follows |
| FingerprintTheorems.RenderInjective | internal/monitors/fingerprint.go:51-62 | different normal forms, the empty one included, never render to the same string |
| FingerprintTheorems.SortOfTranslated | internal/monitors/fingerprint.go:75-99 | sorting a reordered translated copy gives the translated sorted list |
| FingerprintTheorems.CanonicalIsInvariant | internal/monitors/fingerprint.go:48-62 | a permutation of a translated copy has the same canonical string, on all inputs |
| FingerprintTheorems.CanonicalIsComplete | internal/monitors/fingerprint.go:48-62 | when differences fit an int32, canonical strings are equal exactly when one arrangement is a permutation of a translated copy of the other, work areas aside |
| FingerprintTheorems.CanonicalModuloWrap | internal/monitors/fingerprint.go:114-118 | on all int32 inputs: equal exactly when the sorted lists agree up to a translation modulo 2^32 |
| FingerprintTheorems.WideArrangementsCollide | internal/monitors/fingerprint.go:114-118 | two arrangements that are not translated copies of each other and still share a canonical string |
| HotkeyText.Parse | internal/hotkey/hotkey.go:113-149 | the token loop returns the combination, or the first error in token order, then the missing key, then the missing modifier |
| HotkeyTokens.SplittingIgnoresSeparators | internal/hotkey/hotkey.go:103-118 | tokens spelled with any separators between and around them are split back into exactly these tokens |
| HotkeyNames.OthersDoNotSeparate | internal/hotkey/hotkey.go:103-106 | a text without plus, hyphen and blank is one token |
| HotkeyTokens.ParseMeans | internal/hotkey/hotkey.go:113-149 | a text that is not blank parses to h exactly when all its tokens are known, exactly one names a key, which is h's, and the modifiers that occur are h's and not none |
| HotkeyNames.RejectedExactlyWhen | internal/hotkey/hotkey.go:113-149 | a text that is not blank is rejected for its first unknown token unless a second key comes before it, for a second key unless an unknown token comes before it, otherwise for a missing key, then for a missing modifier |
| HotkeyTokens.ParsingDependsOnMeaning | internal/hotkey/hotkey.go:113-149 | success and result depend only on which modifiers, keys and unknown names occur, not on order, repetition, case, alias or separators |
| HotkeyTokens.SpellingDoesNotMatter | internal/hotkey/hotkey.go:103-149 | two texts whose tokens agree up to order, repeated modifiers, case and alias, with any separators around and between them, parse alike exactly when both or neither are blank |
| HotkeyNames.TypedNameMeans | internal/hotkey/hotkey.go:40-77 | in any case, every name of a modifier sets it, and every further name of a key presses it |
| HotkeyNames.TypedCombinationParses | internal/hotkey/hotkey.go:40-118 | any of these names joined by plus, hyphen or blank parse to their combination |
| HotkeyRoundTrip.KeyNameMeans | internal/hotkey/hotkey.go:82-101 | the printed name of every supported key, English or German, is one token and is looked up as this key |
| HotkeyRoundTrip.TokensOfJoin | internal/hotkey/hotkey.go:160-165 | joining tokens with plus signs is undone by splitting |
| HotkeyRoundTrip.PrintThenParse | internal/hotkey/hotkey.go:151-165 | parsing the canonical text or the German label of any valid combination (or of none) gives it back |
| HotkeyNames.ModifiersShown | internal/hotkey/hotkey.go:167-186 | modifiers are shown as Ctrl, Alt, Shift, Win in this order, in German as Strg, Alt, Umschalt, Win |
| HotkeyNames.NamedKeyShown | internal/hotkey/hotkey.go:62-77 | each of the fourteen named key codes is shown by its English name in the file and by its German one on screen |
| HotkeyNames.CombinationsShown | internal/hotkey/hotkey.go:151-165 | whole combinations as they are written: joined by plus, nothing for no hotkey |
| HotkeyCapture.ModsRoundTrip | cmd/fenster/hotkeys.go:180-200 | hotkeyMods undoes win32Mods |
| HotkeyCapture.BitsRoundTrip | cmd/fenster/hotkeys.go:40-60 | the other way round all bits but the four flags are dropped |
| HotkeyCapture.FlagValues | cmd/fenster/hotkeys.go:45-60 | Alt, Ctrl, Shift and Win become the flags 1, 2, 4 and 8 |
| HotkeyCapture.ValidIffNamed | internal/hotkey/hotkey.go:243-254 | the key codes accepted from the keyboard are exactly those that some name in the lookup table stands for |
| HotkeyCapture.ParseIsValid | internal/hotkey/hotkey.go:113-149 | whatever parses is none (for a blank text) or has a modifier and a supported key |
| HotkeyCapture.CanonicalIsNormalForm | internal/hotkey/hotkey.go:151-158 | for every text that parses, canonical text and label of the result parse to it again |
| HotkeyCapture.CanonicalIsInjective | internal/hotkey/hotkey.go:151-165 | different combinations have different canonical texts and different labels |
| HotkeyCapture.CaptureAgreesWithParse | internal/hotkey/hotkey.go:256-274 | the capture dialog accepts a keystroke exactly when some text parses to it, as the same combination |
| HotkeyCapture.RefusalReasons | internal/hotkey/hotkey.go:226-274 | a keystroke is refused for no key, the code of no key, a key no name stands for, or no modifier, in this order, and accepted otherwise |
| HotkeySelect.Active | internal/hotkey/select.go:28-59 | the loop with its `seen` map selects the bindings of the layouts that are first in the setup with their combination, in store order, and reports every unparseable text with its error and every repetition with the layout it repeats |
| HotkeySelect.Conflict | internal/hotkey/select.go:61-83 | the first other layout of the setup bound to the combination, or none exactly when there is none |
| HotkeySelect.ActiveCovers | internal/hotkey/select.go:15-27 | every combination bound in the setup is active |
| HotkeySelect.ActiveIsDistinct | internal/hotkey/select.go:49-56 | no combination is active twice |
| HotkeySelect.ActiveInOrder | internal/hotkey/select.go:33-57 | the active bindings are those of the layouts first in the setup with their combination, in store order |
| HotkeySelect.ProblemsAreReports | internal/hotkey/select.go:37-55 | reported are exactly the texts of the setup that do not parse, with their error, and the combinations an earlier layout has, with the first such layout |
| HotkeySelect.NothingDroppedIffDistinct | internal/hotkey/select.go:15-27 | no parseable binding is dropped exactly when the setup's combinations are pairwise distinct |
| HotkeyManager.Manager.Probe | cmd/fenster/hotkeys.go:96-118 | the answer is whether neither another application nor this process holds the combination; only a probe whose release failed stays behind, on record |
| HotkeyManager.Manager.ReleaseAll | cmd/fenster/hotkeys.go:141-146 | whatever order the map is visited in, the ids on record are released, except those whose release fails, which are held on and forgotten |
| HotkeyManager.Manager.RegisterEach | cmd/fenster/hotkeys.go:148-177 | whatever is held at the start, the bindings are registered one after the other under ids counting up, and the refused ones and those newly refused are recorded |
| HotkeyManager.Manager.Sync | cmd/fenster/hotkeys.go:120-178 | the whole new state and the number of layouts that became unavailable, in any state and with any releases failing; when only the probe's can fail, they are a function of the active bindings, the outside world and a stuck probe |
| HotkeyManager.ResyncIsAfterSync | cmd/fenster/hotkeys.go:120-131 | the step-by-step outcome has that closed form: granted are exactly the bindings nobody else and no stuck probe holds |
| HotkeyLeaks.NewlyIsTheDifference | cmd/fenster/hotkeys.go:126-131 | a sync returns how many layouts are unavailable now and were not before |
| HotkeyManager.FreshCombo | cmd/fenster/hotkeys.go:160-167 | a binding is never refused because of a registration made earlier in the same sync |
| HotkeyRuns.SyncShape | cmd/fenster/hotkeys.go:132-178 | after a sync the process holds exactly the registered ids 1..k, plus id 0 exactly when a probe was stuck |
| HotkeyRuns.SyncPartitionsActive | cmd/fenster/hotkeys.go:156-177 | one sync, for bindings of distinct layouts: each is either registered or unavailable, and unavailable exactly when another application or a stuck probe holds its combination |
| HotkeyRuns.ActiveLayoutsDistinct | internal/hotkey/select.go:28-59 | distinct ids in the store give bindings of distinct layouts |
| HotkeyRuns.SyncInRunPartitionsActive | cmd/fenster/hotkeys.go:132-178 | after a sync at the end of any run, for any store with distinct ids: registered and unavailable layouts partition the active ones, and a layout is unavailable exactly when its combination is held by another application or a stuck probe |
| HotkeyRuns.SyncCoversOnlyActive | cmd/fenster/hotkeys.go:156-177 | nothing but active layouts is registered or unavailable |
| HotkeyRuns.SyncForgetsHistory | cmd/fenster/hotkeys.go:120-131 | states that agree on the outside world and the probe end up the same, whatever was registered before |
| HotkeyRuns.EveryRunKeepsInv | cmd/fenster/hotkeys.go:64-75 | in every run of syncs, probes and changes elsewhere: registrations are ids 1..k, anything else held is a probe on record, nothing is both ours and foreign |
| HotkeyLeaks.SyncPartitionsActiveAnyway | cmd/fenster/hotkeys.go:141-177 | after a sync in any state, with any releases failing: every active layout is registered or unavailable, and unavailable exactly when another application holds its combination, or a leftover does whose id has not been given out anew at its turn |
| HotkeyLeaks.SyncOfAnyStore | cmd/fenster/hotkeys.go:132-178 | the same for the active bindings of any store with distinct ids |
| HotkeyLeaks.EveryRunIsSane | cmd/fenster/hotkeys.go:132-178 | in every run with any releases failing: registrations are the ids 1..k and are held, and no combination is both ours and foreign |
| HotkeyLeaks.RecordCompleteIffReused | cmd/fenster/hotkeys.go:141-146 | after a sync everything held but the probe's id is on record exactly when each id whose release failed is given out anew |
| HotkeyLeaks.RecordCompleteIffFewFail | cmd/fenster/hotkeys.go:141-167 | decided before the sync: when no active combination is foreign or left over, exactly when no id whose release fails exceeds the number of active bindings |
| HotkeyLeaks.SyncForgets | cmd/fenster/hotkeys.go:141-146 | an id whose release fails, or was forgotten before, keeps its combination through a sync with any bindings and is off the record, unless it is given out anew |
| HotkeyLeaks.ForgottenStays | cmd/fenster/hotkeys.go:141-146 | through every run of syncs, probes and changes elsewhere, whichever releases fail or succeed, a forgotten registration keeps its combination as long as its id is not given out anew |
| HotkeyRuns.RecordSlipsOnlyThere | cmd/fenster/hotkeys.go:96-118 | from an accurate record each step keeps it accurate, except exactly a probe granted and released while one is on record |
| HotkeyRuns.RecordStaysAccurate | cmd/fenster/hotkeys.go:96-118 | runs without that step keep the record accurate throughout |
| HotkeyRuns.SyncHealsRecord | cmd/fenster/hotkeys.go:133-139 | a sync that can release the probe leaves no probe held and an accurate record |
| HotkeyRuns.RecordCanSlip | cmd/fenster/hotkeys.go:96-118 | a run after which the record is set although nothing is held |
| HotkeyLife.PressHasALayout | cmd/fenster/main.go:223-260 | in every run of actions, display changes, failing saves, failing releases of any id, skipped syncs and other applications, from any store with distinct ids: behind a registered id stands a layout of the last sync that stored exactly the combination held under this id |
| HotkeyLife.PressFindsItsLayoutIffUntouched | cmd/fenster/main.go:262-300 | in every such run a press finds in the store a layout of the setup last synced that stores the pressed combination, exactly when that layout has not been deleted, moved to another setup or rebound since the sync |
| HotkeyLife.PressFindsItsLayout | cmd/fenster/main.go:262-300 | in particular, as long as the layouts are those of the last sync |
| HotkeyLife.SyncsKeepInStep | cmd/fenster/main.go:228-244 | that is so after every sync that takes place; where one is skipped, exactly actions that change the layouts end it |
| HotkeyLife.DeletedLayoutStaysRegistered | cmd/fenster/main.go:232-240 | a layout deleted right before the monitors cannot be listed stays registered although the store no longer has it |
| HotkeyLife.RefusedExactlyWhen | cmd/fenster/main.go:692-712 | in every such run the system refuses a combination exactly when another application holds it, or a stuck probe does, or a forgotten registration does, or fenster itself: because a layout of the last sync bound it, first in the setup synced, and the sync got it |
| HotkeyLife.RefusedInStep | cmd/fenster/main.go:674-712 | in every such run, if the layouts are those of the last sync and the probed setup is the one synced, the last case means exactly that the edited layout itself already stores the combination and has it, under a text that is not canonical |
| HotkeyLife.NothingForgotten | cmd/fenster/main.go:223-260 | in runs in which only the probe's release fails no forgotten registration holds anything |
| HotkeyLife.RefusedProbeMeansTaken | cmd/fenster/main.go:681-712 | in step as before, and in runs that start from canonical texts, a probe is refused exactly when another application, a stuck probe or a forgotten registration holds the combination |
| HotkeyLife.UngrantedIsNotStored | cmd/fenster/main.go:643-712 | a combination of the current setup that the system does not grant never reaches the store |
| HotkeyMisreports.SkippedSyncRefusesOwn | cmd/fenster/main.go:232-240 | a two-layout store and a run in which a display change goes unnoticed: fenster then refuses a combination only it holds, though every text is canonical |
| HotkeyMisreports.OtherOrderRefusesOwn | cmd/fenster/main.go:674-683 | a layout whose text is "Alt+Ctrl+1" is refused Ctrl+Alt+1 by its own registration |
| HotkeyLife.ActionKeepsTidy | cmd/fenster/main.go:387-426 | every action, saved or rolled back, keeps ids distinct and stored combinations in canonical text |
| HotkeyLife.ShutdownReleases | cmd/fenster/main.go:138-150 | the sync with no layouts at shutdown leaves nothing registered and holds only what could not be released; nothing, when only the probe's release can fail and does not |
| Menu.FlattenActions | internal/tray/menumodel.go:210-228 | the recursive walk with its shared counter and map builds the table of all clickable items in depth-first order |
| Menu.TableIsNumbering | internal/tray/menumodel.go:210-228 | the ids of the table are exactly 1..n, the k-th standing for the k-th action |
| Menu.Render | internal/tray/render_windows.go:19-45 | the menu built by the second walk and its own counter is the specified tree of entries, paired with the table |
| Menu.RenderingShowsLeaves | internal/tray/render_windows.go:22-43 | the commands of the rendered menu are the visible leaves, in order, with ids counting up over the clickable ones |
| Menu.RenderedMirrorsItems | internal/tray/render_windows.go:22-43 | the rendered tree has dividers, submenus and commands in the same places as the item tree, with the same captions, checks and disabled flags |
| Menu.WalksAgreeIffNothingHidden | docs/superpowers/2026-09-18-fenster-decisions.md:163-168 | the two walks number the same actions exactly when nothing clickable lies below a separator |
| Menu.ClicksReachTheirAction | internal/tray/render_windows.go:8-45 | if separators have no children, the id wired to a leaf stands for that leaf's own action, and 0 marks exactly the leaves without an action |
| Menu.EveryIdIsWired | internal/tray/render_windows.go:8-45 | and every id of the table is wired to some leaf |
| BuildMenu.ComputeLayoutItem | internal/tray/menumodel.go:126-193 | one layout's submenu: windows without a match are disabled and marked, ticks show, the accelerator appears only in the current setup |
| BuildMenu.Build | internal/tray/menumodel.go:76-124 | the loop's two lists, the placeholder and the submenu of other setups form the specified menu |
| MenuShape.MenuShowsSetups | internal/tray/menumodel.go:76-124 | top to bottom: saving; the layouts whose fingerprint is the current one, in store order, or a placeholder exactly when there are none; a submenu with all others in store order, exactly when there are some; the options with their state |
| MenuShape.LayoutItemIsRow | internal/tray/menumodel.go:126-193 | a layout's row: its name without tabs and, in the current setup, its shortcut (marked when refused); below it each saved window, checked exactly when ticked and disabled exactly when no open window matches it, and the management commands |
| BuildMenu.BuiltMenusAreBare | internal/tray/menumodel.go:78-193 | no built menu has anything below a separator |
| BuildMenu.BuiltMenusKeepDividersApart | internal/tray/menumodel.go:78-193 | no built menu has two adjacent separators, at any level |
| MenuActions.MenuOffersAllActions | internal/tray/menumodel.go:78-193 | depth first, a built menu offers exactly: save, each layout's commands (current setup first), the four global ones |
| MenuActions.MenuTableIsExact | internal/tray/menumodel.go:210-228 | with distinct layout ids the table is injective, has exactly 5 ids plus 5 per layout plus 1 per saved window, and reaches every layout's every command |
| Store.Store.Find | internal/store/store.go:159-166 | the first layout with the id, or none exactly when no layout has it |
| Store.Store.Add | internal/store/store.go:122-123 | the layout is appended, in place while the backing array has room, else in a larger copy that leaves the old array as it was |
| Store.Store.Replace | internal/store/store.go:125-133 | exactly the first layout with the id is overwritten in place; an unknown id changes nothing and is reported |
| Store.Store.Delete | internal/store/store.go:135-143 | exactly the first layout with the id disappears and the others keep their order, by shifting the tail in the backing array, whose slot behind the new end keeps its value |
| Store.Store.SetInclude | internal/store/store.go:145-157 | one checkbox and the time stamp change; an unknown id or an index out of range changes nothing |
| Store.Store.Save | internal/store/store.go:68-107 | whichever steps fail: success exactly when none of them did, the file then holds the whole store on stable storage, otherwise it is untouched; every state in between leaves it old or new |
| Store.SaveNeedsEveryStep | internal/store/store.go:70-107 | a save succeeds exactly when each step up to the rename does |
| Store.CrashLeavesOldOrNew | internal/store/store.go:68-107 | after a crash in any such state the file reads as the whole old or the whole new contents |
| SliceDelete.DeleteShift | internal/store/store.go:136-143 | deleting shifts the tail of the backing array in place and leaves the last slot as it was |
| SliceDelete.DrainedAt | internal/store/store.go:136-143 | deleting from the front until nothing is left smears the last element over all the slots in front of it |
| SliceDelete.AliasedOrderIsLost | cmd/fenster/main.go:751-755 | deleting one layout and then, as the rollback does, every other one leaves the front of the backing array as it was exactly when there was one layout, or two and the second was deleted; hence the copy of the order |
| ActionEffects.SaveStores | cmd/fenster/main.go:428-462 | saving appends one layout with the new id, the trimmed name, the setup, the captured windows and no hotkey; a cancelled or blank name changes nothing |
| ActionEffects.SavedLayoutRestores | cmd/fenster/main.go:441-449 | matching the layout just stored against the same open windows misses none and leaves none over, and if all are on screen restoring it places each exactly as it is |
| ActionEffects.RenameStores | cmd/fenster/main.go:609-641 | renaming changes exactly name and stamp of its layout, unless the new name is blank or the old one |
| ActionEffects.OverwriteStores | cmd/fenster/main.go:583-607 | overwriting replaces exactly setup, windows and stamp of its layout |
| ActionEffects.ToggleStores | cmd/fenster/main.go:555-581 | a toggle flips exactly one tick and sets the stamp; an index out of range changes nothing |
| ActionEffects.ToggleTwice | cmd/fenster/main.go:555-581 | toggling twice is the identity up to the stamp |
| ActionEffects.AssignStores | cmd/fenster/main.go:646-738 | an assignment stores the canonical text and the stamp, exactly when it changes something, no other layout of the setup has the combination, and the system grants it if the setup is current; clearing needs neither |
| ActionEffects.ProbeAskedExactlyWhen | cmd/fenster/main.go:681-712 | the system is asked exactly when the combination of a layout of the current setup would change and no other layout has it |
| ActionEffects.DeleteStores | cmd/fenster/main.go:740-767 | deleting removes exactly its layout, once confirmed |
| ActionEffects.MinimizeStores | internal/store/store.go:180-195 | the unset option counts as on, so the first toggle stores that it is off; layouts are untouched |
| ActionEffects.UnknownIdChangesNothing | cmd/fenster/main.go:555-561 | an action on an id no layout has changes nothing |
| ActionEffects.FailedActionKeepsFile | cmd/fenster/main.go:451-460 | a failing save leaves the file alone, and the memory but for stamps and an explicit default |
| Actions.RollbackRestores | cmd/fenster/main.go:451-460 | rolling back any action restores the memory, up to a time stamp (checkbox) or an explicit default (option) |
| Actions.RunsKeepAgreement | cmd/fenster/main.go:428-462 | in every run with saves failing anywhere, memory and file agree after each action, up to the same two details |
| Actions.RunsKeepHotkeysDistinct | internal/hotkey/select.go:15-27 | in every run in which overwriting keeps the setup, no two layouts of one setup come to share a combination |
| Actions.OverwriteKeepsDistinctIffNoRival | cmd/fenster/main.go:583-607 | overwriting keeps combinations distinct exactly when no other layout of the new setup uses the layout's combination |
| HotkeyMisreports.OverwriteBreaksDistinctness | cmd/fenster/main.go:583-607 | a store in which each setup has its combinations once, and an overwrite after which one setup has a combination twice |
| Actions.DistinctHotkeysIffEverySetup | internal/hotkey/select.go:15-27 | distinctness across the store is distinctness within every setup |
| Actions.CanonicalIsStored | cmd/fenster/main.go:714-716 | the text an assignment stores is read back as the assigned combination |
| Application.Application.ActionSave | cmd/fenster/main.go:428-462 | memory and file afterwards are those of the action `Do` for every input and every failing step, with the windows captured from the open ones |
| Application.Application.ActionRename | cmd/fenster/main.go:609-641 | the same for renaming |
| Application.Application.ActionOverwrite | cmd/fenster/main.go:583-607 | the same for overwriting |
| Application.Application.ActionToggleInclude | cmd/fenster/main.go:553-581 | the same for a checkbox, and the menu reopens exactly when the change was saved |
| Application.Application.ActionToggleMinimize | cmd/fenster/main.go:819-833 | the same for the option |
| Application.Application.ActionDelete | cmd/fenster/main.go:740-767 | the same for deleting: although deleting shifts the array in place, a failed save leaves the layouts in their exact order, because the order was copied first |
| Application.Application.RestoreOrder | cmd/fenster/main.go:769-788 | deleting every id in turn and appending leaves exactly the given order when it lies in an array of its own; in the store's own array, what the deletions left of it |
| Application.Application.ActionHotkey | cmd/fenster/main.go:643-738 | the same for assigning, changing or clearing a hotkey: the guards, the conflict check and the probe decide whether anything is stored, and the system is asked exactly when they let the assignment reach the probe |
| Application.AskedMeans | cmd/fenster/main.go:654-673 | a cancelled dialog asks for nothing, clearing for no hotkey, and a keystroke for its combination exactly when some text parses to it |
| Reentrancy.StepKeepsInv | cmd/fenster/main.go:176-193 | every step of the thread keeps at most one handler, under at most one display change, holding current data |
| Reentrancy.OneHandlerAtATime | cmd/fenster/main.go:258-318 | under every interleaving at most one tray or hotkey handler is past its guard |
| Reentrancy.NoLostUpdate | cmd/fenster/main.go:609-629 | under every interleaving the layout an action read is still the stored one when it replaces it |
| Reentrancy.WithoutGuardUpdatesAreLost | cmd/fenster/main.go:176-184 | without the guard there is an interleaving in which a replaced layout is overwritten from a stale copy |

## Left out

- Clamp.ClampedIsReachable: assumes monitors with area, edges in int32 and their work area inside, as enumeration delivers them; what counts as on screen without that is `OnScreenIffSharesPixel`, and the computed result is modelled on all inputs.
- FingerprintTheorems.CanonicalIsComplete: needs coordinate differences below 2^31, since it is false without (`WideArrangementsCollide`); the exact statement on all inputs is `CanonicalModuloWrap`.
- HotkeyRoundTrip.PrintThenParse: assumes that lower-casing is right on ASCII and leaves the two arrow characters of the page keys alone; nothing else is assumed of Unicode.
- Actions.RunsKeepHotkeysDistinct: excludes overwriting a layout into another setup, for which the exact condition is `OverwriteKeepsDistinctIffNoRival`.
- HotkeyRuns.EveryRunKeepsInv: runs in which only the probe's release can fail; what holds whichever releases fail is in HotkeyLeaks and HotkeyLife.
- HotkeyManager.Backend: registering an id again moves it to the new combination, as the repository's own fake does; other applications move between calls, not inside a sync; a refusal for any other reason counts as held by somebody else.
- Reentrancy: handlers are reduced to reading, waiting, replacing and changing; the handlers' own contents are in Application, where dialogs are parameters.
- HotkeyLife: layout ids are distinct from the start, and new ones fresh. An action and the sync after it are one step. Display changes that arrive while its dialog is open are ordered before it, which loses nothing, since an action works on current data (`Reentrancy.NoLostUpdate`).
- Win32: syscalls, windows, dialogs, the tray icon, the registry and autostart are foreign calls; a window that cannot be placed and a monitor list that cannot be read are parameters.
- Files: JSON encoding and its migration on loading, damaged files and real I/O; an encoded store is an abstract value, a crash may leave any part of unsynced contents.
- Time and ids: clock values are parameters; NewID's ids are assumed fresh.
- SHA-256: the fingerprint truncates a hash of the canonical string, so equal fingerprints imply nothing; all statements are on the canonical string.
- Floating point: similarity is an exact quotient, so rounding near the threshold is not modelled.
- Slices: the store's list is a slice over a backing array; the window list inside a layout is a sequence, so that copies of a layout do not share it.
- Name tables: the tables the program fills in loops at start-up are functions giving the same lookups, last entry winning; win32Mods and hotkeyMods are expressions instead of assignments to a local.
- Modifiers are a set of four flags, and menu ids unbounded numbers instead of 32-bit ones.
- Passes 1 and 3 of the matcher share one search method, since they differ only in the title test.
- NormalizeTitle is not idempotent ("a - editor - editor" loses one suffix at a time), so nothing of the kind is claimed.
- A queued hotkey press keeps its id across a sync while ids are handed out anew; which layout it then restores is not modelled.
- Texts shown to the user (suggested names, balloons, monitor labels), quitting and deployment have no logic worth a proof.
