# Background rotation and typing effect of the fsp personal site

This project models the client-side core of the site's `script.js` and proves
properties of that model:

- **Discovery**: probe `fundos/fundo_<index>.<ext>` for indices 1 to 300 and
  the extensions `png`, `gif`, `jpg`, `jpeg`. Collect the files that load, in
  index order and then extension order. Stop once 20 consecutive indices have
  no hit and at least one file has been found.
- **Catalog**: deduplicate the scan result in first-occurrence order. Fall back
  to `fundos/fundo_1.jpg` when it is empty. Resume at the stored selection
  when it is in the catalog, otherwise at entry 0.
- **Rotation**: a `BackgroundSwitcher` class holds the catalog, the current
  index, the two background layers, the crossfade flag, the pending
  transition timeout, the auto-switch interval, the delay, the two stored
  preferences and the button states. Its methods follow `applyBackground`,
  `toggleBackgroundButtonsState`, `changeBackground`,
  `startBackgroundAutoSwitch`, `toggleBackgroundAutoSwitch`, the
  interval-selector handler and `setupBackgroundSwitcher`.
- **Delay**: `normalizeBackgroundAutoSwitchDelay` and
  `setBackgroundAutoSwitchDelay`. A finite positive number is kept; anything
  else becomes 20000 ms.
- **Typing**: `typeElementLetterByLetter` shows one more character per timer
  firing. It caches the full text on the element, so typing again restarts
  from the cached text and not from what is on screen.

Files:

| File | Module | Contents |
|---|---|---|
| `common.dfy` | `Wrappers`, `Seqs` | `Option` and `NoDuplicates` |
| `delay.dfy` | `Delay` | delay normalisation |
| `discovery.dfy` | `Discovery` | the scan as a loop, its recursive specification, and the stopping rule and result shape stated without the counter |
| `catalog.dfy` | `Catalog` | deduplication, the fallback and the start index |
| `rotation.dfy` | `Rotation` | JavaScript `%`, the `BackgroundSwitcher` class and scenario methods |
| `typing.dfy` | `Typing` | typing progress as values, and a `TypedElement` class whose methods follow them |

How the environment is modelled:

- Timers are state. `pendingTarget` is the armed transition timeout, together
  with the file it will commit. `autoSwitch` is the armed interval, together
  with its period. A timer firing is a method call: `CommitTransition`,
  `AutoSwitchTick` or `Tick`.
- Browser storage is a pair of fields: `storedSelection` and `storedDelay`.
- Whether an image loads is the oracle parameter `imageExists`.
- `Number(value)` is abstracted as `Delay.Num`: a finite real number, or
  something not finite (NaN or an infinity).

Two facts about the code shape the model:

- Deduplication runs in `setupBackgroundSwitcher` (script.js:161), not in the
  scan. The scan returns its hits as collected, and `Catalog.BuildCatalog`
  deduplicates them. `Discovery.DiscoverInProbeOrder` proves that the scan
  result is already distinct, and `Catalog.BuildCatalogOfDistinct` proves that
  deduplication then changes nothing.
- The last line of script.js (304) passes `refreshCurrentBackgroundOnResize`
  to `addEventListener`, but no such function is declared. Evaluating the
  undeclared name throws a `ReferenceError` before `addEventListener` runs,
  so no resize handler is registered. Setup has already been started on the
  line before, so the modelled behaviour does not depend on it.

The index update `(index + step + length) % length` (script.js:111-112) uses
JavaScript's `%`, whose result takes the sign of the dividend. It equals the
mathematical modulo whenever `index + step + length >= 0`, and in particular
for every step of at least `-length`:

- `Rotation.JsRemainder` models the operator, pinned down by its bounds, its
  sign and its congruence with the dividend;
- `Rotation.JsRemainderOfMinusOne` shows that it differs from a Euclidean
  remainder on a negative dividend;
- `Rotation.NextIndex` states both cases of the update, and
  `Rotation.NextIndexInRange` shows that it stays in range for the steps the
  page uses.

## Model

| member | source | states |
|---|---|---|
| Delay.Normalize | script.js:24-32 | the delay is always positive; it is the parsed value when that is finite and positive, and 20000 otherwise |
| Delay.NormalizeIdempotent | script.js:24-32 | normalising an already normalised delay gives the same delay |
| Delay.RejectedInputsGiveDefault | script.js:27-29 | zero, a negative number and a non-finite value all give the default 20000 |
| Rotation.BackgroundSwitcher.SetDelay | script.js:34-36 | the delay becomes the normalised value, and exactly that value is stored |
| Discovery.NatToString | script.js:57 | the index as written in a template literal: one or more decimal digits, a single digit exactly below 10, and no leading zero |
| Discovery.FileName | script.js:57 | `fundos/fundo_<index>.<ext>`, which `ProbeOf` reads back as the probe that produced it |
| Discovery.Candidates | script.js:57 | one candidate per extension, the k-th reading back as the probe (index, k) |
| Discovery.ValidForIndex | script.js:58-59 | the hits of one index are exactly its candidates that load, at most one per extension |
| Discovery.Filter | script.js:58-59 | keeps exactly the candidates that load, and never more than there are candidates |
| Discovery.Scan | script.js:54-71 | the loop as a recursive definition, from a given index, accumulator and missing streak; `ScanLoop` is proved equal to it, and `ScanStopsAtFirstStop` characterises it |
| Discovery.Discover | script.js:52-74 | the scan from index 1 with nothing found; `ScanStopsAtFirstStop`, `DiscoverMembers` and `DiscoverInProbeOrder` state what it returns |
| Discovery.ScanLoop | script.js:53-73 | the loop with its found list, streak counter and `break`, over any per-index probe, returns exactly `Scan` from index 1 |
| Discovery.DiscoverBackgrounds | script.js:52-74 | the scan over the page's per-index probes returns exactly `Discover` |
| Discovery.StreakReaches | script.js:61-66 | after index n, the missing-streak counter is at least k iff k <= n and the k indices ending at n had no hit |
| Discovery.FirstStopFrom | script.js:63-69 | the first index at or after `from` where the scan ends is within `from`..300 |
| Discovery.FirstStopIsStopOrBound | script.js:56-69 | that index is a stop point or 300 |
| Discovery.FirstStopIsFirst | script.js:63-69 | no index before the first stop point satisfies the stopping rule |
| Discovery.FirstStopIsLeast | script.js:63-69 | a stop point preceded by no other stop point is the first stop point |
| Discovery.ScanFromIndex | script.js:56-71 | from any index, resuming on the hits so far and the counter so far yields all hits up to the first stop point |
| Discovery.ScanStopsAtFirstStop | script.js:54-71 | the scan returns every hit of indices 1 up to the last probed index, where the last probed index is the first one at which 20 consecutive indices have been empty and something was found, or 300 |
| Discovery.FoundUpToMembers | script.js:61-62 | a name has been collected up to index n iff some index in 1..n produced it |
| Discovery.NoHitsScansAll | script.js:54-71 | when no index has a hit, all 300 indices are probed and the result is empty (the streak rule cannot stop an empty scan) |
| Discovery.NothingExistsScansAll | script.js:56-71 | when no candidate file loads, all 300 indices are probed and nothing is found |
| Discovery.StopsTwentyAfterLastHit | script.js:61-69 | when indices 1..h all hit and the next 20 do not, the scan stops exactly at h + 20 and returns the non-empty hits of 1..h |
| Discovery.ParseNatToString | script.js:57 | the decimal index in a file name reads back as that index |
| Discovery.ProbeOfSpelling | script.js:57 | the spelled-out file name of a probe reads back as that probe |
| Discovery.FileNameInjective | script.js:57 | two probes give the same file name iff they are the same probe |
| Discovery.FilterOfNames | script.js:57-59 | filtering the candidate names equals naming the probes that load |
| Discovery.ValidForIndexProbes | script.js:57-59 | an index's hits are the names of its loading probes, in extension order |
| Discovery.ProbesUpToOrdered | script.js:56-62 | the probes collected up to n are in increasing (index, extension) order and have indices in 1..n |
| Discovery.ProbesUpToMembers | script.js:56-62 | a probe is collected up to n iff its index is in 1..n and it loads |
| Discovery.FoundUpToNames | script.js:56-62 | the hits up to n are the names of the collected probes, in order |
| Discovery.OrderedNamesDistinct | script.js:57 | ordered probes under an injective naming give distinct names |
| Discovery.DiscoverInProbeOrder | script.js:56-62 | the scan result is the names of the loading probes up to the last probed index, in probe order, and has no duplicates |
| Discovery.DiscoverMembers | script.js:56-62 | a name is in the result iff it is `fundos/fundo_<i>.<ext>` for an accepted extension, with 1 <= i <= the last probed index, and it loads |
| Catalog.DefaultIsCandidate | script.js:164 | the fallback file is the `jpg` candidate of index 1 |
| Catalog.Dedup | script.js:161 | the result has no duplicate, holds the same names as the input, and is no longer than it |
| Catalog.DedupOfDistinct | script.js:161 | a duplicate-free input is returned unchanged |
| Catalog.DedupKeepsFirstOccurrences | script.js:161 | names keep the relative order of their first occurrences |
| Catalog.BuildCatalog | script.js:161-165 | the catalog is never empty and has no duplicate; it holds exactly the found names, or only `fundos/fundo_1.jpg` when nothing was found |
| Catalog.BuildCatalogOfDistinct | script.js:161 | the catalog of a non-empty, distinct scan result is that result |
| Catalog.SavedIndex | script.js:168 | -1 unless the saved selection is non-empty and in the catalog, and then its position |
| Catalog.IndexOf | script.js:168 | `indexOf`: -1 iff the name is absent; otherwise the position of its first occurrence |
| Catalog.StartIndex | script.js:167-170 | an in-range index: the saved selection's position when it is non-empty and in the catalog, otherwise 0 |
| Rotation.JsRemainder | script.js:111-112 | JavaScript's `%`: the magnitude is below the divisor, the sign follows the dividend, and the dividend minus the result is a multiple of the divisor; on a non-negative dividend it is the Euclidean remainder |
| Rotation.JsRemainderOfMinusOne | script.js:111-112 | on -1 the JavaScript remainder is -1, while the Euclidean one is n - 1 |
| Rotation.NextIndex | script.js:111-112 | the offset-then-`%` update: the mathematical (index + step) mod length whenever index + step + length >= 0, and non-positive otherwise |
| Rotation.NextIndexInRange | script.js:111-112 | for an in-range index and step >= -length, the new index is in range and equals (index + step) mod length |
| Rotation.NextThenPrevious | script.js:108-115 | +1 then -1 returns to the same index |
| Rotation.PreviousThenNext | script.js:108-115 | -1 then +1 returns to the same index |
| Rotation.SavedDelayOrDefault | script.js:157-158 | the `??` choice between the stored delay and the built-in one; `SetupDelay` states what it yields |
| Rotation.SetupDelay | script.js:157-158 | the delay setup installs is the stored one normalised, or 20000 when nothing is stored |
| Rotation.BackgroundSwitcher.constructor | script.js:18-22 | the page state before setup: empty catalog, index 0, no timers, the default delay, and storage left by an earlier visit |
| Rotation.BackgroundSwitcher.ApplyBackground | script.js:76-100 | without a transition, both layers show the file and it is stored. With a transition, the next layer shows it, the crossfade is on, and the pending commit is replaced by one for this file; the current layer and storage are untouched |
| Rotation.BackgroundSwitcher.CommitTransition | script.js:95-99 | the timeout fires: both layers show the pending file, it is stored, the crossfade ends and nothing is pending |
| Rotation.BackgroundSwitcher.ToggleButtonsState | script.js:102-106 | previous/next are disabled iff the catalog has at most one entry |
| Rotation.BackgroundSwitcher.ChangeBackground | script.js:108-115 | on an empty catalog nothing changes. Otherwise the index becomes (index + step) mod length and stays in range, and a transition to that entry is pending. The current layer and storage are untouched |
| Rotation.BackgroundSwitcher.AutoSwitchTick | script.js:124-126 | the interval fires: the rotation advances by one, with a transition, when it is armed, and otherwise nothing changes |
| Rotation.BackgroundSwitcher.StartAutoSwitch | script.js:117-127 | afterwards the interval is armed with the current delay iff the catalog has more than one entry |
| Rotation.BackgroundSwitcher.ToggleAutoSwitch | script.js:129-152 | a running rotation stops and the button shows "stopped"; a stopped one restarts as `StartAutoSwitch` does and the button shows "running" |
| Rotation.BackgroundSwitcher.IntervalChanged | script.js:189-196 | the normalised delay is set and stored; the rotation is re-armed with it iff it was running |
| Rotation.BackgroundSwitcher.Setup | script.js:154-173 | without the nav buttons nothing changes. Otherwise the stored delay (or the default) is normalised and stored, and the state is `Installed` for the scan result and the selection stored beforehand; the crossfade and the pending commit are left as they were |
| Rotation.BackgroundSwitcher.InstallCatalog | script.js:161-185 | the catalog is `BuildCatalog(found)` and the index is `StartIndex`. Both layers show that entry and it is stored. Nav and stop buttons are disabled iff there is at most one entry, and the stop button shows "running". The rotation is armed with the delay iff there is more than one entry |
| Rotation.NewerTransitionWins | script.js:88-99 | two transitions before a commit: the commit shows and stores only the second file |
| Rotation.ToggleTwiceRestores | script.js:129-152 | with more than one background, toggling twice restores the auto-switch state and its period |
| Rotation.NextThenPreviousRestores | script.js:108-115 | next then previous on the switcher comes back to the same index, with a transition to that entry pending |
| Typing.TypeNext | script.js:213-220 | one step: the shown text is the first index + 1 characters, and a new step is scheduled iff text remains |
| Typing.Start | script.js:210-224 | an invocation on an empty text shows nothing and schedules nothing; otherwise it shows the first character at once |
| Typing.AfterTicks | script.js:217-219 | k timer firings keep the run consistent, advance it by at most k characters, and change nothing when no step is scheduled |
| Typing.AfterTicksAdvances | script.js:213-220 | from a started run, k firings advance the shown prefix by k characters, up to the whole text |
| Typing.TypedAfter | script.js:200-225 | after an invocation and k firings, the first min(k + 1, length) characters are shown, and a step is scheduled iff text remains |
| Typing.TypingCompletes | script.js:217-219 | after length - 1 firings the whole text is shown and nothing is scheduled |
| Typing.EmptyTextSchedulesNothing | script.js:222-224 | an empty text stays empty and schedules nothing, however many firings follow |
| Typing.FullTextOf | script.js:203 | the run's text is the element's text or the cached one, and it is empty only when the element is empty |
| Typing.CachedTextIsStable | script.js:203-204 | once a non-empty text is cached, every later run types that text, whatever the element shows |
| Typing.TypedElement.TypeLetterByLetter | script.js:200-225 | the full text is chosen by `FullTextOf` and cached. A previous run's timer is cancelled and the run is in its start state. When a text was already cached, the run keeps it |
| Typing.TypedElement.TypeNextStep | script.js:213-220 | the element's state advances exactly as `TypeNext` |
| Typing.TypedElement.Tick | script.js:217-219 | a timer firing advances the element exactly as one firing of `AfterTicks`, and keeps the cache intact |
| Typing.RetypeRestarts | script.js:203-204 | typing again part-way through a run restarts from the text the first run chose, not from the partial text on screen |

## Left out

- `checkImageExists` (script.js:43-50): image loading and `Promise.all`. These are the oracle `imageExists`. The probes of one index run concurrently, but `Promise.all` keeps extension order, and so does the model.
- Real time: the 900 ms fade, the auto-switch period and the typing speed. The model keeps the armed timers as state and turns each firing into a method call. It does not model the interleaving of firings with other events beyond what those calls allow.
- `localStorage` as such: the keys, `getItem`/`setItem`, and string conversion. Stored values are the fields `storedSelection` and `storedDelay`.
- `Number(value)` parsing and floating point: a delay is a real number or "not finite".
- Writing the delay back into the interval selector (script.js:38-40, 188): display only.
- The DOM work: CSS custom properties as strings, button `innerHTML` and ARIA attributes, event listener registration (script.js:175-176, 184, 189), section switching, menus, the context-menu handler and `runSectionTyping`.
- The null-element guard of `typeElementLetterByLetter` (script.js:201): an element always exists in the model.
- `Rotation.BackgroundSwitcher.Setup`: assumes the stop button and the interval selector exist. When they are absent, the source skips script.js:178-196. The nav-button check (script.js:155) is modelled.
- `Rotation.BackgroundSwitcher.Setup`: requires that no auto-switch interval is armed. Setup runs once, on page load, before any interval exists.
- `Rotation.BackgroundSwitcher.StartAutoSwitch`: does not model a stale interval handle. The source clears the old interval before its `length <= 1` early return but does not reset the variable. The invariant `autoSwitch.Some? ==> |catalog| > 1` shows that this path is never reached with a live interval.
- `Rotation.BackgroundSwitcher.ChangeBackground`: requires `step >= -length`, which every caller meets (they pass +1 or -1). For `index + step + length < 0` the source computes a non-positive index, negative unless the remainder is zero; `Rotation.NextIndex` states that case, but the method does not accept it.
- `refreshCurrentBackgroundOnResize` (script.js:304): not declared anywhere, so evaluating it throws a `ReferenceError` and no resize handler is registered; there is no operation to model.
- Text length in the typing effect: the model counts Unicode characters, while `slice` and `length` (script.js:214, 217) count UTF-16 code units. For a character outside the Basic Multilingual Plane, such as an emoji, the page takes two firings and shows a lone surrogate in between; the model takes one firing.
