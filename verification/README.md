# Keyboard Shortcut extension: the hint overlay, in Dafny

This project models the core of the Keyboard Shortcut extension for the Spotify
desktop client (`Extensions/keyboardShortcut.js`): the vim-style hint overlay
`VimBind`, the guard that `registerBind` puts around every global shortcut, and
the sidebar rotation arithmetic. The DOM is abstracted away.

- A candidate element is a record (`Elements.Element`). It holds the inline
  `display`, `visibility` and `opacity` values, its bounding box as integers,
  whether it has an `href`, its tag name, and its descendants as far as the
  play-button selectors see them.
- A hint (`Overlay.Hint`) is the code text still to type plus the element it
  clicks.
- The overlay state (`Overlay.OverlayState`) is `isActive` plus the hints, in
  the order they were attached.
- Activation, deactivation and keystrokes are pure functions of that state.
  `Extension.Step` combines them with the shortcut table into one event
  machine, and `Extension.Inv` is its invariant.

Modules: `Wrappers` (option type), `Elements` (candidates and the visibility
filter), `HintCodes` (the alphabet `qwertasdfgzxcvyuiophjklbnm`, codes, their
inverse), `Overlay` (hints, activate, deactivate, narrowing), `Click` (click
resolution), `Shortcuts` (the binding table and the guard), `Sidebar`
(`findActiveIndex`, `rotateSidebar`), `Extension` (the whole machine).

Three facts about the code that shape the model:
- Codes are pairs over `qwertasdfgzxcvyuiophjklbnm`, handed out in that order. The first visible element gets `qq` and the 27th gets `wq`; the first code is `qq`, not `aa`.
- An activation key does nothing while the overlay is active, because `registerBind`'s guard suppresses every registered shortcut while `isActive` holds. `activate` has a "labels present" branch that only removes the labels, but in reachable states the bindings never reach it (`Extension.ActivationAlwaysRescans`).
- Any single failed geometric test hides an element. The box the bounds are checked against is `document.body`'s client size.

## Model

| member | source | states |
|---|---|---|
| Elements.Survivors | Extensions/keyboardShortcut.js:273-294 | every element that gets a hint comes from the candidate list and passes every style and geometry check |
| Elements.SurvivorsMembership | Extensions/keyboardShortcut.js:275-294 | a candidate survives exactly when its display is not `none`, its visibility is not `hidden`, its opacity is not `"0"`, it is neither zero-wide nor zero-high, and it has top >= 0, right >= 0, bottom <= clientHeight and left <= clientWidth |
| Elements.SurvivorsAppend | Extensions/keyboardShortcut.js:273-303 | the filter judges each candidate on its own and keeps document order, so a hidden element takes no position and shifts no other |
| HintCodes.Code | Extensions/keyboardShortcut.js:296 | the corrected code of a position below 676 is two characters long (its letters are stated by `HintCodes.DecodeCode` and `HintCodes.CodeLetters`) |
| HintCodes.CodeAsWritten | Extensions/keyboardShortcut.js:296 | the label the source builds is two characters long below position 676 and ten characters long (`undefined` plus a letter) from position 676 on |
| HintCodes.CodeLetters | Extensions/keyboardShortcut.js:222 | both characters of a code are letters of the key list |
| HintCodes.DecodeCode | Extensions/keyboardShortcut.js:296-302 | the code of position k decodes back to k: its first letter is at position k div 26 of the key list, its second at k mod 26 |
| HintCodes.CodeInjective | Extensions/keyboardShortcut.js:296-302 | two positions below 676 get the same code exactly when they are the same position |
| HintCodes.AsWrittenAgrees | Extensions/keyboardShortcut.js:296-302 | below 676 positions the code the source computes is the intended two-letter code |
| HintCodes.AsWrittenCollides | Extensions/keyboardShortcut.js:296-302 | the source gives the 677th and the 703rd visible elements the same ten-character code `undefinedq` |
| Overlay.AssignHintsAsWritten | Extensions/keyboardShortcut.js:270-303 | the two-counter loop gives the k-th survivor the code built from positions k div 26 and k mod 26; skipped candidates do not advance the counters; with at most 676 survivors the result is exactly `Hints` |
| Overlay.Hints | Extensions/keyboardShortcut.js:270-302 | the k-th survivor is labelled `Code(k)`; labels are pairwise distinct and two letters long; at most 676 are made |
| Overlay.Activate | Extensions/keyboardShortcut.js:261-307 | with labels present, all labels are removed, `isActive` is left as it was, and nothing is rescanned; otherwise the overlay becomes active with one distinct two-letter label per survivor, in order, for the first 676 survivors |
| Overlay.Deactivate | Extensions/keyboardShortcut.js:313-318 | the overlay becomes inactive and every label is removed |
| Overlay.DeactivateIdempotent | Extensions/keyboardShortcut.js:423-425 | the cancel key may be pressed in any state; deactivating twice is the same as once |
| Overlay.Matching | Extensions/keyboardShortcut.js:344-350 | the labels kept by a keystroke are labels of the list whose first letter is the key |
| Overlay.Strip | Extensions/keyboardShortcut.js:352-361 | each kept label loses exactly its first letter and keeps its target |
| Overlay.Narrow | Extensions/keyboardShortcut.js:344-362 | the loop completes exactly when some label's remaining text is the key alone, and then clicks the first such label's target; otherwise what is left is the matching labels with one letter consumed, in order |
| Overlay.MatchingKeeps | Extensions/keyboardShortcut.js:344-350 | a label whose next letter is the key is never removed |
| Overlay.MatchingDistinct | Extensions/keyboardShortcut.js:344-350 | removing labels keeps the remaining texts distinct |
| Overlay.StripWellFormed | Extensions/keyboardShortcut.js:344-361 | distinct labels of equal length n >= 2 stay distinct and of equal length n - 1 after a keystroke |
| Overlay.Press | Extensions/keyboardShortcut.js:332-367 | an inactive overlay ignores the key; an active one with no labels closes; a completed label clicks its target (the first one whose text is the key) and closes the overlay; no surviving label closes it without a click; otherwise it stays active with the narrowed labels |
| Overlay.UniqueCompletion | Extensions/keyboardShortcut.js:352-358 | when labels are distinct, at most one of them can be completed by a keystroke |
| Overlay.NoMatchCloses | Extensions/keyboardShortcut.js:364-366 | a key that no label starts with closes the overlay without clicking |
| Overlay.PressPreservesWellFormed | Extensions/keyboardShortcut.js:344-366 | narrowing moves in lockstep: if the overlay stays open, its labels are still distinct, all one letter shorter, and not empty |
| Overlay.TypingCodeSelects | Extensions/keyboardShortcut.js:344-358 | with distinct labels of one length, typing one label's full text clicks that label's target, and no other, then closes the overlay |
| Overlay.ActivateThenTypeCode | Extensions/keyboardShortcut.js:261-358 | after activation, typing the code of the k-th visible candidate clicks exactly that candidate and closes the overlay |
| Click.FirstWhere | Extensions/keyboardShortcut.js:375 | `querySelector` returns the first descendant in document order that matches, or nothing when none does |
| Click.Resolve | Extensions/keyboardShortcut.js:369-381 | a link or button is clicked itself, and only such an element is; otherwise the first `data-ta-id="play-button"` button is clicked, else the first `data-button="play"` button; the target is unsupported exactly when none of these exist |
| Click.TaSelectorWins | Extensions/keyboardShortcut.js:375 | when both kinds of play button exist, the `data-ta-id` one is clicked, even if the other comes earlier |
| Shortcuts.TableDescriptorsUnique | Extensions/keyboardShortcut.js:34-83 | no two registered bindings share a key and modifier combination, so none shadows another |
| Shortcuts.Lookup | Extensions/keyboardShortcut.js:156-171 | a keystroke finds a binding exactly when one with the same key and modifiers was registered, and it gets that binding's action |
| Shortcuts.Fire | Extensions/keyboardShortcut.js:166-169 | a registered action runs exactly when its descriptor matches and the overlay is inactive, and the action that runs is the one registered for that descriptor |
| Shortcuts.ActivatesOnlyOn | Extensions/keyboardShortcut.js:80-83 | only `.`, `shift+:` and `F` open the hint overlay |
| Shortcuts.ActivatorsFire | Extensions/keyboardShortcut.js:80-83 | each of `.`, `shift+:` and `F` opens the hint overlay while the overlay is inactive |
| Sidebar.FindActiveIndex | Extensions/keyboardShortcut.js:177-193 | no active element gives the "none" answer; otherwise the answer is the first position holding the active element, or "not listed" exactly when no position holds it |
| Sidebar.WrapIndex | Extensions/keyboardShortcut.js:203-207 | for a non-empty list the chosen index lies in [0, maxIndex], and a step that stays inside the list is taken unchanged |
| Sidebar.WrapEnds | Extensions/keyboardShortcut.js:203-207 | stepping down from the last item gives 0 and up from the first gives maxIndex; with no active item, +1 gives 0 and -1 gives maxIndex |
| Sidebar.WrapIsModular | Extensions/keyboardShortcut.js:203-207 | from a listed item, a step of +1 or -1 is rotation modulo the list length |
| Sidebar.RotateSidebar | Extensions/keyboardShortcut.js:199-216 | an unlisted active element or an empty list throws; otherwise the item at the wrapped index is clicked if it has an `href`, else its rootlist link, and the call throws when that link is missing |
| Sidebar.RotateWrapsAround | Extensions/keyboardShortcut.js:199-216 | in a list of links, rotating down from the last item clicks the first, and rotating up from the first clicks the last |
| Extension.Step | Extensions/keyboardShortcut.js:166-169 | shortcuts do nothing while the overlay is active; hint keys do nothing while it is inactive; the cancel key closes it; a click happens only on a hint key, and only for a label whose remaining text was that key, and it closes the overlay |
| Extension.InitialInv | Extensions/keyboardShortcut.js:226 | the overlay starts inactive with no labels |
| Extension.StepPreservesInv | Extensions/keyboardShortcut.js:313-366 | every input keeps the invariant: an inactive overlay has no labels, and the labels are distinct and of one length |
| Extension.ActivationAlwaysRescans | Extensions/keyboardShortcut.js:264-268 | in reachable states an activation shortcut is either suppressed (overlay active) or finds the overlay empty and rescans, so the "labels present" branch never runs through a binding |
| Extension.SelectByCode | Extensions/keyboardShortcut.js:344-358 | from the closed overlay, `F` followed by the two letters of the k-th visible candidate's code resolves and clicks that candidate and closes the overlay again |

## Findings

| source | as written | input that shows it | evidently intended | confidence | as-written member | corrected member |
|---|---|---|---|---|---|---|
| Extensions/keyboardShortcut.js:296-302 | `firstKey` has no upper bound. From the 677th visible element on, `keyList[firstKey]` is `undefined`, and concatenation gives labels like `undefinedq` | a page with 703 visible candidates: the 677th and the 703rd both get the label `undefinedq`, and neither is two letters long | every label is a distinct pair of alphabet letters, so at most 676 elements are labelled | medium; not executed | Overlay.AssignHintsAsWritten | Overlay.Hints |

`HintCodes.AsWrittenCollides` states the collision. `HintCodes.AsWrittenAgrees` shows that below 676 elements the two agree. `Overlay.Activate` uses the corrected `Overlay.Hints`, and `HintCodes.CodeInjective` proves its codes distinct.

## Left out

- Overlay.Activate: uses the corrected scan `Overlay.Hints` of the Findings row, so with more than 676 visible candidates it labels only the first 676, where the source labels every one (the as-written labels are modelled by `Overlay.AssignHintsAsWritten`). `Extension.Step`, `Extension.Inv` and `Extension.StepPreservesInv` therefore describe the corrected program in that case.
- HintCodes.Code: its contract states only the length; which letters a code has is stated by `HintCodes.DecodeCode` and `HintCodes.CodeLetters`, so that the letter facts are not unfolded wherever a code is used.
- DOM access, element creation, label positions (`top`/`left`) and overlay styling are left out. The model works on abstract records.
- Bounding boxes are integers. Floating-point geometry is not modelled.
- `toLowerCase` on label text is left out. It is the identity on every text the model produces (alphabet letters and `undefined`).
- A keystroke is modelled as one character. The overlay's own listener is only bound to the alphabet letters.
- The overlay's `<style>` child is not modelled. The source's test "one child node left" is modelled as "no labels left".
- The `Mousetrap` and `Spicetify.Keyboard` registration plumbing is left out, along with the `stopCallback` swap and the 100 ms grace period after activation. These are timers and foreign code.
- The host's shortcut table is foreign code. The model assumes a keystroke reaches the callback of the binding whose key and modifiers equal its own.
- When one physical key reaches both the host's table and the overlay's listener, `Extension.Input` models these as separate inputs, in the order delivered.
- Host actions are foreign calls with no visible semantics: scrolling, volume, seeking, skipping, navigation clicks, `openSearchPage` and `goToPlaylist`. A fired binding is reported as `Perform(action)`, and its effect is not modelled.
- The startup poll-and-retry loop (lines 10-13) is left out. It is a timer.
- `getContextUri` and the table-cell branch of `click` are left out. They follow an unconditional `return`.
- The TODO stubs `focusPlaylist`, `goToAlbumOfCurrentTrack` and `fullTextSearch` are left out. The first two appear only as action values.
- The alert shown for an unsupported target is modelled as the outcome `Unsupported`.
- `rotateSidebar` is never bound to a key in the source. It is modelled on its own. Its `direction` may be any integer, which covers the declared `1 | -1`.
