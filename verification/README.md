# Portfolio page script: a Dafny model

A model of the stateful parts of the client-side script of a personal
portfolio page (`script.js`). The page script is mostly event wiring. Four parts
of it carry logic that can be stated and proved. Each one is modelled as a pure
step function over explicit state:

- **Typing animator** (`typing.dfy`, module `Typing`). The hero title is typed
  character by character, paused, deleted and replaced by the next of six
  titles. The state is the title index, the cursor and the typing/deleting
  flag. `Step` is one firing of the timer callback. It returns the text
  written, the next state and the delay it asks for. `Step` works over any
  non-empty list of non-empty titles; `Titles` is the site's own list.
- **Konami easter egg** (`konami.dfy`, module `Konami`). Each key press goes
  into a rolling buffer of the last ten key codes. The effect fires when the
  buffer equals the fixed ten-code sequence.
- **Mobile menu** (`mobile_menu.dfy`, module `MobileMenu`). The hamburger toggle
  flips the `show`/`active` classes of the menu, the toggle and each bar.
  `closeMobileMenu` clears them all.
- **Navigation highlighting** (`navigation.dfy`, module `Navigation`). On
  scroll, the link whose `data-section` names the section under
  `scrollY + 100` becomes the active link. On click, when the link's target
  section exists, the clicked link alone becomes active and the mobile menu
  closes.

`wrappers.dfy` holds an `Option` type. It stands for page elements that may be
missing.

Browser state becomes explicit data:
- element classes are booleans;
- `offsetTop`/`offsetHeight` are integers;
- the ids `getElementById` can find are a set of strings;
- timers are the delay values each step returns.

For each link, the scroll handler removes `active` and adds it back only when
the link's `data-section` equals `current` (script.js:58-63). So whether a
link is active after a scroll depends only on its `data-section` and the
sections, not on its classes before (`ScrollIgnoresPrior`). When no section
contains `scrollY + 100`, `current` stays `''`, so a link whose `data-section` is empty does become
active (`ScrollActiveIff`). Clicking such a link does nothing: an empty `id`
attribute gives an element no ID, so `getElementById('')` never finds one
(`Navigation.OnClick`).

## Model

| member | source | states |
|---|---|---|
| Typing.Substring | script.js:130-134 | `substring(0, k)` yields a prefix of the title, of length `k` when `k` is in range, empty for `k <= 0`, the whole title for `k >= length` |
| Typing.Step | script.js:126-149 | one firing never takes the index outside the title list, writes a prefix of the current title and asks for one of the four delays 100/50/2000/500 ms |
| Typing.StepInv | script.js:126-137 | under the invariant (typing: `cursor < length`; deleting: `1 <= cursor <= length`), a step keeps it, and the text written is exactly the prefix of the current title of length equal to the new cursor |
| Typing.StepRules | script.js:129-147 | the cursor moves by one; typing turns to deleting exactly when the full title is shown, with a 2000 ms pause; deleting turns to typing exactly when the text is empty, advancing the index by one modulo the list length with a 500 ms delay; other steps take 100 ms (typing) or 50 ms (deleting) and keep the index |
| Typing.Iterate | script.js:121-149 | every state reachable from one that satisfies the invariant satisfies it, so the index stays in `[0, 6)` and `0 <= cursor <= length` for ever |
| Typing.TypingPhase | script.js:134-142 | from cursor `c`, typing reaches the full title after `length - c` steps and turns to deleting, taking `100 * (length - c - 1) + 2000` ms |
| Typing.DeletingPhase | script.js:129-146 | from cursor `c`, deleting empties the title after `c` steps and moves to typing the next title, taking `50 * (c - 1) + 500` ms |
| Typing.FullCycle | script.js:126-149 | a full type-pause-delete cycle over a title takes `2 * length` steps and `150 * (length - 1) + 2500` ms, and ends at cursor 0 of the next title |
| Typing.TitlesWellFormed | script.js:109-116 | the six titles are non-empty, with lengths 18, 12, 15, 14, 15, 16 |
| Typing.FirstCycle | script.js:109-153 | from the start, "Student Researcher" is typed and deleted in 36 steps and 5050 ms, after which "AI Innovator" is next |
| Typing.RevealedBeforeDeleting | script.js:139-145 | in every reachable deleting state, an earlier step showed the whole current title and was the last typing step before the deletion began |
| Konami.Last | script.js:347 | for `n > 0`, `slice(-n)` keeps the last `min(length, n)` elements, in order |
| Konami.PushKeepsNewest | script.js:346-347 | a press appends the code to the buffer and drops from the front whatever goes beyond the last ten codes |
| Konami.OnKey | script.js:345-349 | after a press the buffer holds at most ten codes and ends with the pressed code; the effect fires exactly when the buffer equals the target sequence |
| Konami.FeedIsLast | script.js:345-347 | pressing keys on a buffer that holds the last ten codes of earlier presses leaves it holding the last ten codes of all presses |
| Konami.FeedSnoc | script.js:345-347 | one more key press updates the buffer by appending the code and keeping the last ten |
| Konami.BufferIsLast | script.js:338-347 | after any key history, the buffer equals the last `min(n, 10)` codes of the history and has length at most ten |
| Konami.FiresIff | script.js:338-349 | a press fires the effect if and only if the last ten codes pressed, in order, equal the target sequence |
| Konami.EnteringTargetFires | script.js:339-349 | entering the full sequence fires the effect, whatever was pressed before |
| Konami.FiringsApart | script.js:339-349 | two firings are at least ten presses apart, because the target sequence overlaps no shifted copy of itself |
| MobileMenu.Toggle | script.js:83-90 | a toggle keeps the bar count; a menu whose flags all agree on `open` ends up with all flags agreeing on `!open` |
| MobileMenu.Close | script.js:94-105 | closing keeps the bar count and clears the menu, toggle and every bar |
| MobileMenu.OnToggleClick | script.js:82-90 | with no menu elements nothing happens; otherwise the menu, the toggle and every bar flip, the bar count is kept, and a menu whose flags agree on `open` ends up with all flags agreeing on `!open` |
| MobileMenu.CloseMobileMenu | script.js:94-105 | `closeMobileMenu` does nothing without the menu elements, and otherwise leaves menu, toggle and bars all off while keeping every bar |
| MobileMenu.ToggleTwice | script.js:83-90 | two toggle clicks restore every flag, with or without the menu elements |
| MobileMenu.CloseIdempotent | script.js:94-105 | closing twice equals closing once, and closing after a toggle equals closing directly |
| Navigation.LastMatch | script.js:49-56 | the chosen index is a section whose `[top, top + height)` contains the position with no later section containing it; no index means no section contains it |
| Navigation.CurrentId | script.js:46-56 | the chosen id is `''` when no section contains `scrollY + 100`, and otherwise the id of the last section that contains it |
| Navigation.ScrollCurrent | script.js:45-56 | the scroll loop, where later matches overwrite earlier ones, yields the id of the last containing section, or `''` when none contains `scrollY + 100` |
| Navigation.MarkCurrent | script.js:58-63 | every link keeps its `data-section` and is active exactly when that equals `current`, whatever it was before |
| Navigation.ScrollActiveIff | script.js:45-63 | after a scroll, a link is active iff its `data-section` is the id of the last section containing `scrollY + 100`, or no section contains it and its `data-section` is empty |
| Navigation.ScrollIgnoresPrior | script.js:58-63 | the links after a scroll do not depend on which links were active before |
| Navigation.ScrollAtMostOne | script.js:58-63 | with distinct `data-section` values, at most one link is active after a scroll, and one is active when some link targets the current section |
| Navigation.OnScroll | script.js:45-74 | the scroll handler leaves the mobile menu untouched |
| Navigation.MarkOnly | script.js:29-30 | every link keeps its `data-section`, and exactly the clicked link is active |
| Navigation.OnClick | script.js:22-41 | clicking a link whose non-empty target id exists leaves exactly that link active, keeps every `data-section` and leaves the mobile menu closed with its bars kept; clicking a link whose target is missing or empty changes nothing |

## Left out

- Counter animation (script.js:214-233): it is floating-point arithmetic (`parseFloat`, `toFixed`, fractional increments).
- Parallax transforms (script.js:236-255) and stagger delays (script.js:183-191): floating point and `Math.sin`, with purely cosmetic output.
- Scroll reveal through `IntersectionObserver` (script.js:157-180), hover effects, and image loading and preloading: browser APIs and I/O with no state to reason about.
- Ripple effect (script.js:286-303): pixel geometry read from the DOM, plus element insertion and removal.
- `debounce` (script.js:258-268): timer-based, and nothing calls it.
- Navbar background switch at `scrollY > 50` (script.js:65-73): it only sets two fixed style strings.
- Injected CSS text and console output: cosmetic.
- Timers: `setTimeout` scheduling is not modelled. Each typing step only returns the delay it asks for. The 1000 ms delay before the first step (script.js:153) is not modelled either. The 5-second reversion of the easter-egg animation is not modelled.
- `scrollIntoView` after a navigation click: a browser scroll side effect.
- Missing attributes: every navigation link is taken to carry `data-section` and every section an `id`. The `null` that `getAttribute` returns for a missing attribute, and its comparison semantics, are not modelled.
- Text length: titles are Dafny strings, so lengths and `substring` positions count Unicode characters. JavaScript counts UTF-16 code units. The two agree only for text in the Basic Multilingual Plane. All six titles are ASCII, but for a title with, say, an emoji, the step counts in `Typing.FullCycle` and `Typing.Step` differ from the source, and the source would write half a surrogate pair.
- `JSON.stringify` comparison of the Konami buffer: modelled as sequence equality. This is exact because stringifying an array of strings is injective.
- The typing animator when `#changing-title` is missing (script.js:118-119): the callback is never scheduled, so there is nothing to model.
