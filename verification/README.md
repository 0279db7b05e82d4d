# Verified model of the page controllers of a portfolio site

The site's script (`script.js`) wires a marketing page: a hero line that types
and deletes phrases in a loop, a testimonial slider, statistics counters that
count up once when they scroll into view, a portfolio grid filtered by
category, a navigation bar that marks the active link, and a keyboard easter
egg. Each of these is a small state machine behind browser events and timers.
This project models those state machines in Dafny and proves their
properties. Page elements become arrays of flags and strings. Timers become
explicit calls: a timer callback is a method, and the delay it would schedule
is a value it returns.

Modules, one per controller:

- `Cyclic` (`cyclic.dfy`) holds the wrap-around successor and predecessor of a
  position in a cycle, and repeated moves forward. The typer's phrase index
  and the testimonial slider both move by it.
- `Exclusive` (`exclusive.dfy`) holds the "exactly one active element" pattern.
  The testimonial cards and dots, the filter buttons and the navigation links
  all use it.
- `HeroTyper` (`hero_typer.dfy`) is the typing cursor over the fixed phrase
  cycle. It is a pure step function with lemmas about runs of steps, plus a
  `Typer` class whose `Step` method updates the three state variables and the
  shown text.
- `Testimonials` (`testimonials.dfy`) has a `Slider` class over card and dot
  flags, moved by the `Cyclic` rules.
- `StatCounter` (`stat_counter.dfy`) has the count-up with an exact-real
  accumulator, the per-counter `counted` latch, the reveal observer's callback
  and the once-only scroll trigger.
- `Portfolio` (`portfolio.dfy`) has the category filter and a `Gallery` class
  with button and item flags and a queue of the 300 ms hide timeouts still
  pending.
- `Navigation` (`navigation.dfy`) has the menu toggle, the link clicks, the
  active link and the scroll spy's link lookup.
- `Konami` (`konami.dfy`) is the ten-key sliding window.

The hero phrases (`HeroPhrases`), the typer's delays of 200, 100 and 2000 ms,
the counter's 2000 ms and 16 ms frame, the `"all"` filter key and the Konami
sequence are the script's own constants.

## Model

| member | source | states |
|---|---|---|
| Exclusive.ActivateOnly | script.js:264-271 | after the toggling loop, the flag at `index` is the only set one (none when `index` is out of range) |
| Exclusive.OnlyActiveCount | script.js:84-88 | when only position `i` is active, exactly one element is active if `i` is in range, and none otherwise |
| HeroTyper.TypeStep | script.js:101-120 | one step keeps the cursor in bounds: typing has a character still to type and deleting has one still to remove. It adds or removes exactly one character. The delay is 2000 exactly when typing completes the phrase, and the full phrase is then shown. Otherwise the delay is 200 while typing and 100 while deleting. The phrase changes only when deleting empties it, and then to `(i + 1) mod N` |
| HeroTyper.Iterate | script.js:122 | the self-rescheduling loop: after any number of steps the cursor is still within bounds |
| HeroTyper.IterateAdd | script.js:122 | running `a + b` steps is running `a` steps and then `b` more |
| HeroTyper.TypingRun | script.js:108-116 | typing from any point reaches the full phrase in deleting mode after one step per missing character |
| HeroTyper.DeletingRun | script.js:104-119 | deleting from any point reaches the start of the next phrase after one step per shown character |
| HeroTyper.PhraseCycle | script.js:104-120 | a phrase of length L takes 2L steps from its start to the start of the next phrase |
| HeroTyper.Rounds | script.js:101-122 | after the steps of m whole phrases from the start of phrase i, the typer is at the start of the phrase m places further on |
| HeroTyper.FullCycle | script.js:95-122 | after one round through all N phrases the typer is back at the start of its phrase |
| HeroTyper.Typer.constructor | script.js:94-99 | the typer starts at phrase 0 with no character shown, typing, delay 200 |
| HeroTyper.Typer.Step | script.js:101-123 | the callback updates `textIndex`, `charIndex` and `isDeleting` as `TypeStep` says, returns its delay, and keeps the shown text equal to the first `charIndex` characters of the current phrase |
| Cyclic.NextIndex | script.js:283 | next stays within the cards and is `(i + 1) mod N`: the last card wraps to the first |
| Cyclic.PrevIndex | script.js:278 | previous stays within the cards and is `(i - 1) mod N`: the first card wraps to the last |
| Cyclic.PrevUndoesNext | script.js:277-285 | previous undoes next and next undoes previous on any in-range position |
| Cyclic.Advance | script.js:295-298 | any number of timer advances from an in-range card stays within the cards |
| Cyclic.AdvanceAdds | script.js:282-285 | k ≤ N presses of next add k to the position, wrapping around once past the last card (and k ≤ N phrase changes of the typer add k to the phrase index) |
| Cyclic.FullRotation | script.js:295-298 | N advances come back to the starting card, and no fewer (positive) number does |
| Testimonials.Slider.constructor | script.js:258-262 | the slider starts at position 0 with the markup's card and dot flags |
| Testimonials.Slider.Show | script.js:264-274 | card `index` and dot `index` become the only active ones, and the position becomes `index` (no wrapping) |
| Testimonials.Slider.Previous | script.js:277-280 | shows the previous card by the wrap-around rule |
| Testimonials.Slider.Next | script.js:282-285 | shows the next card by the wrap-around rule |
| Testimonials.Slider.AutoAdvance | script.js:295-298 | the timer callback moves exactly like the next button |
| StatCounter.Progress | script.js:208-212 | the accumulator after k frames lies between 0 and the target, and is either the target (clamped) or exactly k increments |
| StatCounter.DisplayAt | script.js:213 | the shown value after k frames is the floor of the accumulator, between 0 and the target |
| StatCounter.ProgressMonotone | script.js:204-212 | the accumulator never decreases from frame to frame and never exceeds the target |
| StatCounter.DisplayMonotone | script.js:207-213 | the shown `floor(current)` never decreases, stays at least 0 and never exceeds the target |
| StatCounter.FrameStep | script.js:208-212 | while the interval runs, one frame adds one increment of `target / 125` and clamps the result to the target |
| StatCounter.ReachesTarget | script.js:203-212 | in exact arithmetic frame 125 reaches and shows exactly the target, and a positive target is not reached before it |
| StatCounter.Counter.constructor | script.js:188-195 | every counter starts showing 0 and not counted |
| StatCounter.Counter.Tick | script.js:207-214 | one frame moves the accumulator to its value after one more frame. The shown value never decreases and stays within the target. The interval stops exactly when the target is reached, and the target is then shown exactly |
| StatCounter.AnimateCounter | script.js:197-206 | no change without a counter or on a counter already counted. Otherwise the counter is marked counted and starts from 0 |
| StatCounter.RevealTarget.constructor | script.js:177-182 | a registered element starts hidden |
| StatCounter.RevealTarget.OnIntersection | script.js:159-168 | an intersecting element becomes revealed and stays revealed. A stat element's counter starts only if it was not already counted |
| StatCounter.AnimateAllStats | script.js:524-535 | every stat card's counter ends up counted. Counters that were already counted are untouched, and the others have just started |
| StatCounter.StatsScroll.constructor | script.js:511 | the `statsAnimated` flag starts false |
| StatCounter.StatsScroll.OnScroll | script.js:513-522 | the first scroll with the statistics section in view starts all the stat counters and sets `statsAnimated`. Every other scroll changes no counter |
| Portfolio.UnselectedExactly | script.js:242-248 | the items a click schedules a hide for are exactly those the key does not select (`Selects`, the test at script.js:236), each once and in document order, which is the order their hides fire in |
| Portfolio.CountShown | script.js:233-236 | a filter never shows more items than the grid has |
| Portfolio.AllShowsEverything | script.js:236 | the `"all"` key shows every item |
| Portfolio.CategoriesDisjoint | script.js:234-236 | no item is selected by two different category keys, so together they show at most every item once |
| Portfolio.UnusedKeyShowsNothing | script.js:236 | a key that no item carries (other than `"all"`) shows nothing |
| Portfolio.Gallery.constructor | script.js:221-222 | the gallery holds the markup's filter keys, categories and flags, with no hide pending |
| Portfolio.Gallery.FilterItems | script.js:233-249 | the pass over the items displays at once each item the key selects (`Selects`, the test at script.js:236), leaves the others' display state alone, and returns the others, in document order, as the hides to schedule |
| Portfolio.Gallery.ClickAsWritten | script.js:225-250 | the clicked button becomes the only active one. Every item the key selects (`Selects`, the test at script.js:236) is displayed at once, other items keep their display state, and a hide is queued for each item the key does not select, after the hides still pending from earlier clicks |
| Portfolio.Gallery.Click | script.js:225-250 | as `ClickAsWritten`, but the earlier clicks' pending hides are cancelled first: the queue holds exactly the items the key does not select (`Selects`, the test at script.js:236), and the grid is converging on the clicked key |
| Portfolio.Gallery.HideTimeout | script.js:245-247 | the oldest pending hide fires: its item is hidden, nothing else changes, and a grid converging on the last key stays so |
| Portfolio.Gallery.SettledIsFiltered | script.js:236-248 | once the hides of a converging grid have all fired, item k is displayed exactly when the last key selects it |
| Portfolio.Gallery.ShownCountMatches | script.js:233-249 | after filtering, the number of displayed items is the number the key selects |
| Portfolio.StaleHideExample | script.js:225-250 | with the script's handler, clicking "seo" then "web" and letting the first hide fire leaves a "web" item hidden under the active "web" button |
| Portfolio.NoStaleHideExample | script.js:225-250 | with the pending hides cancelled, the same clicks leave that item displayed and no hide pending |
| Navigation.TargetId | script.js:63 | a link's target id is its `href` without its first character; an empty `href` gives the empty id |
| Navigation.FirstFrom | script.js:449 | the document-order search finds the first position at or after `from` holding the wanted `href`, or none when no later position holds it |
| Navigation.LinkFor | script.js:449 | the selector finds the first link whose `href` is `#` followed by the id, and finds none exactly when no link has that `href` |
| Navigation.NavBar.constructor | script.js:39-42 | the bar holds the markup's links, their `active` flags and the menu's `active` class as the markup sets them |
| Navigation.NavBar.UpdateActiveNavLink | script.js:84-88 | the given link becomes the only active link |
| Navigation.NavBar.ToggleMenu | script.js:54-57 | the toggle flips the menu's open state |
| Navigation.NavBar.ClickLink | script.js:61-80 | if the link's section exists (`HasElement`: `getElementById` finds a non-empty id among the page's ids, script.js:64-66), the menu closes and the link becomes the only active one. Otherwise nothing changes |
| Navigation.NavBar.OnSectionVisible | script.js:445-456 | when a section intersects and some link points to it, the first such link becomes the only active one. Otherwise no flag changes |
| Konami.SliceLast | script.js:617 | `slice(-n)` keeps the last min(n, length) elements for n ≥ 1, and the whole array for n = 0 (as `slice(-0)` is `slice(0)`); what it keeps is the end of the array |
| Konami.Window | script.js:617 | the buffer holds the last min(10, n) codes of the history, in order |
| Konami.WindowSlide | script.js:616-617 | appending a code to the buffer and keeping the last ten gives the last ten codes of the extended history |
| Konami.FiresOnSequence | script.js:619 | the buffer equals the Konami sequence exactly when at least ten keys were pressed and the last ten are that sequence |
| Konami.KeyListener.constructor | script.js:612 | the buffer starts empty |
| Konami.KeyListener.KeyDown | script.js:615-621 | the buffer stays the last ten codes pressed. The easter egg fires exactly when those ten codes are the Konami sequence |

## Findings

| source | as written | input that shows it | evidently intended | confidence | as-written member | corrected member |
|---|---|---|---|---|---|---|
| script.js:242-248 | a click hides each unselected item in a 300 ms timeout that no later click cancels | an item of category "web": click "seo", then "web" within 300 ms; the "seo" click's hide fires after the "web" click and hides the item | the last clicked filter decides which items are displayed once its hides have fired | not executed | Portfolio.StaleHideExample | Portfolio.Gallery.Click |

## Left out

- Everything the browser does: DOM queries, class lists, inline styles,
  `scrollIntoView`, and the visual transitions around the modelled flags. These
  include the item fade and scale in the portfolio, the stat card bounce, and
  the opacity and offset of revealed elements.
- Real time. `setTimeout` and `setInterval` are replaced by explicit calls.
  The typer's 3000 ms start delay and the slider's 5000 ms interval are not
  modelled as values. The 200 ms stagger between stat cards in
  `animateAllStats` is modelled as starting the counters one after the other
  at once. The portfolio's 300 ms hides are explicit `HideTimeout` calls, in
  the order they were scheduled; its 100 ms timeout only restores opacity and
  scale, which are not modelled.
- How callbacks interleave is modelled only for the portfolio's pending hides.
  The stat cards' staggered starts are collapsed into the scroll event. Each
  start goes through the `counted` latch, so whichever of them and the reveal
  observer reaches a counter first starts it, and the other is a no-op. The
  typer's and the slider's timers each run one callback at a time.
- IntersectionObserver thresholds and margins, and the scroll geometry. Whether
  an element intersects or the statistics section is in view is a parameter.
- HeroTyper.Typer.constructor: the typing element's text before the first step
  comes from the page markup; the model starts it empty.
- StatCounter.Counter.Tick: the accumulator is an exact real, not an IEEE
  double. With floating-point accumulation the interval may need a 126th
  frame, so the exact frame count proved by `ReachesTarget` holds only for the
  model.
- StatCounter.Counter.constructor: the target is a natural number. A
  `data-count` that `parseInt` reads as NaN or as a negative number is not
  modelled.
- HeroTyper.WellFormed: the phrases are the script's fixed, non-empty ones.
  With an empty phrase the source would type forever, because the character
  count would pass the phrase length without ever equalling it.
- Testimonials.Slider.Show: `showTestimonial` does no range check. A dot
  beyond the last card selects no card, and next then counts upward without
  wrapping. The model follows this: `NextIndex` and `PrevIndex` are defined on
  all integers, and their wrap-around properties are proved for in-range
  positions.
- Navigation.NavBar.ToggleMenu: the toggle button's and the menu's `active`
  classes are always flipped and cleared together, so they are one flag. This
  holds when the markup starts both classes equal; markup that gives only one
  of them the class is not modelled.
- Navigation.LinkFor: an id containing characters that break the attribute
  selector (quotes, for instance) would make `querySelector` throw. That case
  is not modelled.
- Portfolio.Gallery.Click: cancelling the earlier hides is the corrected
  behaviour described under "## Findings"; the script's own handler is
  `ClickAsWritten`.
- Konami.KeyListener.KeyDown: comparing the `JSON.stringify` outputs of two
  arrays of strings is modelled as sequence equality. The change to the
  page's filter and the notification that `activateEasterEgg` shows are left
  out.
- The loading screen and its progress percentage, the contact form and its
  notifications, the back-to-top button, the navbar's scroll shadow, the
  particles, the cursor gradient, the card hover and parallax effects, the
  injected CSS, the testimonial slide-in animation, page transitions and lazy
  image loading. They are timers, styling and random or floating-point CSS
  values with no state logic.
