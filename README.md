# Landing-page interactivity, modelled in Dafny

This project models the two event-driven pieces of logic on the mymeal landing page.

- **The testimonial carousel** (`js/testimonials.js`, module `Testimonials`). It keeps a circular index over the testimonials and a transition lock. Every avatar gets one of six position classes (`pos-center`, `pos-left`, `pos-right`, `pos-far-left`, `pos-far-right`, `pos-hidden`). The class depends on the avatar's signed circular offset from the centred testimonial. The arrow buttons, the arrow keys and swipes move the carousel one step. A click on an avatar centres that avatar. A swipe counts only when it travels more than 50 pixels. Nothing moves while the lock is held.
- **The page rules** (`js/main.js`, module `Page`).
  - The scroll spy picks the last section the reader has reached. Near the top of the page it picks `home` instead. It marks exactly the links to that section as active and moves the nav indicator under the last of them.
  - The mobile-menu button flips the menu open or closed. Any link click closes it.
  - The FAQ accordion closes every other item and toggles the clicked one. An answer's max-height is set exactly when its item is active.

Files:

- `testimonials.dfy`: the carousel. Pure functions cover the offset, the position class, the wrap rule and input classification. The class `Carousel` holds `currentIndex`, `isTransitioning` and the class lists of the avatars, as an `array<set<string>>`.
- `page.dfy`: the scroll-spy functions and the `CurrentSectionId` loop. The class `NavBar` holds the link flags, the indicator and the menu. The class `Accordion` holds two arrays of flags.
- `arith.dfy`: facts about Euclidean `%` that the carousel proofs use.

Modelling choices:

- The timer that releases the carousel lock is the explicit event `Carousel.Unlock`. The fade timer of the text is not modelled. The testimonial shown is `testimonials[currentIndex]`; the text itself is not modelled.
- `total / 2` in JavaScript is a real division. `diff > total / 2` becomes `2 * diff > total`, and `diff < -total / 2` becomes `2 * diff < -total`.
- The carousel starts on index 2, so it needs at least three testimonials. The constructor requires this. With fewer, the source's first text update reads a missing record.
- Scroll positions, section tops and the threshold (`innerHeight / 3` in the page) are `real` parameters, because JavaScript numbers are fractional.
- `getAttribute` returns null for a missing attribute, so section ids and link hrefs are `Option<string>`. A section without an id makes the spied id null, and the template string then reads `#null` (`HrefFor`).
- Touch and keyboard events become integer `screenX` values and key strings.

Two details of the code that the model keeps:

- Navigation wraps only one step. A negative target goes to the last item, `N - 1`, and a target at or past the end goes to the first item, `0` (`WrapIndex`). So `-5` goes to `N - 1`, not to `(-5) mod N`. Every caller in the file passes `-1`, `N` or an in-range index, and for those the result is the index modulo `N` (`Successor`, `Predecessor`).
- The offset is normalised by two conditional `± total` adjustments, not by a modulo. So when the total is even, the avatar directly opposite the centre keeps the sign of its raw difference. With four items that avatar is far right from one side and far left from the other. With six or more it is hidden from both sides. `OffsetAntisymmetric` and `PositionSymmetric` state the symmetry exactly.

## Model

| member | source | states |
|---|---|---|
| `Testimonials.ClassNameIsPositionClass` | js/testimonials.js:85-121 | Each of the six positions has its own class, that class is one of the six removed ones, and `avatar-item` is not among them |
| `Testimonials.Offset` | js/testimonials.js:95-99 | The normalised offset is congruent to `index - center` modulo the total, and for in-range indices it lies within half a ring (`2·|d| ≤ total`) |
| `Testimonials.OffsetUnique` | js/testimonials.js:95-99 | Any value congruent to `index - center` and strictly within half a ring is the offset, so the offset is the true circular distance |
| `Testimonials.OffsetOfStep` | js/testimonials.js:95-99 | The avatar `k` steps round from the centre, with `2·|k| < total`, has offset exactly `k` |
| `Testimonials.OffsetAntisymmetric` | js/testimonials.js:95-99 | Swapping avatar and centre negates the offset, including the half-ring case for an even total |
| `Testimonials.PositionSymmetric` | js/testimonials.js:95-121 | Position classes are mirror images around the centre: left and right swap, far-left and far-right swap, centre and hidden stay |
| `Testimonials.PositionOf` | js/testimonials.js:102-121 | The offset picks one of six positions. An avatar gets `pos-center` if and only if its index is the centre index |
| `Testimonials.NeighbourPositions` | js/testimonials.js:102-121 | With at least three items the next and previous avatars are right and left. With at least five, the second next and second previous are far right and far left |
| `Testimonials.AssignPositionClass` | js/testimonials.js:81-122 | Afterwards the avatar carries exactly one position class, the one for its offset, and its other classes are untouched |
| `Testimonials.WrapIndex` | js/testimonials.js:162-167 | The navigation target always lands in `[0, total)`, and an in-range target is kept |
| `Testimonials.Successor` | js/testimonials.js:200-202 | `navigateNext` moves to `(i + 1) mod total`, so the last item wraps to 0 |
| `Testimonials.Predecessor` | js/testimonials.js:193-195 | `navigatePrev` moves to `(i - 1) mod total`, so 0 wraps to the last item |
| `Testimonials.SuccessorPredecessorInverse` | js/testimonials.js:193-202 | Next then previous, or previous then next, returns to the start index |
| `Testimonials.Forward` | js/testimonials.js:200-202 | Any number of forward navigations stays in `[0, total)` |
| `Testimonials.ForwardIsModular` | js/testimonials.js:200-202 | `k` forward navigations from `i` land on `(i + k) mod total` |
| `Testimonials.ForwardFullCircle` | js/testimonials.js:163-167 | `total` unlocked forward navigations return to the start index |
| `Testimonials.SwipeMove` | js/testimonials.js:235-246 | A swipe travelling more than 50 px leftwards goes next and more than 50 px rightwards goes previous. One of at most 50 px does nothing |
| `Testimonials.KeyMove` | js/testimonials.js:213-219 | ArrowLeft and only ArrowLeft goes previous. ArrowRight and only ArrowRight goes next. Every other key does nothing |
| `Testimonials.Carousel.CenteredAvatar` | js/testimonials.js:175-179 | In a valid carousel the avatar that carries `pos-center` is exactly the one at the current index |
| `Testimonials.Carousel.constructor` | js/testimonials.js:22-58 | The carousel starts on index 2, unlocked, with one avatar per testimonial. Each avatar carries exactly `avatar-item` and the position class for its offset from index 2 |
| `Testimonials.Carousel.NavigateTo` | js/testimonials.js:159-188 | While locked nothing changes. Otherwise the lock is taken, the index becomes the wrapped target, and every avatar's classes are reassigned around it |
| `Testimonials.Carousel.Unlock` | js/testimonials.js:185-187 | The lock is released and the index is unchanged. This is the only operation that clears the lock |
| `Testimonials.Carousel.NavigatePrev` | js/testimonials.js:193-195 | Unlocked, the index moves to its predecessor. Locked, nothing changes. The lock is held afterwards |
| `Testimonials.Carousel.NavigateNext` | js/testimonials.js:200-202 | Unlocked, the index moves to its successor. Locked, nothing changes. The lock is held afterwards |
| `Testimonials.Carousel.ClickAvatar` | js/testimonials.js:70-74 | A click during a transition or on the centred avatar changes nothing. Any other click centres the clicked avatar and takes the lock |
| `Testimonials.Carousel.Apply` | js/testimonials.js:213-219 | A move request goes previous or next like the buttons, reassigning every avatar when unlocked. A request to stay changes nothing |
| `Testimonials.Carousel.KeyDown` | js/testimonials.js:213-219 | Unlocked, the arrow keys navigate previous or next and take the lock. Locked, an arrow key leaves the index and the avatars unchanged. Other keys change nothing |
| `Testimonials.Carousel.HandleSwipe` | js/testimonials.js:235-246 | Unlocked, a swipe beyond 50 px navigates and takes the lock. Locked, it leaves the index and the avatars unchanged. A shorter swipe changes nothing |
| `Page.LastReached` | js/main.js:31-38 | Returns the last section in document order with `scrollY ≥ top − threshold`, or none exactly when no section qualifies |
| `Page.CurrentSectionId` | js/main.js:25-43 | The spied id is `home` whenever `scrollY < 100`. Otherwise it is the id of the last section reached, or `''` when none is |
| `Page.SpiedId` | js/main.js:25-43 | The spied id is `home` whenever `scrollY < 100`. Otherwise it is the id of the last section reached, or `''` when none is |
| `Page.HrefFor` | js/main.js:50 | The href is `#null` exactly when the section has no id or its id is the text `null`. Any other id gives an href other than `#null` |
| `Page.HrefForCollision` | js/main.js:50 | Two ids give the same href exactly when they are equal, or when one is a missing id and the other is the text `null` |
| `Page.LastLinkTo` | js/main.js:45-54 | Returns the last link whose href equals the target, or none exactly when no link matches |
| `Page.NavBar.constructor` | js/main.js:2-4 | The bar starts with the page's links, their initial flags and menu state, and no indicator target |
| `Page.NavBar.ToggleMenu` | js/main.js:9-11 | The menu button flips the menu's open flag |
| `Page.NavBar.LinkClicked` | js/main.js:68-74 | After any link click the menu is closed, whatever its previous state |
| `Page.NavBar.OnScroll` | js/main.js:24-59 | A link is active iff its href is `#` followed by the spied id. The indicator moves to the last such link, and stays put when none matches |
| `Page.AfterClick` | js/main.js:137-149 | After a click on item `i`, every other item is closed and item `i` has flipped |
| `Page.ClickLeavesAtMostOneOpen` | js/main.js:134-149 | After a click at most one item is open, whatever was open before. Clicking the open item leaves none open. Clicking a closed one leaves only it open |
| `Page.Accordion.constructor` | js/main.js:117-131 | Each item keeps its loaded flag, and its answer is expanded exactly when it is active |
| `Page.Accordion.SetHeight` | js/main.js:122-128 | The item's answer has a max-height iff the item is active, and no other item changes |
| `Page.Accordion.Click` | js/main.js:133-151 | Every other item is closed and collapsed, the clicked item flips, and expanded still matches active for every item |

## Left out

- Rendering: the avatar elements, images and `textContent` writes, and the fade-out and fade-in classes of the text. These are presentation only. The shown testimonial is `testimonials[currentIndex]`.
- The embedded testimonial list: `JSON.parse` and the `console.error` paths. The list is a given sequence of at least three records.
- Timer durations (`FADE_DURATION`, `TRANSITION_LOCK_DURATION`). The lock release is the discrete event `Carousel.Unlock`.
- Pixel geometry: the indicator's width and left offset, `scrollHeight`, and the resize handlers of the indicator and of the accordion. The indicator is modelled only as the link it is placed under. After a scroll pass that is the last matching link. The nav's resize handler re-places the indicator under the first active link. So when several links share an href, `NavBar.indicator` and the real indicator differ after a resize. The accordion's resize handler re-runs `setHeight` on active items, which keeps the modelled invariant.
- The language switcher's scroll save and restore through `sessionStorage` and `window.location`, and the copyright year from `Date`. Both are browser I/O.
- IEEE-754 rounding of JavaScript numbers. Scroll positions, section tops and the threshold are exact `real`s, so `top - threshold` is computed without rounding. At the boundary the page's double arithmetic can differ from the model by one unit in the last place.
- Existence guards on DOM elements (the menu button, the nav, the indicator, the container elements). The model assumes the elements are present.
- The touch-start and touch-end listeners are reduced to the two `screenX` values passed to `HandleSwipe`.
- Event registration itself, and the initial `onScroll()` call on load. A caller performs that call by invoking `NavBar.OnScroll` once after construction.
