# Portfolio site: a model of its client-side logic

The site is a single page of declarative React and framer-motion markup. This
project models the few pieces of it that run step by step. The tracker
component is defined but not mounted: `app/page.tsx:3-10` does not import it
and `app/layout.tsx:44-51` renders only the page, so what is said about it
below holds when the component is mounted.

- **the visible-section tracker** (`SmoothScroll`): on each animation-frame
  tick it measures every `.section` element, keeps the one with the strictly
  greatest visible fraction of the viewport and moves the `section-active`
  class to it. Around it sit a 16 ms throttle, a single-flight frame guard
  (`rafRef`), an `isScrolling` flag and a 100 ms debounce timeout;
- **the contact form** (`ContactSection`): field edits, the empty-field
  check, the e-mail pattern `^[^\s@]+@[^\s@]+\.[^\s@]+$` and the
  idle → loading → submitted → idle cycle of a message;
- **the header** (`Navbar`): the first tracked section under a probe one third
  of the way down the viewport, the 50 px scroll threshold and the mobile menu;
- **the experience carousel** (`ExperienceSection`): cyclic next/previous and
  the pagination dots;
- **the project card** (`ProjectCard`): gradient, placeholder and initials,
  the mobile breakpoint and the pointer offset behind the tilt effect.

One Dafny module per component (`smooth_scroll.dfy`, `contact.dfy`,
`navbar.dfy`, `experience.dfy`, `project_card.dfy`), plus `optional.dfy` for
the `Option` type that stands for `null` and for missing DOM elements.
Components that keep state between events are classes whose methods are the
event handlers; the decisions they make are functions with lemmas about them.

Modelling choices:

- Coordinates and sizes are `real`, so `innerHeight / 3` and
  `visibleHeight / innerHeight` are exact. `FractionsOrderLikeHeights` shows
  that comparing fractions picks the same section as comparing heights.
- Browser services are state or parameters. Animation-frame requests are
  numbered handles in `Tracker.pending`, the callbacks still to run.
  `Date.now()` is the `now` argument of a tick. The timeout is a flag with
  its due time. The document is passed to each tick: a sequence of sections
  in document order, and an `array<bool>` of their `section-active` flags.
  An element is identified by its index.
- UI guards that the rendering imposes are preconditions. The contact inputs
  and the submit button exist only while `submitted` is false
  (`ContactSection.tsx:122`). The submit button is disabled while `loading`
  (`ContactSection.tsx:216`). A disabled default button also blocks
  submission by the Enter key.
- JavaScript's `%` truncates toward zero. `ProjectCard.JsRem3` models it for
  the `id % 3` of the card, negative ids included.
- The tracker's effect depends on `activeSection` through
  `detectVisibleSection` and `handleScroll`, so it is cleaned up and
  registered again after every tick that switches sections. That is the
  event `Tracker.Reregister`; a caller runs it after such a tick. Two
  predicates state what the frame loop and the debounce rely on:
  `FrameLoopLive` (a stored handle is still queued, and one is stored while
  scrolling) and `ScrollEnds` (while scrolling, a timeout is armed).

## Model

| member | source | states |
|---|---|---|
| SmoothScroll.MostVisible | app/components/SmoothScroll.tsx:33-50 | the section index the measuring loop ends on; always a valid index |
| SmoothScroll.MostVisibleIsFirstMaximum | app/components/SmoothScroll.tsx:33-50 | the winner has positive visibility, every earlier section has strictly less and no later one has more (ties go to the first in document order); there is no winner iff every visibility is ≤ 0 |
| SmoothScroll.FractionsOrderLikeHeights | app/components/SmoothScroll.tsx:43-46 | for a positive viewport height, comparing `visibleHeight / innerHeight` picks the same section as comparing `visibleHeight` |
| SmoothScroll.OnScreenBeatsOffScreen | app/components/SmoothScroll.tsx:34-49 | a section with no visible height is never chosen, because `maxVisibility` starts at 0 |
| SmoothScroll.FindMostVisible | app/components/SmoothScroll.tsx:33-50 | the arg-max loop with its running `maxVisibility` returns the winner defined by `MostVisible` |
| SmoothScroll.Tracker.constructor | app/components/SmoothScroll.tsx:8-11 | mount: no active section, no stored frame, not scrolling, `lastScrollTime` 0, listeners registered, one unstored initial frame queued (line 110) |
| SmoothScroll.Tracker.Detect | app/components/SmoothScroll.tsx:14-70 | a tick within 16 ms of the last measurement only re-requests a frame; a tick with no sections records the time and re-requests; otherwise, when the winner's id differs from `activeSection`, `activeSection` becomes it and exactly the winner carries `section-active`, else no class flag changes; a new stored frame is requested iff the tick did not measure or the page is scrolling |
| SmoothScroll.Tracker.OnFrame | app/components/SmoothScroll.tsx:14-70 | a queued frame runs `Detect` as written: the browser drops the frame, `rafRef` keeps its handle unless the tick re-requests |
| SmoothScroll.Tracker.OnFrameFixed | app/components/SmoothScroll.tsx:14-21 | the corrected frame callback clears `rafRef` when its own frame fires; it keeps `FrameLoopLive` (a stored handle is always queued, and one is stored while scrolling) |
| SmoothScroll.Tracker.OnScroll | app/components/SmoothScroll.tsx:76-92 | the first event of a burst sets `isScrolling` and `is-scrolling` and requests a frame (one new handle) only when `rafRef` is null; every event re-arms the one timeout, due 100 ms later, so `ScrollEnds` holds after it; nothing else changes |
| SmoothScroll.Tracker.OnTimeout | app/components/SmoothScroll.tsx:92-104 | clears `isScrolling` and `is-scrolling`, queues one final unstored frame, cancels the stored one and leaves `rafRef` null |
| SmoothScroll.Tracker.OnResize | app/components/SmoothScroll.tsx:116-119 | queues one frame without storing its handle; nothing else changes |
| SmoothScroll.Tracker.Unmount | app/components/SmoothScroll.tsx:124-135 | removes the listeners, cancels the stored frame (the ref keeps its value) and clears the timeout; nothing else changes |
| SmoothScroll.Tracker.Reregister | app/components/SmoothScroll.tsx:108-136 | as written: cancels the stored frame but keeps its handle in `rafRef`, clears the timeout, queues one unstored frame, and leaves `isScrolling` and `is-scrolling` as they were, so a re-registration during a scroll breaks `ScrollEnds` |
| SmoothScroll.Tracker.ReregisterFixed | app/components/SmoothScroll.tsx:124-135 | the corrected clean-up also nulls `rafRef` and ends the scroll whose timeout it clears; `FrameLoopLive` and `ScrollEnds` hold after it |
| SmoothScroll.StaleHandleTrace | app/components/SmoothScroll.tsx:14-21 | as written: the mount frame switches sections, the re-registered frame is throttled and stores a handle whose frame then runs without re-requesting; the first scroll then runs with no frame queued |
| SmoothScroll.FixedTrace | app/components/SmoothScroll.tsx:14-21 | with the corrected callbacks the same events leave the stored frame queued while scrolling |
| SmoothScroll.StuckScrollTrace | app/components/SmoothScroll.tsx:128-134 | as written: a section switch during a scroll burst re-registers the effect, whose clean-up clears the timeout; the page stays scrolling with `is-scrolling` on the body, no timeout armed and the frame loop running |
| SmoothScroll.StuckScrollFixedTrace | app/components/SmoothScroll.tsx:128-134 | with the corrected clean-up the same events end the scroll and the frame loop stops |
| Contact.MatchesEmailRegex | app/components/ContactSection.tsx:37-38 | an accepted address has at least five characters and neither starts nor ends with '@'; `EmailRegexIff` gives its full characterisation |
| Contact.EmailRegexIff | app/components/ContactSection.tsx:37 | the e-mail pattern accepts exactly the strings with no white space, exactly one '@' with something before it, and a '.' in the domain that is neither its first nor its last character |
| Contact.AcceptedSamples | app/components/ContactSection.tsx:37 | `jo@example.com` passes, and so does `jo@example.com.` |
| Contact.NoDotRejected | app/components/ContactSection.tsx:37 | a domain without a dot fails |
| Contact.LeadingDotRejected | app/components/ContactSection.tsx:37 | a dot right after '@' fails |
| Contact.SpaceRejected | app/components/ContactSection.tsx:37 | white space fails |
| Contact.TwoAtsRejected | app/components/ContactSection.tsx:37 | a second '@' fails |
| Contact.EmptyLocalRejected | app/components/ContactSection.tsx:37 | an empty local part fails |
| Contact.Validate | app/components/ContactSection.tsx:28-44 | 'Please fill in all fields' iff a field is the empty string; 'Please enter a valid email address' iff all fields are filled and the pattern rejects the e-mail; no error otherwise |
| Contact.ContactForm.constructor | app/components/ContactSection.tsx:5-12 | the form starts empty, not submitted, not loading, without error |
| Contact.ContactForm.HandleChange | app/components/ContactSection.tsx:16-22 | only the field named by the input changes |
| Contact.ContactForm.HandleSubmit | app/components/ContactSection.tsx:24-51 | an invalid form gets only its error; a valid one gets `loading` and no error, keeps its fields and starts the send |
| Contact.ContactForm.CompleteSend | app/components/ContactSection.tsx:58-66 | empties the fields, sets `submitted`, clears `loading` and the error |
| Contact.ContactForm.SendAnother | app/components/ContactSection.tsx:147 | clears `submitted` and changes nothing else |
| Contact.SendOnce | app/components/ContactSection.tsx:16-76 | a full message: a valid one ends back on the initial state, an invalid one stays on the form with the error `Validate` gives |
| Navbar.FirstContaining | app/components/Navbar.tsx:21-31 | the first listed section that exists and whose extent contains the probe; none when no listed section does |
| Navbar.Header.constructor | app/components/Navbar.tsx:6-8 | starts transparent, on 'hero', menu closed |
| Navbar.Header.OnScrollY | app/components/Navbar.tsx:14-16 | `isScrolled` iff `scrollY > 50` |
| Navbar.Header.HandleScroll | app/components/Navbar.tsx:18-33 | `activeSection` becomes the first tracked section whose page extent contains `scrollY + innerHeight / 3`, which is the first whose viewport extent contains `innerHeight / 3` whatever `scrollY` is; unchanged when there is none; it stays one of the tracked ids |
| Navbar.Header.ToggleMenu | app/components/Navbar.tsx:100 | flips the menu; the header is then opaque iff scrolled or the menu was closed |
| Navbar.Header.HandleNavClick | app/components/Navbar.tsx:45-47 | closes the menu; the header is then opaque iff scrolled |
| Navbar.Header.ExperienceNeverHighlighted | app/components/Navbar.tsx:12 | 'experience' is a nav item but never the active section |
| Experience.Next | app/components/ExperienceSection.tsx:43-45 | the next index is in range and wraps from the last entry to the first |
| Experience.Prev | app/components/ExperienceSection.tsx:47-49 | the previous index is in range and wraps from the first entry to the last |
| Experience.PrevOfNext | app/components/ExperienceSection.tsx:43-49 | previous undoes next |
| Experience.NextOfPrev | app/components/ExperienceSection.tsx:43-49 | next undoes previous |
| Experience.NextTimes | app/components/ExperienceSection.tsx:44 | next pressed k times stays in range |
| Experience.NextTimesIsShift | app/components/ExperienceSection.tsx:44 | within one turn, k presses move k places, wrapping once |
| Experience.FullTurn | app/components/ExperienceSection.tsx:44 | n presses return to the start |
| Experience.SingleEntryIsFixed | app/components/ExperienceSection.tsx:71 | when the buttons and dots are hidden there is exactly one entry, and next and previous would keep the index |
| Experience.Carousel.constructor | app/components/ExperienceSection.tsx:24 | starts on entry 0 |
| Experience.Carousel.OneDotHighlighted | app/components/ExperienceSection.tsx:193-205 | when the dots are shown (more than one entry), exactly one dot, the active one, is highlighted |
| Experience.Carousel.HandleNext | app/components/ExperienceSection.tsx:43-45 | the active index becomes `Next` of the old one |
| Experience.Carousel.HandlePrev | app/components/ExperienceSection.tsx:47-49 | the active index becomes `Prev` of the old one |
| Experience.Carousel.SelectDot | app/components/ExperienceSection.tsx:198-200 | clicking dot k makes k active and highlights only dot k |
| ProjectCard.JsRem3 | app/components/ProjectCard.tsx:93-94 | the JavaScript `id % 3`: equal to Dafny's remainder for ids ≥ 0, and 0 or that remainder minus 3 for negative ids |
| ProjectCard.GradientFor | app/components/ProjectCard.tsx:92-95 | emerald-teal exactly for ids ≥ 0 with `id % 3 == 1`; `GradientOfNonNegative` and `GradientOfNegative` give the other two cases |
| ProjectCard.GradientOfNonNegative | app/components/ProjectCard.tsx:92-95 | for ids ≥ 0: blue-purple, emerald-teal, orange-amber by `id % 3`, with period 3 |
| ProjectCard.GradientOfNegative | app/components/ProjectCard.tsx:92-95 | a negative id is never emerald-teal: blue-purple for multiples of 3, orange-amber otherwise |
| ProjectCard.PlaceholderIff | app/components/ProjectCard.tsx:91 | the placeholder is used iff the image path is "/project-" followed by anything |
| ProjectCard.Initials | app/components/ProjectCard.tsx:97 | the placeholder text is the prefix of the title of length min(2, length) |
| ProjectCard.PictureOf | app/components/ProjectCard.tsx:91-109 | placeholder (gradient by id, initials of the title) iff the path starts with "/project-", otherwise the image itself |
| ProjectCard.Card.constructor | app/components/ProjectCard.tsx:11-16 | not mobile, no tilt |
| ProjectCard.Card.CheckIfMobile | app/components/ProjectCard.tsx:24-26 | `isMobile` iff the window is narrower than 768 px; the tilt is kept |
| ProjectCard.Card.HandleMouseMove | app/components/ProjectCard.tsx:41-55 | no change without a card element or on mobile; otherwise the offset becomes the pointer minus the card's centre |
| ProjectCard.Card.HandleMouseLeave | app/components/ProjectCard.tsx:58-61 | the offset returns to (0, 0) |

## Findings

| source | as written | input that shows it | evidently intended | confidence | as-written member | corrected member |
|---|---|---|---|---|---|---|
| app/components/SmoothScroll.tsx:14-21 | when the component is mounted: `rafRef` is never cleared when its own frame runs. A tick that does not re-request (it measured while not scrolling) leaves a handle whose frame has already run. The guard at line 82 then requests no frame for the next scroll burst. | on a display with frames 8 ms apart: the mount frame switches sections; the re-registered effect's frame is throttled and stores a re-request; that frame measures; then a scroll event. The page is scrolling and no frame is queued until the debounce timeout | `rafRef` is non-null only while its frame is still queued, so every scroll burst starts the frame loop (`FrameLoopLive`, kept by `OnFrameFixed` together with `ReregisterFixed`) | medium; not executed | SmoothScroll.StaleHandleTrace | SmoothScroll.Tracker.OnFrameFixed |
| app/components/SmoothScroll.tsx:128-134 | when the component is mounted: the effect's clean-up, which runs whenever `activeSection` changes, clears the debounce timeout but leaves `isScrollingRef` true and the body's `is-scrolling` class on | a scroll event, then a frame that switches to another section, with no later scroll event. Nothing can clear `isScrolling` again, and the frame loop runs every frame | scrolling ends about 100 ms after the last scroll event (`ScrollEnds`) | medium; not executed | SmoothScroll.StuckScrollTrace | SmoothScroll.Tracker.ReregisterFixed |

## Left out

- JSX rendering, Tailwind classes, framer-motion variants and animation presets, and the static content of the other sections.
- `app/page.tsx` (loading timer, `has-scroll-snap` class) and `app/layout.tsx` (metadata, fonts): framework plumbing.
- Real time: `requestAnimationFrame`, `setTimeout` and `Date.now()` are abstract events and a clock argument. Frame ordering is whatever order the caller runs the queued handles in.
- React's scheduling of the effect re-run: `Tracker.Reregister` is an event the caller runs after a tick that switched sections, not something the tracker triggers itself. React closure capture of `activeSection` is not modelled; `activeSection` is read as a field at tick time, which agrees with the re-registered closure.
- Floating-point rounding: coordinates are exact reals. A viewport height of 0 is excluded: the visibility fraction divides by it.
- Project ids are modelled as integers. `app/types/index.ts:2` declares `id: number`, and a fractional id would give a fractional `id % 3` (orange-amber); the site's data uses integer ids only.
- The `useTransform` mapping from the pointer offset to the tilt angles (`ProjectCard.tsx:19-20`): a library call.
- The browser's own check of the `<input type="email">` field (`ContactSection.tsx:177-185`; the form has no `noValidate`) and its trimming of that field's value are not modelled. The browser cancels the submit of a non-empty address that is not a valid HTML e-mail address (`j o@example.com`, `jo@ex@ample.com`, `jo@example.com.`), so `handleSubmit` never runs for it. `Validate`, `HandleSubmit` and `SendOnce` describe the handler; the page shows the invalid-address message only for addresses the browser accepts and the pattern rejects, such as `jo@example`.
- The `catch` branch of `handleSubmit` (`ContactSection.tsx:68-74`): nothing in the `try` can throw, and there is no real mail call.
- `ExperienceSection`'s `checkMobile` listener is empty and does nothing; the carousel model assumes at least one entry, as the data has.
- Strings are sequences of Unicode code points, while JavaScript uses UTF-16 code units. `substring(0, 2)` differs from `Initials` on titles that start with a character outside the Basic Multilingual Plane. The e-mail pattern accepts the same strings either way.
