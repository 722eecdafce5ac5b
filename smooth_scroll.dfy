/** The visible-section tracker: on each animation-frame tick it measures every
    `.section` element, picks the one that fills the largest fraction of the
    viewport and moves the `section-active` class to it. A scroll listener
    drives the frame loop while the page scrolls, throttled to one measurement
    per 16 ms and stopped by a 100 ms debounce timer.

    Browser services are modelled as state: animation-frame requests are
    numbered handles in `pending` (the callbacks the browser will run), the
    clock is the `now` argument of a tick, and the document is the list of
    sections passed to a tick together with the array of their
    `section-active` flags (an element is identified by its index). */
module SmoothScroll {

  import opened Optional

  /** The vertical extent of an element relative to the viewport. */
  datatype Rect = Rect(top: real, bottom: real)

  /** A `.section` element: its id and its current bounding rectangle. */
  datatype Section = Section(id: string, rect: Rect)

  /** Minimum spacing, in milliseconds, between two measurements. */
  const ThrottleMs: int := 16

  /** Delay, in milliseconds, after the last scroll event before scrolling
      counts as finished. */
  const DebounceMs: int := 100

  function Min(a: real, b: real): real { if a <= b then a else b }
  function Max(a: real, b: real): real { if a >= b then a else b }

  /** Height of the part of `r` inside a viewport of height `h`; zero or
      negative when the element is off screen. */
  function VisibleHeight(r: Rect, h: real): real
  {
    Min(r.bottom, h) - Max(r.top, 0.0)
  }

  /** The visible fraction of the viewport height. */
  function Visibility(r: Rect, h: real): real
    requires h > 0.0
  {
    VisibleHeight(r, h) / h
  }

  function Visibilities(doc: seq<Section>, h: real): (v: seq<real>)
    requires h > 0.0
    ensures |v| == |doc|
  {
    seq(|doc|, k requires 0 <= k < |doc| => Visibility(doc[k].rect, h))
  }

  function VisibleHeights(doc: seq<Section>, h: real): (v: seq<real>)
    ensures |v| == |doc|
  {
    seq(|doc|, k requires 0 <= k < |doc| => VisibleHeight(doc[k].rect, h))
  }

  /** The running maximum of the measuring loop: 0 before any section wins. */
  function Best(v: seq<real>, w: Option<nat>): real
  {
    if w.Some? && w.value < |v| then v[w.value] else 0.0
  }

  /** The index the measuring loop ends on after scanning `v` from the left:
      a later entry replaces the current one only when it is strictly
      greater, and nothing replaces the initial maximum 0 but a positive
      entry. */
  function MostVisible(v: seq<real>): (w: Option<nat>)
    ensures w.Some? ==> w.value < |v|
  {
    if |v| == 0 then None
    else
      var w := MostVisible(v[..|v| - 1]);
      if v[|v| - 1] > Best(v[..|v| - 1], w) then Some(|v| - 1) else w
  }

  /** The winner is the first index of the strictly greatest positive
      visibility: every earlier entry is smaller and no later one is larger;
      there is no winner exactly when no entry is positive. */
  lemma {:induction false} MostVisibleIsFirstMaximum(v: seq<real>)
    ensures MostVisible(v).None? <==> forall k :: 0 <= k < |v| ==> v[k] <= 0.0
    ensures MostVisible(v).Some? ==>
      var w := MostVisible(v).value;
      v[w] > 0.0 &&
      (forall k :: 0 <= k < w ==> v[k] < v[w]) &&
      (forall k :: w < k < |v| ==> v[k] <= v[w])
  {
    if |v| > 0 {
      var p := v[..|v| - 1];
      MostVisibleIsFirstMaximum(p);
      var w := MostVisible(p);
      assert forall k :: 0 <= k < |p| ==> p[k] == v[k];
      if w.Some? {
        assert Best(p, w) == v[w.value];
      }
    }
  }

  /** With a positive viewport height, comparing visible fractions picks the
      same section as comparing visible heights. */
  lemma {:induction false} FractionsOrderLikeHeights(doc: seq<Section>, h: real)
    requires h > 0.0
    ensures MostVisible(Visibilities(doc, h)) == MostVisible(VisibleHeights(doc, h))
  {
    if |doc| > 0 {
      var n := |doc| - 1;
      var f, g := Visibilities(doc, h), VisibleHeights(doc, h);
      FractionsOrderLikeHeights(doc[..n], h);
      assert f[..n] == Visibilities(doc[..n], h);
      assert g[..n] == VisibleHeights(doc[..n], h);
      var w := MostVisible(f[..n]);
      var a, b := g[n], Best(g[..n], w);
      assert f[n] == a / h;
      assert Best(f[..n], w) == b / h;
      DivisionKeepsOrder(a, b, h);
    }
  }

  /** Dividing by a positive height keeps the order of two values. */
  lemma DivisionKeepsOrder(a: real, b: real, h: real)
    requires h > 0.0
    ensures a / h > b / h <==> a > b
  {
  }

  /** A section that is not on screen is never chosen. */
  lemma OnScreenBeatsOffScreen(doc: seq<Section>, h: real, j: nat)
    requires h > 0.0 && j < |doc|
    requires VisibleHeight(doc[j].rect, h) <= 0.0
    ensures MostVisible(Visibilities(doc, h)) != Some(j)
  {
    MostVisibleIsFirstMaximum(Visibilities(doc, h));
    DivisionKeepsOrder(VisibleHeight(doc[j].rect, h), 0.0, h);
  }

  /** The measuring loop of a tick: the index of the most visible section. */
  method FindMostVisible(doc: seq<Section>, h: real) returns (current: Option<nat>)
    requires h > 0.0
    ensures current == MostVisible(Visibilities(doc, h))
  {
    ghost var v := Visibilities(doc, h);
    current := None;
    var maxVisibility := 0.0;
    var i := 0;
    while i < |doc|
      invariant 0 <= i <= |doc|
      invariant current == MostVisible(v[..i])
      invariant maxVisibility == Best(v[..i], current)
    {
      var visibility := Visibility(doc[i].rect, h);
      assert v[..i + 1][..i] == v[..i];
      if visibility > maxVisibility {
        maxVisibility := visibility;
        current := Some(i);
      }
      i := i + 1;
    }
    assert v[..|doc|] == v;
  }

  /** The section a measuring tick picks, if any. */
  function Winner(doc: seq<Section>, h: real): (w: Option<nat>)
    requires h > 0.0
    ensures w.Some? ==> w.value < |doc|
  {
    MostVisible(Visibilities(doc, h))
  }

  /** A tick that measured moves the active section: there is a winner and
      its id differs from the active one. */
  predicate Switches(measured: bool, doc: seq<Section>, h: real, activeSection: Option<string>)
    requires h > 0.0
  {
    measured && Winner(doc, h).Some? && Some(doc[Winner(doc, h).value].id) != activeSection
  }

  /** The tracker's refs and state, with the browser's queue of frame
      callbacks and the debounce timer. */
  class Tracker {
    /** The id of the section last made active, `null` at first. */
    var activeSection: Option<string>
    /** `rafRef`: the handle of the last stored frame request. */
    var rafRef: Option<nat>
    var isScrolling: bool
    var lastScrollTime: int
    /** The body carries the `is-scrolling` class. */
    var bodyScrolling: bool
    /** The listeners are registered (between mount and clean-up). */
    var mounted: bool
    /** A debounce timeout is armed, due at `timeoutDue`. */
    var timerPending: bool
    var timeoutDue: int
    /** Frame callbacks the browser will run, and the next handle it hands out. */
    var pending: set<nat>
    var nextHandle: nat

    ghost predicate Valid()
      reads this
    {
      bodyScrolling == isScrolling &&
      (timerPending ==> mounted && isScrolling) &&
      (forall f :: f in pending ==> f < nextHandle) &&
      (rafRef.Some? ==> rafRef.value < nextHandle)
    }

    /** The property the single-flight guard relies on: a stored handle
        belongs to a frame that is still to run, and while scrolling there
        is one. */
    ghost predicate FrameLoopLive()
      reads this
    {
      mounted ==>
        (rafRef.Some? ==> rafRef.value in pending) &&
        (isScrolling ==> rafRef.Some?)
    }

    /** The property the debounce relies on: while the listeners are
        registered and the page counts as scrolling, a timeout is armed that
        will end the scroll. */
    ghost predicate ScrollEnds()
      reads this
    {
      mounted && isScrolling ==> timerPending
    }

    /** Mounting: the listeners are registered and a first frame is requested
        (its handle is not stored). */
    constructor ()
      ensures Valid() && FrameLoopLive() && ScrollEnds()
      ensures activeSection.None? && rafRef.None? && !isScrolling && lastScrollTime == 0
      ensures mounted && !timerPending && pending == {0} && nextHandle == 1
    {
      activeSection := None;
      rafRef := None;
      isScrolling := false;
      lastScrollTime := 0;
      bodyScrolling := false;
      mounted := true;
      timerPending := false;
      timeoutDue := 0;
      pending := {0};
      nextHandle := 1;
    }

    /** `requestAnimationFrame`: queue a callback and return its handle. */
    method RequestFrame() returns (handle: nat)
      modifies this
      ensures handle == old(nextHandle)
      ensures pending == old(pending) + {handle} && nextHandle == old(nextHandle) + 1
      ensures activeSection == old(activeSection) && rafRef == old(rafRef)
      ensures isScrolling == old(isScrolling) && lastScrollTime == old(lastScrollTime)
      ensures bodyScrolling == old(bodyScrolling) && mounted == old(mounted)
      ensures timerPending == old(timerPending) && timeoutDue == old(timeoutDue)
    {
      handle := nextHandle;
      pending := pending + {handle};
      nextHandle := nextHandle + 1;
    }

    /** The body of `detectVisibleSection`, run by a frame callback after the
        browser has taken it off its queue. `now` is the clock reading, `h`
        the viewport height, `doc` the `.section` elements in document order
        and `active[k]` whether element `k` carries `section-active`. A
        throttled tick and a tick that finds no section measure nothing and
        request the next frame; otherwise the most visible section becomes
        active when its id differs from the current one, and the loop goes
        on while scrolling. */
    method Detect(now: int, h: real, doc: seq<Section>, active: array<bool>) returns (measured: bool)
      requires Valid() && h > 0.0 && active.Length == |doc|
      modifies this, active
      ensures Valid()
      ensures measured <==> now - old(lastScrollTime) >= ThrottleMs && |doc| > 0
      ensures lastScrollTime == if now - old(lastScrollTime) < ThrottleMs then old(lastScrollTime) else now
      ensures isScrolling == old(isScrolling) && bodyScrolling == old(bodyScrolling)
      ensures mounted == old(mounted) && timerPending == old(timerPending) && timeoutDue == old(timeoutDue)
      ensures if Switches(measured, doc, h, old(activeSection)) then
          activeSection == Some(doc[Winner(doc, h).value].id) &&
          forall k :: 0 <= k < active.Length ==> active[k] == (k == Winner(doc, h).value)
        else
          activeSection == old(activeSection) && active[..] == old(active[..])
      ensures if !measured || old(isScrolling) then
          rafRef == Some(old(nextHandle)) && pending == old(pending) + {old(nextHandle)} &&
          nextHandle == old(nextHandle) + 1
        else
          rafRef == old(rafRef) && pending == old(pending) && nextHandle == old(nextHandle)
    {
      if now - lastScrollTime < ThrottleMs {
        var handle := RequestFrame();
        rafRef := Some(handle);
        return false;
      }
      lastScrollTime := now;
      if |doc| == 0 {
        var handle := RequestFrame();
        rafRef := Some(handle);
        return false;
      }
      measured := true;
      var current := FindMostVisible(doc, h);
      if current.Some? && Some(doc[current.value].id) != activeSection {
        var winner := current.value;
        activeSection := Some(doc[winner].id);
        var k := 0;
        while k < active.Length
          modifies active
          invariant 0 <= k <= active.Length
          invariant forall j :: 0 <= j < k ==> active[j] == (j == winner)
          invariant forall j :: k <= j < active.Length ==> active[j] == old(active[j])
        {
          if k == winner && !active[k] {
            active[k] := true;
          } else if k != winner && active[k] {
            active[k] := false;
          }
          k := k + 1;
        }
      }
      if isScrolling {
        var handle := RequestFrame();
        rafRef := Some(handle);
      }
    }

    /** A frame callback runs, as written: the browser drops `f` from its
        queue, and `rafRef` keeps whatever handle it held, even when that
        handle was `f` itself. */
    method OnFrame(f: nat, now: int, h: real, doc: seq<Section>, active: array<bool>) returns (measured: bool)
      requires Valid() && f in pending && h > 0.0 && active.Length == |doc|
      modifies this, active
      ensures Valid()
      ensures measured <==> now - old(lastScrollTime) >= ThrottleMs && |doc| > 0
      ensures lastScrollTime == if now - old(lastScrollTime) < ThrottleMs then old(lastScrollTime) else now
      ensures isScrolling == old(isScrolling) && bodyScrolling == old(bodyScrolling)
      ensures mounted == old(mounted) && timerPending == old(timerPending) && timeoutDue == old(timeoutDue)
      ensures if Switches(measured, doc, h, old(activeSection)) then
          activeSection == Some(doc[Winner(doc, h).value].id) &&
          forall k :: 0 <= k < active.Length ==> active[k] == (k == Winner(doc, h).value)
        else
          activeSection == old(activeSection) && active[..] == old(active[..])
      ensures if !measured || old(isScrolling) then
          rafRef == Some(old(nextHandle)) && pending == old(pending) - {f} + {old(nextHandle)} &&
          nextHandle == old(nextHandle) + 1
        else
          rafRef == old(rafRef) && pending == old(pending) - {f} && nextHandle == old(nextHandle)
    {
      pending := pending - {f};
      measured := Detect(now, h, doc, active);
    }

    /** A frame callback runs, with the fix: a callback that fires for the
        stored handle first clears `rafRef`, so the guard in `OnScroll` sees
        `null` once no stored frame is left. */
    method OnFrameFixed(f: nat, now: int, h: real, doc: seq<Section>, active: array<bool>) returns (measured: bool)
      requires Valid() && f in pending && h > 0.0 && active.Length == |doc|
      modifies this, active
      ensures Valid()
      ensures old(FrameLoopLive()) ==> FrameLoopLive()
      ensures measured <==> now - old(lastScrollTime) >= ThrottleMs && |doc| > 0
      ensures lastScrollTime == if now - old(lastScrollTime) < ThrottleMs then old(lastScrollTime) else now
      ensures isScrolling == old(isScrolling) && bodyScrolling == old(bodyScrolling)
      ensures mounted == old(mounted) && timerPending == old(timerPending) && timeoutDue == old(timeoutDue)
      ensures if Switches(measured, doc, h, old(activeSection)) then
          activeSection == Some(doc[Winner(doc, h).value].id) &&
          forall k :: 0 <= k < active.Length ==> active[k] == (k == Winner(doc, h).value)
        else
          activeSection == old(activeSection) && active[..] == old(active[..])
      ensures if !measured || old(isScrolling) then
          rafRef == Some(old(nextHandle)) && pending == old(pending) - {f} + {old(nextHandle)} &&
          nextHandle == old(nextHandle) + 1
        else
          rafRef == (if old(rafRef) == Some(f) then None else old(rafRef)) &&
          pending == old(pending) - {f} && nextHandle == old(nextHandle)
    {
      pending := pending - {f};
      if rafRef == Some(f) {
        rafRef := None;
      }
      measured := Detect(now, h, doc, active);
    }

    /** The scroll listener. The first event of a burst raises `isScrolling`,
        marks the body and starts the frame loop unless a handle is already
        stored; every event re-arms the single debounce timeout. */
    method OnScroll(now: int)
      requires Valid() && mounted
      modifies this
      ensures Valid() && ScrollEnds() && (old(FrameLoopLive()) ==> FrameLoopLive())
      ensures isScrolling && bodyScrolling && timerPending && timeoutDue == now + DebounceMs
      ensures !old(isScrolling) && old(rafRef).None? ==>
        rafRef == Some(old(nextHandle)) && pending == old(pending) + {old(nextHandle)}
      ensures old(isScrolling) || old(rafRef).Some? ==>
        rafRef == old(rafRef) && pending == old(pending)
      ensures nextHandle == old(nextHandle) + (if !old(isScrolling) && old(rafRef).None? then 1 else 0)
      ensures activeSection == old(activeSection) && lastScrollTime == old(lastScrollTime)
      ensures mounted
    {
      if !isScrolling {
        isScrolling := true;
        bodyScrolling := true;
        if rafRef.None? {
          var handle := RequestFrame();
          rafRef := Some(handle);
        }
      }
      timerPending := true;
      timeoutDue := now + DebounceMs;
    }

    /** The debounce timeout fires: scrolling is over, the body loses
        `is-scrolling`, one last frame is requested (its handle not stored)
        and the stored frame is cancelled. */
    method OnTimeout()
      requires Valid() && timerPending
      modifies this
      ensures Valid() && FrameLoopLive() && ScrollEnds()
      ensures !isScrolling && !bodyScrolling && !timerPending && rafRef.None?
      ensures old(nextHandle) in pending && nextHandle == old(nextHandle) + 1
      ensures pending == old(pending) + {old(nextHandle)} -
        (if old(rafRef).Some? then {old(rafRef).value} else {})
      ensures activeSection == old(activeSection) && lastScrollTime == old(lastScrollTime)
      ensures mounted == old(mounted) && timeoutDue == old(timeoutDue)
    {
      isScrolling := false;
      bodyScrolling := false;
      timerPending := false;
      var _ := RequestFrame();
      if rafRef.Some? {
        pending := pending - {rafRef.value};
        rafRef := None;
      }
    }

    /** The resize listener requests one frame without storing its handle. */
    method OnResize()
      requires Valid() && mounted
      modifies this
      ensures Valid() && (old(FrameLoopLive()) ==> FrameLoopLive())
      ensures pending == old(pending) + {old(nextHandle)} && nextHandle == old(nextHandle) + 1
      ensures rafRef == old(rafRef) && isScrolling == old(isScrolling) && bodyScrolling == old(bodyScrolling)
      ensures activeSection == old(activeSection) && lastScrollTime == old(lastScrollTime)
      ensures mounted && timerPending == old(timerPending) && timeoutDue == old(timeoutDue)
    {
      var _ := RequestFrame();
    }

    /** Clean-up on unmount: the listeners go, the stored frame is cancelled
        (the ref itself is left as it was) and the timeout is cleared. */
    method Unmount()
      requires Valid()
      modifies this
      ensures Valid() && FrameLoopLive() && ScrollEnds() && !mounted && !timerPending
      ensures pending == old(pending) - (if rafRef.Some? then {rafRef.value} else {})
      ensures rafRef == old(rafRef) && isScrolling == old(isScrolling) && bodyScrolling == old(bodyScrolling)
      ensures activeSection == old(activeSection) && lastScrollTime == old(lastScrollTime)
      ensures nextHandle == old(nextHandle) && timeoutDue == old(timeoutDue)
    {
      mounted := false;
      if rafRef.Some? {
        pending := pending - {rafRef.value};
      }
      timerPending := false;
    }

    /** The effect runs again, as written. `detectVisibleSection` depends on
        `activeSection`, so every render after a tick that switched sections
        gives it, and `handleScroll`, a new identity: the clean-up cancels the
        stored frame (the ref keeps the cancelled handle) and clears the
        debounce timeout, then the new effect registers its listeners and
        requests one frame without storing its handle. `isScrolling` and the
        body class are left as they were. */
    method Reregister()
      requires Valid() && mounted
      modifies this
      ensures Valid() && mounted && !timerPending
      ensures pending == old(pending) - (if old(rafRef).Some? then {old(rafRef).value} else {}) + {old(nextHandle)}
      ensures nextHandle == old(nextHandle) + 1
      ensures rafRef == old(rafRef) && isScrolling == old(isScrolling) && bodyScrolling == old(bodyScrolling)
      ensures activeSection == old(activeSection) && lastScrollTime == old(lastScrollTime)
      ensures timeoutDue == old(timeoutDue)
      ensures old(isScrolling) ==> !ScrollEnds()
    {
      if rafRef.Some? {
        pending := pending - {rafRef.value};
      }
      timerPending := false;
      var _ := RequestFrame();
    }

    /** The effect runs again, with the fix: the clean-up also nulls the
        ref of the frame it cancels and, since it clears the timeout that
        would have ended the scroll, ends the scroll itself. The next scroll
        event starts a new burst. */
    method ReregisterFixed()
      requires Valid() && mounted
      modifies this
      ensures Valid() && mounted && FrameLoopLive() && ScrollEnds()
      ensures !timerPending && !isScrolling && !bodyScrolling && rafRef.None?
      ensures pending == old(pending) - (if old(rafRef).Some? then {old(rafRef).value} else {}) + {old(nextHandle)}
      ensures nextHandle == old(nextHandle) + 1
      ensures activeSection == old(activeSection) && lastScrollTime == old(lastScrollTime)
      ensures timeoutDue == old(timeoutDue)
    {
      if rafRef.Some? {
        pending := pending - {rafRef.value};
        rafRef := None;
      }
      timerPending := false;
      isScrolling := false;
      bodyScrolling := false;
      var _ := RequestFrame();
    }
  }

  /** As written, the first scroll after the page loads can run without a
      frame loop. The mount frame measures and switches to the winner, so
      the effect runs again and requests a frame of its own. On a display
      with frames 8 ms apart that frame is throttled and stores its
      re-request in `rafRef`; the stored frame then measures, finds nothing
      to switch and, the page not scrolling, requests nothing, so `rafRef`
      keeps a handle whose frame has already run. The next scroll event sees
      a handle and requests nothing: the page scrolls and no frame is
      queued until the debounce timeout. Any document with a visible
      section will do. */
  method StaleHandleTrace(doc: seq<Section>) returns (t: Tracker)
    requires Winner(doc, 800.0).Some?
    ensures t.mounted && t.isScrolling && t.rafRef.Some? && t.pending == {}
    ensures !t.FrameLoopLive()
  {
    var active := new bool[|doc|];
    t := new Tracker();
    var m := t.OnFrame(0, 1000, 800.0, doc, active);
    assert t.activeSection.Some? && t.pending == {} && t.rafRef == None;
    t.Reregister();
    assert t.pending == {1} && t.nextHandle == 2 && !t.isScrolling;
    m := t.OnFrame(1, 1008, 800.0, doc, active);
    assert t.pending == {2} && t.rafRef == Some(2) && t.lastScrollTime == 1000;
    m := t.OnFrame(2, 1016, 800.0, doc, active);
    assert t.pending == {} && t.rafRef == Some(2);
    t.OnScroll(2000);
  }

  /** The same events with the fixed callbacks: the scroll starts the frame
      loop. */
  method FixedTrace(doc: seq<Section>) returns (t: Tracker)
    requires Winner(doc, 800.0).Some?
    ensures t.mounted && t.isScrolling && t.rafRef.Some? && t.rafRef.value in t.pending
    ensures t.FrameLoopLive()
  {
    var active := new bool[|doc|];
    t := new Tracker();
    var m := t.OnFrameFixed(0, 1000, 800.0, doc, active);
    assert t.activeSection.Some? && t.pending == {} && t.rafRef == None;
    t.ReregisterFixed();
    assert t.pending == {1} && t.nextHandle == 2 && !t.isScrolling;
    m := t.OnFrameFixed(1, 1008, 800.0, doc, active);
    assert t.pending == {2} && t.rafRef == Some(2) && t.lastScrollTime == 1000;
    m := t.OnFrameFixed(2, 1016, 800.0, doc, active);
    assert t.pending == {} && t.rafRef == None;
    t.OnScroll(2000);
  }

  /** As written, a switch of section during a scroll burst leaves the page
      scrolling for good. A scroll event arms the timeout and starts the
      loop; the next frame finds a different winner (`doc2` is the layout
      after the scroll), so the effect runs again and its clean-up clears the
      timeout while `isScrolling` stays true. The frames go on re-requesting
      each other, the body keeps `is-scrolling`, and only a further scroll
      event can arm a timeout again. */
  method StuckScrollTrace(doc1: seq<Section>, doc2: seq<Section>) returns (t: Tracker)
    requires |doc1| == |doc2| && Winner(doc1, 800.0).Some? && Winner(doc2, 800.0).Some?
    requires doc1[Winner(doc1, 800.0).value].id != doc2[Winner(doc2, 800.0).value].id
    ensures t.mounted && t.isScrolling && t.bodyScrolling && !t.timerPending
    ensures t.rafRef.Some? && t.rafRef.value in t.pending
    ensures !t.ScrollEnds()
  {
    var active := new bool[|doc1|];
    t := new Tracker();
    var m := t.OnFrame(0, 1000, 800.0, doc1, active);
    t.Reregister();
    m := t.OnFrame(1, 1017, 800.0, doc1, active);
    assert t.pending == {} && t.rafRef == None && !t.isScrolling;
    t.OnScroll(2000);
    assert t.pending == {2} && t.rafRef == Some(2) && t.timerPending;
    m := t.OnFrame(2, 2017, 800.0, doc2, active);
    assert t.activeSection == Some(doc2[Winner(doc2, 800.0).value].id);
    assert t.pending == {3} && t.rafRef == Some(3);
    t.Reregister();
    assert t.pending == {4} && t.rafRef == Some(3) && !t.timerPending;
    m := t.OnFrame(4, 2034, 800.0, doc2, active);
  }

  /** The same events with the fixed clean-up: the scroll ends with the
      re-registration and the frame loop stops. */
  method StuckScrollFixedTrace(doc1: seq<Section>, doc2: seq<Section>) returns (t: Tracker)
    requires |doc1| == |doc2| && Winner(doc1, 800.0).Some? && Winner(doc2, 800.0).Some?
    requires doc1[Winner(doc1, 800.0).value].id != doc2[Winner(doc2, 800.0).value].id
    ensures t.mounted && !t.isScrolling && !t.bodyScrolling && t.rafRef.None? && t.pending == {}
    ensures t.ScrollEnds() && t.FrameLoopLive()
  {
    var active := new bool[|doc1|];
    t := new Tracker();
    var m := t.OnFrameFixed(0, 1000, 800.0, doc1, active);
    t.ReregisterFixed();
    m := t.OnFrameFixed(1, 1017, 800.0, doc1, active);
    assert t.pending == {} && t.rafRef == None && !t.isScrolling;
    t.OnScroll(2000);
    assert t.pending == {2} && t.rafRef == Some(2) && t.timerPending;
    m := t.OnFrameFixed(2, 2017, 800.0, doc2, active);
    assert t.pending == {3} && t.rafRef == Some(3);
    t.ReregisterFixed();
    assert t.pending == {4} && t.rafRef == None && !t.isScrolling;
    m := t.OnFrameFixed(4, 2034, 800.0, doc2, active);
  }
}
