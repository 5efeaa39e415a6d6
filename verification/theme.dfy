/**
  The light/dark theme state of the gradient background.

  `currentTheme` records the last requested theme; every change starts a GSAP tween of
  the brightness `bgPower` towards 0.2 (dark) or 0.8 (light). The tweens are modelled by
  their start time, target and duration only. The program passes no `overwrite` option, so
  earlier tweens keep running: once all have finished, `bgPower` holds the target of the
  tween that finished last (of two finishing together, the one started later), provided
  the hidden Brightness slider of the settings panel has not been moved.

  The clock, the viewport height and the element rectangles are parameters.
*/
module Theme {
  import opened Shader

  datatype Theme = Light | Dark

  /** One `gsap.to(options, {bgPower, duration})` call. */
  datatype Tween = Tween(start: real, target: real, duration: real)

  /** The brightness state: the recorded theme, the initial `bgPower` and every tween started. */
  datatype State = State(current: Theme, base: real, tweens: seq<Tween>)

  /** Duration `handleThemeChange` passes to `setTheme`. */
  const ChangeDuration: real := 1.5
  /** Default duration of `setTheme`. */
  const DefaultDuration: real := 2.0

  function End(tw: Tween): real {
    tw.start + tw.duration
  }

  /** The brightness a theme is shown at. */
  function ThemePower(theme: Theme): (p: real)
    ensures BlendFactor(p) == if theme == Dark then 0.0 else 1.0
  {
    if theme == Dark then 0.2 else 0.8
  }

  /** `setTheme(theme, duration)` started at time `now`: a tween whose target renders the
      theme's layer alone. */
  function SetTheme(theme: Theme, duration: real, now: real): (tw: Tween)
    ensures tw.start == now && tw.duration == duration
    ensures BlendFactor(tw.target) == if theme == Dark then 0.0 else 1.0
  {
    Tween(now, ThemePower(theme), duration)
  }

  lemma ThemePowerInjective(a: Theme, b: Theme)
    ensures ThemePower(a) == ThemePower(b) <==> a == b
  {
  }

  // ---------------------------------------------------------------------------
  // Which tween decides the final brightness
  // ---------------------------------------------------------------------------

  /** The index of the tween that finishes last; of several finishing together, the one
      started last. */
  function LastFinisher(ts: seq<Tween>): (i: nat)
    requires |ts| > 0
    ensures i < |ts|
    ensures forall k :: 0 <= k < |ts| ==> End(ts[k]) <= End(ts[i])
    ensures forall k :: i < k < |ts| ==> End(ts[k]) < End(ts[i])
  {
    if |ts| == 1 then 0
    else
      var j := LastFinisher(ts[..|ts| - 1]);
      if End(ts[|ts| - 1]) >= End(ts[j]) then |ts| - 1 else j
  }

  /** `bgPower` once every started tween has finished. */
  function SettledPower(s: State): real {
    if |s.tweens| == 0 then s.base else s.tweens[LastFinisher(s.tweens)].target
  }

  /** The brightness the state settles at is the one its recorded theme calls for. */
  predicate Consistent(s: State) {
    SettledPower(s) == ThemePower(s.current)
  }

  /** A tween that finishes no earlier than every tween before it decides the settled value. */
  lemma LatestFinisherDecides(s: State, tw: Tween)
    requires forall k :: 0 <= k < |s.tweens| ==> End(s.tweens[k]) <= End(tw)
    ensures SettledPower(s.(tweens := s.tweens + [tw])) == tw.target
  {
    var ts := s.tweens + [tw];
    assert ts[|s.tweens|] == tw;
  }

  // ---------------------------------------------------------------------------
  // handleThemeChange
  // ---------------------------------------------------------------------------

  /** `handleThemeChange(theme)` at time `now`: a request for the current theme changes
      nothing; any other request records the new theme at once and starts one tween
      towards it lasting 1.5 seconds. */
  function HandleThemeChange(s: State, theme: Theme, now: real): (r: State)
    ensures r.current == theme && r.base == s.base
    ensures theme == s.current ==> r == s
    ensures |r.tweens| == |s.tweens| + (if theme == s.current then 0 else 1)
    ensures r.tweens[..|s.tweens|] == s.tweens
    ensures theme != s.current ==>
      var tw := r.tweens[|s.tweens|];
      && tw.start == now && tw.duration == ChangeDuration && tw.target == ThemePower(theme)
      && BlendFactor(tw.target) == (if theme == Dark then 0.0 else 1.0)
  {
    if theme != s.current then
      var r := State(theme, s.base, s.tweens + [SetTheme(theme, ChangeDuration, now)]);
      assert r.tweens[..|s.tweens|] == s.tweens;
      r
    else
      s
  }

  /** Handling the same request twice is handling it once, whenever the second arrives. */
  lemma HandleThemeChangeIdempotent(s: State, theme: Theme, now: real, later: real)
    ensures HandleThemeChange(HandleThemeChange(s, theme, now), theme, later) == HandleThemeChange(s, theme, now)
  {
  }

  /** A theme change keeps the state consistent when no earlier tween outlasts the new one. */
  lemma HandleThemeChangeKeepsConsistent(s: State, theme: Theme, now: real)
    requires Consistent(s)
    requires forall k :: 0 <= k < |s.tweens| ==> End(s.tweens[k]) <= now + ChangeDuration
    ensures Consistent(HandleThemeChange(s, theme, now))
  {
    if theme != s.current {
      LatestFinisherDecides(s, SetTheme(theme, ChangeDuration, now));
    }
  }

  // ---------------------------------------------------------------------------
  // checkVisibleThemeElements
  // ---------------------------------------------------------------------------

  /** The bounding rectangle of a dark-theme element, as far as `checkVisibleThemeElements` reads it. */
  datatype Rect = Rect(top: real, height: real)

  /** The element's vertical centre lies strictly inside the viewport. */
  predicate CentreVisible(r: Rect, innerHeight: real) {
    0.0 < r.top + r.height / 2.0 < innerHeight
  }

  function AnyCentreVisible(rects: seq<Rect>, innerHeight: real): (b: bool)
    ensures b <==> exists i :: 0 <= i < |rects| && CentreVisible(rects[i], innerHeight)
  {
    if |rects| == 0 then false
    else CentreVisible(rects[0], innerHeight) || AnyCentreVisible(rects[1..], innerHeight)
  }

  /** The theme `checkVisibleThemeElements` reports: light without dark elements, otherwise
      dark exactly when some dark element's centre is on screen. */
  function DetectTheme(rects: seq<Rect>, innerHeight: real): (t: Theme)
    ensures |rects| == 0 ==> t == Light
    ensures t == Dark <==> exists i :: 0 <= i < |rects| && CentreVisible(rects[i], innerHeight)
  {
    if |rects| == 0 then Light
    else if AnyCentreVisible(rects, innerHeight) then Dark
    else Light
  }

  /** `checkVisibleThemeElements`: the early return for an empty list, then `.some` over
      the elements, stopping at the first visible centre. */
  method CheckVisibleThemeElements(rects: seq<Rect>, innerHeight: real) returns (t: Theme)
    ensures |rects| == 0 ==> t == Light
    ensures t == Dark <==> exists i :: 0 <= i < |rects| && CentreVisible(rects[i], innerHeight)
  {
    if |rects| == 0 {
      return Light;
    }
    var i := 0;
    var visibleDark := false;
    while i < |rects| && !visibleDark
      invariant 0 <= i <= |rects|
      invariant visibleDark <==> exists k :: 0 <= k < i && CentreVisible(rects[k], innerHeight)
    {
      visibleDark := CentreVisible(rects[i], innerHeight);
      i := i + 1;
    }
    t := if visibleDark then Dark else Light;
  }

  // ---------------------------------------------------------------------------
  // Start-up
  // ---------------------------------------------------------------------------

  /** `initThemeManagement` at time 0: with no dark elements a request for light, then a
      request for the detected theme. */
  function InitThemeManagement(s: State, rects: seq<Rect>, innerHeight: real): (r: State)
    ensures r.current == DetectTheme(rects, innerHeight) && r.base == s.base
    ensures |r.tweens| == |s.tweens| + (if s.current == r.current then 0 else 1)
    ensures r.tweens[..|s.tweens|] == s.tweens
    ensures s.current == r.current ==> r == s
    ensures s.current != r.current ==>
      r.tweens[|s.tweens|] == Tween(0.0, ThemePower(r.current), ChangeDuration)
  {
    var s1 := if |rects| == 0 then HandleThemeChange(s, Light, 0.0) else s;
    HandleThemeChange(s1, DetectTheme(rects, innerHeight), 0.0)
  }

  /** The constructor: theme light, the given initial brightness, then theme management.
      Only a dark page starts a tween: one towards the dark brightness, ending at 1.5 seconds. */
  function Construct(initialPower: real, rects: seq<Rect>, innerHeight: real): (r: State)
    ensures r.current == DetectTheme(rects, innerHeight) && r.base == initialPower
    ensures |r.tweens| == (if r.current == Dark then 1 else 0)
    ensures r.current == Dark ==> r.tweens[0] == Tween(0.0, ThemePower(Dark), ChangeDuration)
    ensures forall k :: 0 <= k < |r.tweens| ==> End(r.tweens[k]) == ChangeDuration
  {
    InitThemeManagement(State(Light, initialPower, []), rects, innerHeight)
  }

  /** The page's initial brightness option. */
  const PageInitialPower: real := 0.2

  /** The fade-in frame: `setTheme(checkVisibleThemeElements())` with the default duration,
      which does not touch the recorded theme. */
  function FadeIn(s: State, rects: seq<Rect>, innerHeight: real, now: real): (r: State)
    ensures r.current == s.current && r.base == s.base
    ensures |r.tweens| == |s.tweens| + 1 && r.tweens[..|s.tweens|] == s.tweens
    ensures var tw := r.tweens[|s.tweens|];
      && tw.start == now && tw.duration == DefaultDuration
      && tw.target == ThemePower(DetectTheme(rects, innerHeight))
      && BlendFactor(tw.target) == (if DetectTheme(rects, innerHeight) == Dark then 0.0 else 1.0)
  {
    s.(tweens := s.tweens + [SetTheme(DetectTheme(rects, innerHeight), DefaultDuration, now)])
  }

  /** Without the fade-in frame, a page with no dark element on screen would settle at the
      dark brightness while recording the light theme. */
  lemma LightPageNeedsFadeIn(rects: seq<Rect>, innerHeight: real)
    requires DetectTheme(rects, innerHeight) == Light
    ensures !Consistent(Construct(PageInitialPower, rects, innerHeight))
  {
  }

  /** After the constructor and the fade-in frame, the state is consistent exactly when both
      detected the same theme. */
  lemma StartupConsistentIff(initialPower: real, rects: seq<Rect>, innerHeight: real,
                             later: seq<Rect>, laterHeight: real, now: real)
    requires now >= 0.0
    ensures var s := FadeIn(Construct(initialPower, rects, innerHeight), later, laterHeight, now);
      Consistent(s) <==> DetectTheme(rects, innerHeight) == DetectTheme(later, laterHeight)
  {
    var c := Construct(initialPower, rects, innerHeight);
    var tw := SetTheme(DetectTheme(later, laterHeight), DefaultDuration, now);
    LatestFinisherDecides(c, tw);
    ThemePowerInjective(DetectTheme(rects, innerHeight), DetectTheme(later, laterHeight));
  }

  // ---------------------------------------------------------------------------
  // ScrollTrigger callbacks
  // ---------------------------------------------------------------------------

  datatype ScrollEvent = Enter | EnterBack | Leave | LeaveBack

  /** Entering a dark element (from either side) asks for dark; leaving it asks for light. */
  function Requested(e: ScrollEvent): (t: Theme)
    ensures t == Dark <==> e == Enter || e == EnterBack
  {
    match e
    case Enter => Dark
    case EnterBack => Dark
    case Leave => Light
    case LeaveBack => Light
  }

  /** A ScrollTrigger callback: `handleThemeChange` with the requested theme. */
  function OnScroll(s: State, e: ScrollEvent, now: real): (r: State)
    ensures r.current == Requested(e) && r.base == s.base
    ensures Requested(e) == s.current ==> r == s
    ensures |r.tweens| == |s.tweens| + (if Requested(e) == s.current then 0 else 1)
    ensures r.tweens[..|s.tweens|] == s.tweens
    ensures Requested(e) != s.current ==>
      r.tweens[|s.tweens|] == Tween(now, ThemePower(Requested(e)), ChangeDuration)
  {
    HandleThemeChange(s, Requested(e), now)
  }

  // ---------------------------------------------------------------------------
  // The early-scroll race and its repair
  // ---------------------------------------------------------------------------

  /** A light page whose fade-in tween starts at time 0, followed 0.3 seconds later by a
      scroll into a dark element: the dark tween finishes at 1.8 and the fade-in tween at 2.0,
      so the page settles light while recording dark. */
  lemma EarlyScrollSettlesWrong()
    ensures var rects := [Rect(1000.0, 100.0)];
      var s := FadeIn(Construct(PageInitialPower, rects, 800.0), rects, 800.0, 0.0);
      && Consistent(s)
      && OnScroll(s, Enter, 0.3).current == Dark
      && !Consistent(OnScroll(s, Enter, 0.3))
  {
    var rects := [Rect(1000.0, 100.0)];
    assert !CentreVisible(rects[0], 800.0);
    assert DetectTheme(rects, 800.0) == Light;
    var c := Construct(PageInitialPower, rects, 800.0);
    assert c == State(Light, PageInitialPower, []);
    var s := FadeIn(c, rects, 800.0, 0.0);
    assert s == State(Light, PageInitialPower, [Tween(0.0, 0.8, 2.0)]);
    assert LastFinisher(s.tweens) == 0;
    var r := OnScroll(s, Enter, 0.3);
    assert r.tweens == s.tweens + [Tween(0.3, 0.2, 1.5)];
    assert LastFinisher(r.tweens) == 0;
  }

  /** `handleThemeChange` with the new tween overwriting those still running on `bgPower`. */
  function HandleThemeChangeOverwriting(s: State, theme: Theme, now: real): (r: State)
    ensures r.current == theme && r.base == s.base
    ensures theme == s.current ==> r == s
    ensures theme != s.current ==> |r.tweens| == 1 && r.tweens[0].start == now
  {
    if theme != s.current then State(theme, s.base, [SetTheme(theme, ChangeDuration, now)]) else s
  }

  /** With overwriting, every theme change keeps the state consistent, whatever the timing. */
  lemma OverwritingKeepsConsistent(s: State, theme: Theme, now: real)
    requires Consistent(s)
    ensures Consistent(HandleThemeChangeOverwriting(s, theme, now))
  {
  }

  /** The same early scroll, with overwriting, settles at the dark brightness. */
  lemma EarlyScrollSettlesRightWithOverwriting()
    ensures var rects := [Rect(1000.0, 100.0)];
      var s := FadeIn(Construct(PageInitialPower, rects, 800.0), rects, 800.0, 0.0);
      && OnScrollOverwriting(s, Enter, 0.3).current == Dark
      && Consistent(OnScrollOverwriting(s, Enter, 0.3))
  {
    var rects := [Rect(1000.0, 100.0)];
    StartupConsistentIff(PageInitialPower, rects, 800.0, rects, 800.0, 0.0);
    var s := FadeIn(Construct(PageInitialPower, rects, 800.0), rects, 800.0, 0.0);
    OverwritingKeepsConsistent(s, Dark, 0.3);
  }

  function OnScrollOverwriting(s: State, e: ScrollEvent, now: real): State {
    HandleThemeChangeOverwriting(s, Requested(e), now)
  }

  /** A run of scroll events, each with the time it fires. */
  function ScrollRun(s: State, events: seq<(ScrollEvent, real)>): State
    decreases |events|
  {
    if |events| == 0 then s
    else ScrollRun(OnScrollOverwriting(s, events[0].0, events[0].1), events[1..])
  }

  /** With overwriting, a consistent state stays consistent through any run of scroll events,
      and afterwards records the theme the last event asked for. */
  lemma {:induction false} ScrollRunConsistent(s: State, events: seq<(ScrollEvent, real)>)
    requires Consistent(s)
    ensures Consistent(ScrollRun(s, events))
    ensures |events| > 0 ==> ScrollRun(s, events).current == Requested(events[|events| - 1].0)
    decreases |events|
  {
    if |events| > 0 {
      var s1 := OnScrollOverwriting(s, events[0].0, events[0].1);
      OverwritingKeepsConsistent(s, Requested(events[0].0), events[0].1);
      ScrollRunConsistent(s1, events[1..]);
      if |events| > 1 {
        assert events[1..][|events[1..]| - 1] == events[|events| - 1];
      }
    }
  }
}
