/**
  The settings panels (`dat.GUI` instances) of the battery viewers and the module-wide
  `activeGUIs` set that keeps at most one of them on screen.

  Each panel created so far has a display flag: `true` for `display: block`, `false` for
  `display: none`. Panels are numbered in creation order; `next` is the number the next
  panel will get. A destroyed panel leaves `activeGUIs` but keeps its flag, since its
  viewer still holds it.

  The gradient background's own panel is not registered in `activeGUIs`; it is the
  separate `GradientPanel` at the end of this module.
*/
module GuiRegistry {
  import opened Wrappers

  type PanelId = nat

  datatype Panels = Panels(shown: map<PanelId, bool>, active: set<PanelId>, next: PanelId)

  predicate IsShown(p: Panels, k: PanelId) {
    k in p.shown && p.shown[k]
  }

  /** The registry invariant: every panel number was handed out, every registered panel
      exists, and at most one registered panel is on screen. */
  predicate Valid(p: Panels) {
    && (forall k :: k in p.shown ==> k < p.next)
    && p.active <= p.shown.Keys
    && (forall a, b :: a in p.active && b in p.active && IsShown(p, a) && IsShown(p, b) ==> a == b)
  }

  /** No panel yet: the state when the script loads. */
  const Initial: Panels := Panels(map[], {}, 0)

  lemma InitialValid()
    ensures Valid(Initial)
  {
  }

  /** The part of `setupGUI` that touches the registry: when `dat.gui` is loaded, a new
      panel is created, registered in `activeGUIs` and hidden; otherwise nothing happens. */
  function SetupGui(p: Panels, datAvailable: bool): (r: (Panels, Option<PanelId>))
    ensures !datAvailable ==> r == (p, None)
    ensures datAvailable ==>
      && r.1.Some? && r.1.value in r.0.active && r.1.value in r.0.shown && !IsShown(r.0, r.1.value)
      && r.0.active == p.active + {r.1.value}
      && r.0.shown.Keys == p.shown.Keys + {r.1.value} && r.0.next == p.next + 1
    ensures datAvailable && Valid(p) ==> r.1.Some? && r.1.value !in p.shown
    ensures Valid(p) ==> forall k :: k in p.shown ==> k in r.0.shown && r.0.shown[k] == p.shown[k]
    ensures Valid(p) ==> Valid(r.0)
  {
    if !datAvailable then (p, None)
    else (Panels(p.shown[p.next := false], p.active + {p.next}, p.next + 1), Some(p.next))
  }

  /** `hideAllGUIsExcept(g)`: every registered panel other than `g` is hidden; `g` and the
      unregistered panels keep their flags. */
  function HideAllExcept(p: Panels, g: PanelId): (r: Panels)
    ensures r.shown.Keys == p.shown.Keys && r.active == p.active && r.next == p.next
    ensures forall k :: k in r.active && k != g ==> !IsShown(r, k)
    ensures forall k :: k in p.shown && (k !in p.active || k == g) ==> r.shown[k] == p.shown[k]
  {
    p.(shown := map k | k in p.shown :: if k in p.active && k != g then false else p.shown[k])
  }

  lemma HideAllExceptKeepsValid(p: Panels, g: PanelId)
    requires Valid(p)
    ensures Valid(HideAllExcept(p, g))
  {
  }

  /** The `mouseenter` handler on a panel hides every other registered panel. */
  function MouseEnter(p: Panels, g: PanelId): (r: Panels)
    ensures Valid(p) ==> Valid(r)
    ensures r.shown.Keys == p.shown.Keys && r.active == p.active
    ensures forall k :: k in r.active ==> (IsShown(r, k) ==> k == g)
    ensures forall k :: k in p.shown && (k !in p.active || k == g) ==> r.shown[k] == p.shown[k]
  {
    HideAllExcept(p, g)
  }

  /** `toggleGUI` of a viewer whose panel is `gui` (`None` when `dat.gui` was missing). A
      hidden panel is shown after all other registered panels are hidden; a shown panel is
      hidden and nothing else changes. */
  function Toggle(p: Panels, gui: Option<PanelId>): (r: Panels)
    requires gui.Some? ==> gui.value in p.shown
    ensures gui.None? ==> r == p
    ensures r.shown.Keys == p.shown.Keys && r.active == p.active && r.next == p.next
    ensures gui.Some? && !IsShown(p, gui.value) ==>
      && IsShown(r, gui.value)
      && (forall k :: k in r.active && k != gui.value ==> !IsShown(r, k))
      && (forall k :: k in p.shown && k !in p.active && k != gui.value ==> r.shown[k] == p.shown[k])
    ensures gui.Some? && IsShown(p, gui.value) ==>
      !IsShown(r, gui.value) && forall k :: k in p.shown && k != gui.value ==> r.shown[k] == p.shown[k]
  {
    match gui
    case None => p
    case Some(g) =>
      if !p.shown[g] then
        var h := HideAllExcept(p, g);
        h.(shown := h.shown[g := true])
      else
        p.(shown := p.shown[g := false])
  }

  /** Toggling keeps the registry invariant. */
  lemma ToggleKeepsValid(p: Panels, gui: Option<PanelId>)
    requires Valid(p)
    requires gui.Some? ==> gui.value in p.shown
    ensures Valid(Toggle(p, gui))
  {
  }

  /** Showing a registered panel leaves it the only registered panel on screen. */
  lemma ToggleShowsOnlyIt(p: Panels, g: PanelId)
    requires g in p.active && g in p.shown && !p.shown[g]
    ensures forall k :: k in p.active ==> (IsShown(Toggle(p, Some(g)), k) <==> k == g)
  {
  }

  /** Toggling a hidden panel twice hides it again, and every panel that was hidden before
      is hidden afterwards. */
  lemma ToggleTwiceHides(p: Panels, g: PanelId)
    requires g in p.shown && !p.shown[g]
    ensures var r := Toggle(Toggle(p, Some(g)), Some(g));
      && !IsShown(r, g) && r.shown.Keys == p.shown.Keys
      && forall k :: k in p.shown && !p.shown[k] ==> !IsShown(r, k)
  {
  }

  /** The registry part of `destroy`: the panel leaves `activeGUIs`; all flags and every
      other registration stay as they were. */
  function Destroy(p: Panels, gui: Option<PanelId>): (r: Panels)
    ensures r.shown == p.shown && r.next == p.next
    ensures gui.None? ==> r.active == p.active
    ensures gui.Some? ==> r.active == p.active - {gui.value}
    ensures Valid(p) ==> Valid(r)
  {
    match gui
    case None => p
    case Some(g) => p.(active := p.active - {g})
  }

  // ---------------------------------------------------------------------------
  // The gradient background's own panel
  // ---------------------------------------------------------------------------

  /** The gradient's panel: `None` without `dat.gui`, otherwise its display flag. */
  type GradientPanel = Option<bool>

  /** `setupGUI` of the gradient: a hidden panel when `dat.gui` is loaded. */
  function GradientSetup(datAvailable: bool): (g: GradientPanel)
    ensures g.Some? <==> datAvailable
    ensures g.Some? ==> !g.value
  {
    if datAvailable then Some(false) else None
  }

  /** `toggleGUI` of the gradient: flips the display flag, with no other panel involved. */
  function GradientToggle(g: GradientPanel): (r: GradientPanel)
    ensures r.Some? <==> g.Some?
    ensures g.Some? ==> r.value != g.value
  {
    match g
    case None => None
    case Some(shown) => Some(!shown)
  }

  /** Toggling the gradient's panel twice restores it. */
  lemma GradientToggleTwice(g: GradientPanel)
    ensures GradientToggle(GradientToggle(g)) == g
  {
  }
}
