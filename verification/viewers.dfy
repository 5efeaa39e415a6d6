/**
  Construction of the battery viewers and the keyboard handling that reaches their panels.

  A viewer is built for every configuration whose container element is on the page, in
  configuration order; each viewer's `setupGUI` registers one hidden panel. Every viewer
  listens for its own Shift shortcut and toggles its own panel.

  Which container ids the page holds is a parameter; the Three.js scene is not modelled.
*/
module Viewers {
  import opened Wrappers
  import opened GuiRegistry
  import opened Keyboard

  /** The parts of a viewer configuration the model reads. */
  datatype Config = Config(containerId: string, shortcutKey: string)

  /** The two shipped configurations. */
  const ModelConfigs: seq<Config> := [Config("home-glb-container", "b"), Config("home-glb-container2", "p")]

  datatype Viewer = Viewer(config: Config, gui: Option<PanelId>)

  /** `modelConfigs.filter(config => document.getElementById(config.containerId))`. */
  function Kept(configs: seq<Config>, present: set<string>): (r: seq<Config>)
    ensures |r| <= |configs|
    decreases |configs|
  {
    if |configs| == 0 then []
    else
      var init := Kept(configs[..|configs| - 1], present);
      var last := configs[|configs| - 1];
      if last.containerId in present then init + [last] else init
  }

  /** A configuration is kept exactly when it is listed and its container is on the page. */
  lemma {:induction false} KeptMembers(configs: seq<Config>, present: set<string>, c: Config)
    ensures c in Kept(configs, present) <==> c in configs && c.containerId in present
    decreases |configs|
  {
    if |configs| > 0 {
      var init := configs[..|configs| - 1];
      KeptMembers(init, present, c);
      assert configs == init + [configs[|configs| - 1]];
    }
  }

  /** Filtering keeps the original order: filtering a concatenation concatenates the
      filtered parts. */
  lemma {:induction false} KeptAppend(a: seq<Config>, b: seq<Config>, present: set<string>)
    ensures Kept(a + b, present) == Kept(a, present) + Kept(b, present)
    decreases |b|
  {
    if |b| == 0 {
      assert a + b == a;
    } else {
      var b' := b[..|b| - 1];
      KeptAppend(a, b', present);
      assert (a + b)[..|a + b| - 1] == a + b';
      assert (a + b)[|a + b| - 1] == b[|b| - 1];
    }
  }

  /** When every container is on the page, every configuration gets its viewer. */
  lemma {:induction false} KeptAll(configs: seq<Config>, present: set<string>)
    requires forall i :: 0 <= i < |configs| ==> configs[i].containerId in present
    ensures Kept(configs, present) == configs
    decreases |configs|
  {
    if |configs| > 0 {
      KeptAll(configs[..|configs| - 1], present);
      assert configs[..|configs| - 1] + [configs[|configs| - 1]] == configs;
    }
  }

  /** On a page with both containers both viewers are built, in order; on a page with only
      one of them, only that one; on a page with neither, none. */
  lemma ShippedPages()
    ensures Kept(ModelConfigs, {"home-glb-container", "home-glb-container2"}) == ModelConfigs
    ensures Kept(ModelConfigs, {"home-glb-container"}) == [ModelConfigs[0]]
    ensures Kept(ModelConfigs, {"home-glb-container2"}) == [ModelConfigs[1]]
    ensures Kept(ModelConfigs, {}) == []
  {
    assert "home-glb-container2" !in {"home-glb-container"};
    KeptAll(ModelConfigs, {"home-glb-container", "home-glb-container2"});
    var p := {"home-glb-container2"};
    assert ModelConfigs[..1] == [ModelConfigs[0]];
    assert ModelConfigs[..1][..0] == [];
    assert "home-glb-container" !in p;
    assert Kept(ModelConfigs[..1], p) == [];
  }

  /** A panel created by a viewer's `setupGUI`: registered and still hidden. */
  predicate Registered(r: Panels, id: PanelId) {
    id in r.active && id in r.shown && !r.shown[id]
  }

  /** The panels of `viewers` are registered, numbered from `lo` upward in viewer order,
      and below `r.next`. */
  predicate OwnPanels(viewers: seq<Viewer>, lo: nat, r: Panels) {
    && (forall i :: 0 <= i < |viewers| ==>
          viewers[i].gui.Some? && lo <= viewers[i].gui.value < r.next && Registered(r, viewers[i].gui.value))
    && (forall i, j :: 0 <= i < j < |viewers| ==> viewers[i].gui.value < viewers[j].gui.value)
  }

  /** The panels the viewers own. */
  function PanelsOf(viewers: seq<Viewer>): set<PanelId> {
    set i | 0 <= i < |viewers| && viewers[i].gui.Some? :: viewers[i].gui.value
  }

  lemma PanelsOfAppend(viewers: seq<Viewer>, v: Viewer)
    ensures PanelsOf(viewers + [v]) == PanelsOf(viewers) + (if v.gui.Some? then {v.gui.value} else {})
  {
    var vs := viewers + [v];
    forall k | k in PanelsOf(vs)
      ensures k in PanelsOf(viewers) + (if v.gui.Some? then {v.gui.value} else {})
    {
      var i :| 0 <= i < |vs| && vs[i].gui.Some? && vs[i].gui.value == k;
      if i < |viewers| {
        assert viewers[i] == vs[i];
      }
    }
    forall k | k in PanelsOf(viewers)
      ensures k in PanelsOf(vs)
    {
      var i :| 0 <= i < |viewers| && viewers[i].gui.Some? && viewers[i].gui.value == k;
      assert vs[i] == viewers[i];
    }
    if v.gui.Some? {
      assert vs[|viewers|] == v;
    }
  }

  /** Registering one more panel keeps the earlier viewers' panels registered. */
  lemma OwnPanelsExtend(viewers: seq<Viewer>, lo: nat, r: Panels, c: Config)
    requires Valid(r) && OwnPanels(viewers, lo, r) && lo <= r.next
    ensures var (r', gui) := SetupGui(r, true);
      OwnPanels(viewers + [Viewer(c, gui)], lo, r')
  {
  }

  /** The viewers built for `configs`, one `new ModelViewer` per kept configuration, and
      the registry after their `setupGUI` calls. */
  function BuildViewers(configs: seq<Config>, present: set<string>, p: Panels, datAvailable: bool)
    : (r: (seq<Viewer>, Panels))
    decreases |configs|
  {
    if |configs| == 0 then ([], p)
    else
      var (vs, q) := BuildViewers(configs[..|configs| - 1], present, p, datAvailable);
      var c := configs[|configs| - 1];
      if c.containerId in present then
        var (q', gui) := SetupGui(q, datAvailable);
        (vs + [Viewer(c, gui)], q')
      else (vs, q)
  }

  /** Viewers are built exactly for the kept configurations, in order. */
  lemma {:induction false} BuildViewersConfigs(configs: seq<Config>, present: set<string>, p: Panels, datAvailable: bool)
    ensures var vs := BuildViewers(configs, present, p, datAvailable).0;
      && |vs| == |Kept(configs, present)|
      && forall i :: 0 <= i < |vs| ==> vs[i].config == Kept(configs, present)[i]
    decreases |configs|
  {
    if |configs| > 0 {
      BuildViewersConfigs(configs[..|configs| - 1], present, p, datAvailable);
    }
  }

  /** Building viewers keeps the registry valid and leaves earlier panels alone; with
      `dat.gui` each viewer owns a fresh registered hidden panel, without it nothing is
      registered. */
  lemma {:induction false} BuildViewersPanels(configs: seq<Config>, present: set<string>, p: Panels, datAvailable: bool)
    requires Valid(p)
    ensures var (vs, r) := BuildViewers(configs, present, p, datAvailable);
      && Valid(r) && r.next >= p.next && p.active <= r.active
      && (forall k :: k in p.shown ==> k in r.shown && r.shown[k] == p.shown[k])
      && (!datAvailable ==> r == p && forall i :: 0 <= i < |vs| ==> vs[i].gui.None?)
      && (datAvailable ==> OwnPanels(vs, p.next, r))
      && (datAvailable ==> r.active == p.active + PanelsOf(vs) && r.shown.Keys == p.shown.Keys + PanelsOf(vs))
    decreases |configs|
  {
    if |configs| > 0 {
      var init := configs[..|configs| - 1];
      BuildViewersPanels(init, present, p, datAvailable);
      var (vs, q) := BuildViewers(init, present, p, datAvailable);
      var c := configs[|configs| - 1];
      if datAvailable && c.containerId in present {
        OwnPanelsExtend(vs, p.next, q, c);
        var (q', gui) := SetupGui(q, true);
        PanelsOfAppend(vs, Viewer(c, gui));
      }
    }
  }

  /** `const viewers = modelConfigs.filter(...).map(config => new ModelViewer(config))`,
      with each viewer's `setupGUI` registering its panel. */
  method InitViewers(configs: seq<Config>, present: set<string>, p: Panels, datAvailable: bool)
    returns (viewers: seq<Viewer>, r: Panels)
    requires Valid(p)
    ensures Valid(r)
    ensures |viewers| == |Kept(configs, present)| <= |configs|
    ensures forall i :: 0 <= i < |viewers| ==> viewers[i].config == Kept(configs, present)[i]
    ensures !datAvailable ==> r == p && forall i :: 0 <= i < |viewers| ==> viewers[i].gui.None?
    ensures datAvailable ==> forall i :: 0 <= i < |viewers| ==>
      viewers[i].gui.Some? && viewers[i].gui.value !in p.shown && Registered(r, viewers[i].gui.value)
    ensures forall i, j :: 0 <= i < j < |viewers| && viewers[i].gui.Some? ==> viewers[i].gui != viewers[j].gui
    ensures forall k :: k in p.shown ==> k in r.shown && r.shown[k] == p.shown[k]
    ensures p.active <= r.active
    ensures datAvailable ==>
      r.active == p.active + PanelsOf(viewers) && r.shown.Keys == p.shown.Keys + PanelsOf(viewers)
  {
    viewers, r := [], p;
    var n := 0;
    while n < |configs|
      invariant 0 <= n <= |configs|
      invariant (viewers, r) == BuildViewers(configs[..n], present, p, datAvailable)
    {
      assert configs[..n + 1][..n] == configs[..n];
      if configs[n].containerId in present {
        var (r', gui) := SetupGui(r, datAvailable);
        viewers, r := viewers + [Viewer(configs[n], gui)], r';
      }
      n := n + 1;
    }
    assert configs[..n] == configs;
    BuildViewersConfigs(configs, present, p, datAvailable);
    BuildViewersPanels(configs, present, p, datAvailable);
  }

  /** A key press: every viewer's `keydown` handler runs, in construction order, and
      toggles its own panel when its shortcut fires. */
  function KeyDown(p: Panels, viewers: seq<Viewer>, shiftKey: bool, key: string): (r: Panels)
    requires forall i :: 0 <= i < |viewers| && viewers[i].gui.Some? ==> viewers[i].gui.value in p.shown
    ensures r.shown.Keys == p.shown.Keys && r.active == p.active && r.next == p.next
    ensures Valid(p) ==> Valid(r)
    ensures (forall i :: 0 <= i < |viewers| ==> !ShortcutFires(shiftKey, key, viewers[i].config.shortcutKey)) ==> r == p
    decreases |viewers|
  {
    if |viewers| == 0 then p
    else
      var v := viewers[|viewers| - 1];
      var q := KeyDown(p, viewers[..|viewers| - 1], shiftKey, key);
      if ShortcutFires(shiftKey, key, v.config.shortcutKey) then
        ToggleKeepsValidIf(q, v.gui);
        Toggle(q, v.gui)
      else q
  }

  lemma ToggleKeepsValidIf(p: Panels, gui: Option<PanelId>)
    requires gui.Some? ==> gui.value in p.shown
    ensures Valid(p) ==> Valid(Toggle(p, gui))
  {
    if Valid(p) {
      ToggleKeepsValid(p, gui);
    }
  }

  /** The shipped shortcut keys differ from each other and from the gradient's, so no key
      press toggles two of those panels. */
  lemma ShippedShortcutsExclusive(shiftKey: bool, key: string)
    ensures !(ShortcutFires(shiftKey, key, ModelConfigs[0].shortcutKey) && ShortcutFires(shiftKey, key, ModelConfigs[1].shortcutKey))
    ensures forall i :: 0 <= i < |ModelConfigs| ==>
      !(ShortcutFires(shiftKey, key, ModelConfigs[i].shortcutKey) && ShortcutFires(shiftKey, key, GradientKey))
  {
    DistinctKeysExclusive(shiftKey, key, "b", "p");
    DistinctKeysExclusive(shiftKey, key, "b", GradientKey);
    DistinctKeysExclusive(shiftKey, key, "p", GradientKey);
  }

  /** A viewer's `destroy`, as far as the registry sees it. */
  function DestroyViewer(p: Panels, v: Viewer): (r: Panels)
    ensures Valid(p) ==> Valid(r)
    ensures r.shown == p.shown
    ensures v.gui.None? ==> r == p
    ensures v.gui.Some? ==> r.active == p.active - {v.gui.value} && r.next == p.next
  {
    Destroy(p, v.gui)
  }
}
