# Zenopower gradient background and battery viewers: a Dafny model

This project models the sequential logic in two scripts of the Zenopower marketing site.

`final-gradient.js` draws an animated noise gradient behind the page and switches it between a light and a dark theme as the visitor scrolls. The model covers:

- **Colour codec** (`colour_codec.dfy`): these convert the palette between three representations.
  - `hexToVec3` turns a packed `0xRRGGBB` constant into three channels in [0, 1].
  - The debug panel's `vec3ToHex` prints channels as `#rrggbb`.
  - Its `updateColor` reads such a string back with `parseInt(…, 16)`.

  The integer and string operations follow JavaScript: 32-bit `>>` and `&`, `Math.round`, `toString(16)`, `padStart` and `slice`. `parseInt` follows the ECMAScript algorithm: white space, sign, `0x` prefix, longest digit run, and `NaN` when there is no digit. Numbers are exact reals rather than IEEE doubles, and strings are sequences of characters rather than UTF-16 code units (see "Left out").
- **Shader colour tail** (`shader.dfy`): the part of the fragment shader after the noise.
  - `smoothstep` shapes the noise and the distance from the anchor point.
  - `mix` blends the two colours of each layer.
  - A `smoothstep(0.4, 0.6, u_BG_POWER)` weight picks between the dark and the light layer.
- **Theme state** (`theme.dfy`): `setTheme`, `handleThemeChange` and `checkVisibleThemeElements`, plus the ScrollTrigger callbacks and the start-up sequence.
  - The start-up sequence is the constructor, `initThemeManagement` and the fade-in frame.
  - Each GSAP tween of `bgPower` is recorded by its start time, target and duration.
- **Gradient debug panel**: its `setupGUI` and `toggleGUI`, at the end of `gui_registry.dfy`. Its Shift+G shortcut is in `keyboard.dfy`.

`home_battery-viewer.js` builds one 3D viewer per configured container on the page. The model covers:

- **Panel registry** (`gui_registry.dfy`): each viewer's settings panel has a display flag, and the module-wide `activeGUIs` set holds the registered panels. The registry invariant is that every panel number was handed out, every registered panel exists, and at most one registered panel is on screen. Every operation keeps this invariant:
  - `setupGUI`, `hideAllGUIsExcept` and the `mouseenter` handler;
  - `toggleGUI` and `destroy`.
- **Keyboard shortcuts** (`keyboard.dfy`): Shift plus a key whose lower-cased name equals the configured key.
- **Viewer construction** (`viewers.dfy`): the configurations are filtered by whether their container is present. The viewers are built in order, and each `setupGUI` registers one panel. A key press runs every viewer's handler.

`wrappers.dfy` holds the `Option` type, which stands for `NaN` and for "no panel".

The model takes as parameters:

- the clock;
- the viewport height;
- the element rectangles;
- the set of container ids on the page;
- whether `dat.gui` is loaded;
- the simplex noise function.

### Tweens are not cancelled

`setTheme` calls `gsap.to` with no `overwrite` option. Under GSAP 3's default `overwrite: false`, earlier tweens of `bgPower` keep running when a new one starts, so the model keeps every started tween. Once all have finished, `bgPower` holds the target of the tween that finished last (`Theme.LastFinisher`), as long as the settings panel's Brightness slider has not been moved. See "Findings" for what follows from this.

## Model

| member | source | states |
|---|---|---|
| ColourCodec.HexToVec3 | final-gradient.js:1-7 | every component of `hexToVec3` lies in [0, 1], for any integer argument |
| ColourCodec.ToUnit | final-gradient.js:3-5 | the `/ 255` scaling of a byte lies in [0, 1]; it is 0 exactly for 0 and 1 exactly for 255 |
| ColourCodec.HexToChannels | final-gradient.js:1-7 | recombining the three channels as r·65536 + g·256 + b gives the argument modulo 2^24, for every integer, including negative and wider-than-32-bit ones |
| ColourCodec.HexToChannelsRoundTrip | final-gradient.js:1-7 | for 0 ≤ hex < 2^24, recombining the channels gives hex back |
| ColourCodec.PackedUnpacks | final-gradient.js:1-7 | splitting the packed form of three bytes gives back those bytes, so splitting is injective on 24-bit colours |
| ColourCodec.Round | final-gradient.js:315-317 | `Math.round` returns an integer within half a unit of its argument, halves going up |
| ColourCodec.ToString16 | final-gradient.js:318 | `toString(16)` of an integer starts with `-` exactly when it is negative; the digits after any sign read back as its magnitude |
| ColourCodec.Radix16Digits | final-gradient.js:318 | `toString(16)` of a natural number has lower-case digits and starts with `0` only for zero itself (no leading zero); reading the digits back gives the number, and it is one digit exactly below 16 |
| ColourCodec.PadStart2 | final-gradient.js:318 | `padStart(2, '0')` leaves the string as the suffix, adds only zeros, and yields length max(2, length) |
| ColourCodec.FormatChannel | final-gradient.js:315-318 | one channel always prints at least two characters, and a channel in [0, 1] prints as exactly the two digits of `Math.round(v * 255)` |
| ColourCodec.FormatByte | final-gradient.js:318 | a byte prints as exactly its two lower-case hexadecimal digits, zero-padded |
| ColourCodec.Vec3ToHex | final-gradient.js:314-319 | the formatted string always starts with `#` and has at least 7 characters |
| ColourCodec.Vec3ToHexShape | final-gradient.js:314-319 | for channels in [0, 1] the string is `#` followed by exactly six lower-case hex digits, and each pair is the digits of `Math.round(v * 255)` |
| ColourCodec.Slice | final-gradient.js:332-334 | `slice` never lengthens the string nor exceeds `end - start` characters. It is the plain subsequence when the bounds lie inside the string; an end past the string is clamped to its end, and a start at or past the end gives the empty string |
| ColourCodec.ParseInt16 | final-gradient.js:332-334 | `parseInt(s, 16)` of the empty string is `NaN`; a negative result needs a leading `-` after the white space; a string of at most two characters reads as a value in [-15, 255] |
| ColourCodec.ParseAllDigits | final-gradient.js:332-334 | `parseInt(s, 16)` of a non-empty run of digits in either case is the run's radix-16 value |
| ColourCodec.ShortInputGivesNaN | final-gradient.js:332-334 | a string too short to reach a pair gives `NaN` for that channel and every later one |
| ColourCodec.UpdateColor | final-gradient.js:331-336 | whatever the string, every channel `updateColor` stores is `NaN` or lies in [-15/255, 1] |
| ColourCodec.ReadNumeralsAfterFormat | final-gradient.js:331-336 | `parseInt` on the three pairs `vec3ToHex` printed gives back `Math.round(v * 255)` for each channel |
| ColourCodec.UpdateColorAfterFormat | final-gradient.js:331-336 | `updateColor` after `vec3ToHex` stores `round(v * 255) / 255` for each channel, with no `NaN` |
| ColourCodec.UpdateColorInvertsOnBytes | final-gradient.js:331-336 | on byte-valued channels, `updateColor` after `vec3ToHex` is the identity |
| ColourCodec.FormatParseFormat | final-gradient.js:314-336 | formatting the colour `updateColor` read back gives the same string again: formatting is idempotent through parsing |
| ColourCodec.ByteColourThroughGui | final-gradient.js:314-336 | the six digits printed for byte channels spell the packed colour, and `updateColor` gives the channels back |
| ColourCodec.HexConstantThroughGui | final-gradient.js:614-622 | each palette constant, converted by `hexToVec3` and shown in the panel, prints as its own six hex digits and is read back unchanged |
| Shader.Smoothstep | final-gradient.js:164-171 | `smoothstep` lies in [0, 1]; it is 0 at or below the lower edge and 1 at or above the upper edge |
| Shader.SmoothstepMonotone | final-gradient.js:164-171 | `smoothstep` never decreases as its argument grows |
| Shader.Mix | final-gradient.js:169-171 | for a weight in [0, 1], `mix(x, y, a)` stays between its two ends, and it is `x` at weight 0 and `y` at weight 1 |
| Shader.MixRgb | final-gradient.js:169-171 | channel by channel, mixing two colours with a weight in [0, 1] stays between them, and weights 0 and 1 give the first and the second colour |
| Shader.NoiseShape | final-gradient.js:164 | the shaped noise `ns` lies in [0, 1] whatever the noise function returns |
| Shader.Gradient | final-gradient.js:164-167 | `grad` lies in [0, 1] for any noise, and is 0 within 0.01 of the anchor |
| Shader.BlendFactor | final-gradient.js:171 | the dark/light weight lies in [0, 1]; it is 0 for brightness ≤ 0.4 and 1 for brightness ≥ 0.6 |
| Shader.FragmentColour | final-gradient.js:164-173 | each output channel lies within the range of that channel over the four palette colours, so a palette in [0, 1] gives a colour in [0, 1] |
| Shader.ThemeEndpointsArePure | final-gradient.js:169-171 | brightness 0.2 renders the dark layer alone and brightness 0.8 the light layer alone |
| Theme.ThemePower | final-gradient.js:471 | the brightness chosen for dark gives blend weight 0 and the one chosen for light gives weight 1 |
| Theme.ThemePowerInjective | final-gradient.js:471 | the two themes have different target brightness |
| Theme.SetTheme | final-gradient.js:466-483 | `setTheme` starts a tween at the given time and duration, whose target renders only the requested theme's layer |
| Theme.LastFinisher | final-gradient.js:470-473 | picks a tween that ends no earlier than any other, and no later-started tween ends at the same time |
| Theme.LatestFinisherDecides | final-gradient.js:470-473 | a tween that ends no earlier than all earlier tweens decides the settled brightness |
| Theme.HandleThemeChange | final-gradient.js:583-598 | a request for the current theme changes nothing. Any other request records the new theme at once, keeps every earlier tween, and adds exactly one 1.5-second tween towards that theme |
| Theme.HandleThemeChangeIdempotent | final-gradient.js:591-597 | a repeated request has no further effect, whenever it arrives |
| Theme.HandleThemeChangeKeepsConsistent | final-gradient.js:591-594 | when no tween in flight outlasts the new one, the settled brightness matches the recorded theme after a change |
| Theme.AnyCentreVisible | final-gradient.js:541-559 | `.some` is true exactly when some element's centre lies strictly inside the viewport |
| Theme.DetectTheme | final-gradient.js:529-564 | no dark elements gives light; otherwise dark exactly when some dark element's centre `top + height / 2` lies strictly between 0 and the viewport height |
| Theme.CheckVisibleThemeElements | final-gradient.js:529-564 | the loop with early exit returns light for no elements, and dark exactly when some element's centre is visible |
| Theme.InitThemeManagement | final-gradient.js:485-527 | after theme management starts, the recorded theme is the detected one and the brightness option is kept. If the detected theme is already recorded, nothing changes. Otherwise earlier tweens stay and exactly one is added: started at time 0, lasting 1.5 seconds, towards the detected theme's brightness |
| Theme.Construct | final-gradient.js:68-73 | the constructor records the detected theme and keeps the initial brightness. Only a dark page starts a tween: one started at time 0 towards the dark brightness 0.2, ending 1.5 seconds after start-up |
| Theme.FadeIn | final-gradient.js:625-627 | the fade-in frame keeps every earlier tween and adds one started now, lasting `setTheme`'s 2-second default, aimed at the brightness of the detected theme; it leaves the recorded theme untouched |
| Theme.LightPageNeedsFadeIn | final-gradient.js:610-627 | with initial brightness 0.2 and nothing dark on screen, the constructor alone leaves the page dark while recording light |
| Theme.StartupConsistentIff | final-gradient.js:610-627 | after start-up and the fade-in frame, the settled brightness matches the recorded theme exactly when both detections agree |
| Theme.Requested | final-gradient.js:499-514 | entering a dark element from either side requests dark; leaving it either way requests light |
| Theme.OnScroll | final-gradient.js:499-514 | after a scroll callback the recorded theme is the requested one. A request for the recorded theme changes nothing; any other keeps every earlier tween and adds exactly one, started now, lasting 1.5 seconds, towards the requested theme's brightness |
| Theme.EarlyScrollSettlesWrong | final-gradient.js:625-627 | a scroll into a dark element 0.3 seconds after the fade-in frame leaves the page settled light while the recorded theme is dark |
| Theme.HandleThemeChangeOverwriting | final-gradient.js:591-597 | with overwriting, a repeated request changes nothing, and a new one leaves exactly one tween, started now |
| Theme.OverwritingKeepsConsistent | final-gradient.js:591-597 | with overwriting, every theme change keeps the settled brightness matching the recorded theme, whatever the timing |
| Theme.EarlyScrollSettlesRightWithOverwriting | final-gradient.js:625-627 | with overwriting, the early scroll settles at the dark brightness |
| Theme.ScrollRunConsistent | final-gradient.js:499-514 | with overwriting, any run of scroll events keeps the state consistent and ends with the theme the last event asked for |
| Keyboard.LowerAscii | home_battery-viewer.js:583 | lower-casing maps A–Z onto a–z letter for letter and leaves every other character alone |
| Keyboard.ToLowerCase | home_battery-viewer.js:583 | `toLowerCase` keeps the length and lower-cases each character |
| Keyboard.ToLowerCaseFixedPoints | home_battery-viewer.js:583 | lower-casing leaves exactly the strings without upper-case letters unchanged, and applying it twice is applying it once |
| Keyboard.ShortcutFires | home_battery-viewer.js:582-586 | the shortcut fires exactly when Shift is held and the key matches the configured key letter by letter, ignoring the pressed key's case |
| Keyboard.UpperCaseKeyNeverFires | home_battery-viewer.js:583 | a configured key containing an upper-case letter can never fire |
| Keyboard.ShiftedLetterFires | final-gradient.js:63-67 | Shift with `G` or `g` fires the shortcut, and the key without Shift does not |
| Keyboard.DistinctKeysExclusive | home_battery-viewer.js:582-586 | one key event fires at most one of two different configured keys |
| GuiRegistry.InitialValid | home_battery-viewer.js:64 | the empty registry satisfies the registry invariant |
| GuiRegistry.SetupGui | home_battery-viewer.js:247-274 | with `dat.gui`, exactly one fresh panel is added to the flags and the registered set, hidden, with the counter advanced by one. Earlier panels are untouched and the invariant is kept. Without it nothing changes |
| GuiRegistry.HideAllExcept | home_battery-viewer.js:66-72 | every registered panel except `g` is hidden; `g` and unregistered panels keep their flags |
| GuiRegistry.HideAllExceptKeepsValid | home_battery-viewer.js:66-72 | hiding the others keeps the registry invariant |
| GuiRegistry.MouseEnter | home_battery-viewer.js:325-327 | after the pointer enters a panel, no registered panel other than it is on screen, and the invariant is kept |
| GuiRegistry.Toggle | home_battery-viewer.js:555-566 | a hidden panel becomes visible and every other registered panel hidden, while unregistered panels keep their flags. A visible panel is hidden and nothing else changes. A viewer without a panel changes nothing |
| GuiRegistry.ToggleKeepsValid | home_battery-viewer.js:555-566 | toggling keeps the registry invariant |
| GuiRegistry.ToggleShowsOnlyIt | home_battery-viewer.js:557-561 | after showing a registered panel, it is the only registered panel on screen |
| GuiRegistry.ToggleTwiceHides | home_battery-viewer.js:555-566 | toggling a hidden panel twice hides it again, and every panel hidden before is hidden after |
| GuiRegistry.Destroy | home_battery-viewer.js:695-698 | the panel leaves `activeGUIs`; every display flag and every other registration stay, and the invariant is kept |
| GuiRegistry.GradientSetup | final-gradient.js:294-302 | the gradient's panel exists exactly when `dat.gui` is loaded, and starts hidden |
| GuiRegistry.GradientToggle | final-gradient.js:362-367 | toggling flips the gradient panel's display, and does nothing without a panel |
| GuiRegistry.GradientToggleTwice | final-gradient.js:362-367 | toggling the gradient panel twice restores it |
| Viewers.Kept | home_battery-viewer.js:714-721 | filtering never yields more configurations than there are |
| Viewers.KeptMembers | home_battery-viewer.js:714-721 | a configuration is kept exactly when it is listed and its container is on the page |
| Viewers.KeptAppend | home_battery-viewer.js:714-721 | filtering keeps the original order: filtering a concatenation concatenates the filtered parts |
| Viewers.KeptAll | home_battery-viewer.js:714-721 | when every container is present, every configuration is kept |
| Viewers.ShippedPages | home_battery-viewer.js:3-61 | the two shipped configurations give both viewers in order, only the first, only the second, or none, depending on which containers the page has |
| Viewers.BuildViewersConfigs | home_battery-viewer.js:714-725 | a viewer is built exactly for each kept configuration, in order |
| Viewers.BuildViewersPanels | home_battery-viewer.js:714-725 | building keeps the invariant and earlier panels. With `dat.gui`, each viewer owns a fresh, registered, hidden panel, numbered in viewer order, and the registered set and flags grow by exactly those panels. Without it nothing is registered |
| Viewers.InitViewers | home_battery-viewer.js:714-725 | the constructed viewers match the kept configurations one for one, and their panels are fresh, distinct, registered and hidden. With `dat.gui` the registered set and flags grow by exactly those panels. Earlier panels keep their flags and the invariant holds |
| Viewers.KeyDown | home_battery-viewer.js:582-588 | a key press keeps the registry invariant and the set of panels; it changes nothing when no viewer's shortcut fires |
| Viewers.ShippedShortcutsExclusive | home_battery-viewer.js:3-61 | no key press toggles two of the shipped viewers' panels, or one of them together with the gradient's |
| Viewers.DestroyViewer | home_battery-viewer.js:695-698 | destroying a viewer removes exactly its panel from the registered set, keeping every flag and the counter. A viewer without a panel changes nothing, and the invariant is kept |

## Left out

- WebGL plumbing is not modelled because it is calls into the browser's graphics API: shader compilation, buffers, uniforms, `render`, `resize`, `animate` and the gradient's `destroy` (final-gradient.js:76-291, 369-464).
- The simplex noise (final-gradient.js:92-153) is not modelled; it is an arbitrary function of three reals. The bounds proved hold whatever it returns.
- `distance(v_uv, vec2(0., .7))` is a parameter, fixed by `Shader.IsAnchorDistance`, because Dafny's reals have no square root.
- GSAP easing and the per-frame values of `bgPower` are left out; only each tween's start, target and duration are modelled, along with the value once all tweens finish.
- The ScrollTrigger `start`/`end` geometry is left out, because scroll events arrive as parameters.
- `initializeTheme` (final-gradient.js:566-581) is never called.
- The container opacity tweens are left out, because they do not touch the theme state.
- `getBoundingClientRect` and `window.innerHeight` are left out as DOM queries; they are passed in as values.
- `viewportCenter` (final-gradient.js:539) is left out: it is computed only for logging.
- Console logging is left out.
- The constructor's options merge and its early returns for a missing container or missing WebGL are left out; they concern setup, not the modelled logic.
- The `try`/`catch` blocks around `setupGUI` are left out: no modelled step throws.
- The Three.js viewer is left out as library glue and float geometry: model and texture loading, lights, camera, scaling, tilt, and mouse and touch input.
- `checkAllLoaded` is never called.
- The viewers' GUI controls for lights and model rotation are left out; they only forward values to Three.js.
- The gradient panel's Brightness slider (final-gradient.js:351-353) is left out. It writes `bgPower` directly, between 0.1 and 2.0, outside any tween. So `Theme.SettledPower` and `Theme.Consistent` describe the page only while the slider is not moved; the slider lives in a panel that starts hidden.
- The gradient's `updateColor` stores `NaN` channels as they are; the model returns them as `None` and does not model the renderer reading them.
- `String.prototype.toLowerCase` is modelled on ASCII letters only; other scripts' case mappings are left out.
- IEEE double arithmetic is left out: every JavaScript number and GLSL float is an exact real, so rounding of intermediate products is not modelled. `Math.round(v * 255)` can differ near a half. For the double v = 0.5156862745098039, the exact product 255·v lies just below 131.5, so the model prints `83`. The double product is exactly 131.5, which JavaScript rounds to 132 and prints as `84`.
- UTF-16 is left out: strings are sequences of Unicode characters, while `slice`, `padStart` and `parseInt` index UTF-16 code units. The two agree on the ASCII strings the panel produces, but not on text containing characters outside the Basic Multilingual Plane.
- Viewers.InitViewers: builds a viewer for every kept configuration. In the program `new ModelViewer(config)` inside `.map` can throw, for example at `THREE.Cache.enabled` when Three.js is absent or at `new THREE.WebGLRenderer` without WebGL (home_battery-viewer.js:175, 205). Such a throw aborts the map: that viewer registers no panel, since `setupGUI` runs later at line 235, and no later viewer is built. The model assumes construction succeeds.
- `zenopower-old-github/gradient.js` is left out; its pure parts repeat those of final-gradient.js.
- `keyboard.dfy` and `theme.dfy` model the event listeners as functions called by the caller; registering and removing listeners is not modelled.
- Viewers.KeyDown: states the invariant, the frame and the no-op case only. What each firing viewer does to its own panel is stated by `GuiRegistry.Toggle`.

## Findings

| source | as written | input that shows it | evidently intended | confidence | as-written member | corrected member |
|---|---|---|---|---|---|---|
| final-gradient.js:625-627 | the fade-in frame calls `setTheme(theme)` with the default 2-second duration, and `handleThemeChange` later starts 1.5-second tweens. No tween is told to overwrite the others, so an earlier, longer tween can finish last | a page whose dark element starts below the viewport: the fade-in starts a light tween at 0.0 s, ending at 2.0 s. Scrolling into the dark element at 0.3 s starts a dark tween ending at 1.8 s. The page settles at brightness 0.8 (light) while `currentTheme` is `'dark'` | a new theme tween replaces the ones in flight, so the displayed theme always ends at the recorded one | medium, not executed; it relies on GSAP 3's default `overwrite: false` | Theme.EarlyScrollSettlesWrong | Theme.OverwritingKeepsConsistent |
