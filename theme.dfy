/**
 * The dark-mode switch of the page and the Mermaid theme that follows it.
 *
 * The page keeps a boolean `darkMode` (initially false), puts a `dark` class on
 * the document root, and initialises Mermaid with the theme "dark" or
 * "neutral". An effect that runs after every change of `darkMode` reads the
 * system preference, stores it in `darkMode`, adds the root class when the
 * preference is dark, and initialises Mermaid from the `darkMode` of the render
 * it belongs to. The toggle negates `darkMode`, toggles the root class and
 * initialises Mermaid from the negated value.
 *
 * React state is modelled by values: a `Ui` is what one render sees, and every
 * handler or effect maps it to the state of the next render. The system
 * preference is a parameter.
 */
module Theme {
  import opened Wrappers

  /** `darkMode ? 'dark' : 'neutral'`: the Mermaid theme for a dark-mode flag. */
  function MermaidTheme(darkMode: bool): (theme: string)
    ensures theme == "dark" <==> darkMode
    ensures theme == "neutral" <==> !darkMode
  {
    if darkMode then "dark" else "neutral"
  }

  /** What one render sees: the `darkMode` state, whether the document root
      carries the `dark` class, and the theme Mermaid was last initialised with
      (`None` before the first initialisation). */
  datatype Ui = Ui(darkMode: bool, rootDark: bool, mermaidTheme: Option<string>)

  /** The state before the first effect: light, no root class, Mermaid not yet
      initialised. */
  const Initial: Ui := Ui(false, false, None)

  /** `toggleDarkMode`: the flag is negated, the root class toggled, and Mermaid
      is initialised with the theme of the NEW flag. */
  function Toggle(ui: Ui): (next: Ui)
    ensures next.darkMode == !ui.darkMode
    ensures next.rootDark == !ui.rootDark
    ensures next.mermaidTheme == Some(MermaidTheme(next.darkMode))
  {
    Ui(!ui.darkMode, !ui.rootDark, Some(if !ui.darkMode then "dark" else "neutral"))
  }

  /** Toggling twice restores the flag and the root class. */
  lemma ToggleTwice(ui: Ui)
    ensures Toggle(Toggle(ui)).darkMode == ui.darkMode
    ensures Toggle(Toggle(ui)).rootDark == ui.rootDark
  {
  }

  // ---------------------------------------------------------------------------
  // The detection effect as written: it depends on `darkMode`
  // ---------------------------------------------------------------------------

  /** One run of the effect: `setDarkMode(prefersDark)`, the root class added
      when the preference is dark, and Mermaid initialised from the flag of the
      render the effect belongs to. */
  function DetectEffect(prefersDark: bool, ui: Ui): (next: Ui)
    ensures next.darkMode == prefersDark
    ensures next.rootDark == (ui.rootDark || prefersDark)
    ensures next.mermaidTheme == Some(MermaidTheme(ui.darkMode))
  {
    Ui(prefersDark, ui.rootDark || prefersDark, Some(MermaidTheme(ui.darkMode)))
  }

  /** React re-runs the effect whenever `darkMode` changed: once when the flag
      already equals the preference, twice otherwise. The result is a fixed
      point of the effect: one more run would change nothing. */
  function Settle(prefersDark: bool, ui: Ui): (next: Ui)
    ensures next.darkMode == prefersDark
    ensures next.mermaidTheme == Some(MermaidTheme(prefersDark))
    ensures DetectEffect(prefersDark, next) == next
  {
    var once := DetectEffect(prefersDark, ui);
    if once.darkMode != ui.darkMode then DetectEffect(prefersDark, once) else once
  }

  /** Mounting the page: after the effects settle, the flag, the root class and
      the Mermaid theme all follow the system preference. */
  lemma MountFollowsPreference(prefersDark: bool)
    ensures Settle(prefersDark, Initial) == Ui(prefersDark, prefersDark, Some(MermaidTheme(prefersDark)))
  {
  }

  /** As written, a toggle does not last: the change of `darkMode` re-runs the
      detection effect, which puts the system preference back into the flag and
      re-initialises Mermaid with the preference's theme. Only the root class
      keeps the toggle (when the preference is light). */
  lemma ToggleIsReverted(prefersDark: bool, ui: Ui)
    ensures Settle(prefersDark, Toggle(ui)).darkMode == prefersDark
    ensures Settle(prefersDark, Toggle(ui)).mermaidTheme == Some(MermaidTheme(prefersDark))
  {
  }

  /** With a light system preference, toggling the freshly mounted page leaves
      the root marked dark while the flag is false and Mermaid draws with the
      "neutral" theme. */
  lemma ToggleRevertedExample()
    ensures var mounted := Settle(false, Initial);
      var after := Settle(false, Toggle(mounted));
      after.rootDark && !after.darkMode && after.mermaidTheme == Some("neutral")
  {
    MountFollowsPreference(false);
  }

  // ---------------------------------------------------------------------------
  // Detection on mount only, as evidently intended
  // ---------------------------------------------------------------------------

  /** The display is consistent: the root class and the Mermaid theme agree
      with the flag. */
  predicate InSync(ui: Ui)
  {
    ui.rootDark == ui.darkMode && ui.mermaidTheme == Some(MermaidTheme(ui.darkMode))
  }

  /** The intended mount, which needs two changes to the effect: detection runs
      on mount only, and Mermaid is initialised with `prefersDark ? 'dark' :
      'neutral'` rather than from the first render's `darkMode`. The preference
      is stored, the root class (absent in `Initial`) is added when the
      preference is dark, and Mermaid gets the preference's theme. */
  function MountOnce(prefersDark: bool): (ui: Ui)
    ensures ui.darkMode == prefersDark
    ensures InSync(ui)
  {
    Ui(prefersDark, prefersDark, Some(MermaidTheme(prefersDark)))
  }

  /** Making the effect run on mount only is not enough by itself: its one run
      initialises Mermaid from the first render's flag, which is false, so with
      a dark preference the page is dark while Mermaid draws "neutral". As
      written, it is the `[darkMode]` re-run that brings Mermaid into step at
      mount (`MountFollowsPreference`). */
  lemma MountOnlyDepsIsStale()
    ensures DetectEffect(true, Initial) == Ui(true, true, Some("neutral"))
    ensures !InSync(DetectEffect(true, Initial))
  {
  }

  /** Without the re-running effect, the toggle keeps the display consistent and
      its new value stays. */
  lemma ToggleKeepsInSync(ui: Ui)
    requires InSync(ui)
    ensures InSync(Toggle(ui))
    ensures Toggle(ui).darkMode == !ui.darkMode
  {
  }

  /** From the mounted page, any number of toggles leaves the display consistent,
      and the flag is the preference flipped once per toggle. */
  lemma {:induction false} TogglesFromMount(prefersDark: bool, n: nat)
    ensures InSync(Toggles(MountOnce(prefersDark), n))
    ensures Toggles(MountOnce(prefersDark), n).darkMode == (prefersDark != (n % 2 == 1))
  {
    if n > 0 {
      TogglesFromMount(prefersDark, n - 1);
      ToggleKeepsInSync(Toggles(MountOnce(prefersDark), n - 1));
    }
  }

  /** `n` clicks of the toggle. */
  function Toggles(ui: Ui, n: nat): Ui
  {
    if n == 0 then ui else Toggle(Toggles(ui, n - 1))
  }
}
