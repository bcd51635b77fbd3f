/**
 The application's theme manager: a current theme name, changed by
 `set_theme` and `toggle_theme`, that selects one of two stylesheets.
 The stylesheet texts themselves are opaque here.
 */
module Styles {

  const Light: string := "light"
  const Dark: string := "dark"

  /** The two stylesheets `light_theme()` and `dark_theme()` return. */
  datatype Stylesheet = LightSheet | DarkSheet

  datatype AppTheme = AppTheme(currentTheme: string)

  /** The theme names the manager accepts. */
  predicate Valid(t: AppTheme)
  {
    t.currentTheme == Light || t.currentTheme == Dark
  }

  /** `AppTheme()` starts on the light theme. */
  function Init(): (t: AppTheme)
    ensures Valid(t) && t.currentTheme == "light"
  {
    AppTheme(Light)
  }

  /** `get_stylesheet`: the dark sheet exactly when the theme is "dark". */
  function GetStylesheet(t: AppTheme): (sheet: Stylesheet)
    ensures sheet == DarkSheet <==> t.currentTheme == "dark"
    ensures sheet == LightSheet <==> t.currentTheme != "dark"
  {
    if t.currentTheme == Dark then DarkSheet else LightSheet
  }

  /** `set_theme`: only "light" and "dark" are accepted; any other name changes nothing. */
  function SetTheme(t: AppTheme, name: string): (t': AppTheme)
    ensures name == "light" || name == "dark" ==> t'.currentTheme == name
    ensures name != "light" && name != "dark" ==> t' == t
    ensures Valid(t) ==> Valid(t')
  {
    if name == Light || name == Dark then AppTheme(name) else t
  }

  /** `toggle_theme`: "light" becomes "dark", anything else becomes "light". */
  function ToggleTheme(t: AppTheme): (t': AppTheme)
    ensures Valid(t')
    ensures t.currentTheme == "light" ==> t'.currentTheme == "dark"
    ensures t.currentTheme != "light" ==> t'.currentTheme == "light"
  {
    AppTheme(if t.currentTheme == Light then Dark else Light)
  }

  /** From a valid state, toggling changes the stylesheet. */
  lemma ToggleSwitchesStylesheet(t: AppTheme)
    requires Valid(t)
    ensures GetStylesheet(ToggleTheme(t)) != GetStylesheet(t)
  {
  }

  /** From a valid state, toggling twice restores it. */
  lemma ToggleTwice(t: AppTheme)
    requires Valid(t)
    ensures ToggleTheme(ToggleTheme(t)) == t
  {
  }

  /**
   From a theme name the manager never sets itself, toggling twice lands on
   "dark", not where it started: toggling is an involution only on valid
   states.
   */
  lemma ToggleTwiceFromInvalid(t: AppTheme)
    requires !Valid(t)
    ensures ToggleTheme(ToggleTheme(t)).currentTheme == "dark"
    ensures ToggleTheme(ToggleTheme(t)) != t
  {
  }

  /** The operations the application can apply to the theme. */
  datatype ThemeOp = Set(name: string) | Toggle

  function Apply(t: AppTheme, op: ThemeOp): AppTheme
  {
    match op
    case Set(name) => SetTheme(t, name)
    case Toggle => ToggleTheme(t)
  }

  function ApplyAll(t: AppTheme, ops: seq<ThemeOp>): AppTheme
    decreases |ops|
  {
    if |ops| == 0 then t else ApplyAll(Apply(t, ops[0]), ops[1..])
  }

  /** Whatever sequence of operations runs, the theme stays "light" or "dark". */
  lemma {:induction false} ValidAfterAnyOps(t: AppTheme, ops: seq<ThemeOp>)
    requires Valid(t)
    ensures Valid(ApplyAll(t, ops))
    decreases |ops|
  {
    if |ops| > 0 {
      ValidAfterAnyOps(Apply(t, ops[0]), ops[1..]);
    }
  }

  /** Every theme the application reaches from start is "light" or "dark". */
  lemma ReachableThemesValid(ops: seq<ThemeOp>)
    ensures ApplyAll(Init(), ops).currentTheme in {"light", "dark"}
  {
    ValidAfterAnyOps(Init(), ops);
  }

  /** The module-level `theme` instance the windows share. */
  const SharedTheme: AppTheme := Init()
}
