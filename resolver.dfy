/**
 * Two-tier control resolution: every frame is swept with the primary strategy
 * (accessible label, or role for the search button) before every frame is
 * swept with the fallback (CSS selector, or text match). The page effects of
 * fillAny and clickBuscar are returned as Action values.
 */
module Resolver {
  import opened Wrappers
  import opened Frames

  /** A control found in a given frame by a given locator. */
  datatype Target = Target(frame: nat, loc: Locator)

  /** What the service does to the page. */
  datatype Action =
    | Fill(frame: nat, loc: Locator, value: string)
    | Click(frame: nat, loc: Locator)

  /** JavaScript truthiness of an optional string field: present and non-empty. */
  predicate Truthy(v: Option<string>) {
    v.Some? && v.value != ""
  }

  /** The first primary match in any frame, else the first fallback match in any frame. */
  function Resolve(frames: seq<FrameView>, primary: Locator, fallback: Locator): (r: Option<Target>)
    ensures r.Some? ==> r.value.loc == primary || r.value.loc == fallback
    ensures r.Some? ==> r.value.frame < |frames| && r.value.loc in frames[r.value.frame].visible
  {
    match FirstFrame(frames, Shows(primary))
    case Some(i) => Some(Target(i, primary))
    case None =>
      match FirstFrame(frames, Shows(fallback))
      case Some(j) => Some(Target(j, fallback))
      case None => None
  }

  /** A control is found exactly when some frame shows the primary or the fallback locator. */
  lemma ResolveFoundIff(frames: seq<FrameView>, primary: Locator, fallback: Locator)
    ensures Resolve(frames, primary, fallback).Some? <==>
      exists i :: 0 <= i < |frames| && (primary in frames[i].visible || fallback in frames[i].visible)
  {
    var r := Resolve(frames, primary, fallback);
    if r.None? {
      assert !AnyFrame(frames, Shows(primary)) && !AnyFrame(frames, Shows(fallback));
    } else {
      assert r.value.loc == primary || r.value.loc == fallback;
    }
  }

  /**
   * A primary match in ANY frame beats a fallback match in every frame, and
   * within the primary tier the earliest frame wins.
   */
  lemma PrimaryTierWins(frames: seq<FrameView>, primary: Locator, fallback: Locator, i: nat)
    requires i < |frames| && primary in frames[i].visible
    ensures Resolve(frames, primary, fallback).Some?
    ensures Resolve(frames, primary, fallback).value.loc == primary
    ensures Resolve(frames, primary, fallback).value.frame <= i
    ensures forall j :: 0 <= j < Resolve(frames, primary, fallback).value.frame ==> primary !in frames[j].visible
  {
    assert Passes(frames[i], Shows(primary));
  }

  /** The fallback is used only when no frame at all shows the primary locator; then its earliest frame wins. */
  lemma FallbackOnlyWithoutPrimary(frames: seq<FrameView>, primary: Locator, fallback: Locator)
    requires primary != fallback
    requires Resolve(frames, primary, fallback).Some?
    requires Resolve(frames, primary, fallback).value.loc == fallback
    ensures forall j :: 0 <= j < |frames| ==> primary !in frames[j].visible
    ensures forall j :: 0 <= j < Resolve(frames, primary, fallback).value.frame ==> fallback !in frames[j].visible
  {
    var r := FirstFrame(frames, Shows(primary));
    assert r.None?;
    forall j | 0 <= j < |frames| ensures primary !in frames[j].visible {
      assert !Passes(frames[j], Shows(primary));
    }
  }

  /** When no frame shows the primary locator, the fallback is used at the first frame that shows it. */
  lemma FallbackWhenNoPrimary(frames: seq<FrameView>, primary: Locator, fallback: Locator)
    requires forall j :: 0 <= j < |frames| ==> primary !in frames[j].visible
    requires AnyFrame(frames, Shows(fallback))
    ensures Resolve(frames, primary, fallback) == Some(Target(FirstFrame(frames, Shows(fallback)).value, fallback))
  {
    assert !AnyFrame(frames, Shows(primary));
  }

  /** The fill a fillAny call performs, if any. */
  function FillTarget(frames: seq<FrameView>, labelText: string, css: string, value: Option<string>): Option<Action>
  {
    if !Truthy(value) then None
    else
      match Resolve(frames, Label(labelText), Css(css))
      case Some(t) => Some(Fill(t.frame, t.loc, value.value))
      case None => None
  }

  /**
   * fillAny: nothing is searched or filled for an empty or absent value;
   * otherwise the label sweep over all frames, then the CSS sweep.
   */
  method FillAny(frames: seq<FrameView>, labelText: string, css: string, value: Option<string>)
    returns (filled: bool, action: Option<Action>)
    ensures action == FillTarget(frames, labelText, css, value)
    ensures filled <==> action.Some?
    ensures filled <==> (Truthy(value) &&
      exists i :: 0 <= i < |frames| && (Label(labelText) in frames[i].visible || Css(css) in frames[i].visible))
  {
    ResolveFoundIff(frames, Label(labelText), Css(css));
    if !Truthy(value) {
      return false, None;
    }
    var byLabel := FindFrame(frames, Shows(Label(labelText)));
    if byLabel.Some? {
      return true, Some(Fill(byLabel.value, Label(labelText), value.value));
    }
    var byCss := FindFrame(frames, Shows(Css(css)));
    if byCss.Some? {
      return true, Some(Fill(byCss.value, Css(css), value.value));
    }
    return false, None;
  }

  /** getByRole('button', { name: /buscar/i }) */
  const BuscarRole: Locator := Role("button", "/buscar/i")
  /** locator('button:has-text("Buscar")') */
  const BuscarText: Locator := Css("button:has-text(\"Buscar\")")

  /** The click a clickBuscar call performs, if any. */
  function ClickTarget(frames: seq<FrameView>): Option<Action> {
    match Resolve(frames, BuscarRole, BuscarText)
    case Some(t) => Some(Click(t.frame, t.loc))
    case None => None
  }

  /** clickBuscar: role sweep over all frames, then text sweep; false only when both miss. */
  method ClickBuscar(frames: seq<FrameView>) returns (clicked: bool, action: Option<Action>)
    ensures action == ClickTarget(frames)
    ensures clicked <==> action.Some?
    ensures !clicked <==> (forall i :: 0 <= i < |frames| ==> BuscarRole !in frames[i].visible && BuscarText !in frames[i].visible)
  {
    ResolveFoundIff(frames, BuscarRole, BuscarText);
    var byRole := FindFrame(frames, Shows(BuscarRole));
    if byRole.Some? {
      return true, Some(Click(byRole.value, BuscarRole));
    }
    var byText := FindFrame(frames, Shows(BuscarText));
    if byText.Some? {
      return true, Some(Click(byText.value, BuscarText));
    }
    return false, None;
  }
}
