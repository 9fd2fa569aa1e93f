/**
 * A snapshot of the frames attached to a page (main document first, then the
 * embedded frames in attachment order) and the first-frame search that every
 * multi-frame helper of the service performs.
 *
 * Playwright's locator machinery is opaque here: a frame reports the set of
 * locators whose visibility probe answered true (a probe that threw counts as
 * not visible, since every probe sits in a try/catch), and the text cells of
 * the rows matched by `table tbody tr`, already trimmed.
 */
module Frames {
  import opened Wrappers

  /** How a control is looked up inside one frame. */
  datatype Locator =
    | Label(pattern: string)          // getByLabel(new RegExp(pattern, 'i'))
    | Css(selector: string)           // locator(selector)
    | Role(role: string, name: string) // getByRole(role, { name })
    | Text(pattern: string)           // getByText(pattern)

  datatype FrameView = FrameView(visible: set<Locator>, rows: seq<seq<string>>)

  /** What a first-frame search asks of one frame. */
  datatype FrameTest = Shows(loc: Locator) | HasRows

  predicate Passes(f: FrameView, test: FrameTest) {
    match test
    case Shows(loc) => loc in f.visible
    case HasRows => |f.rows| > 0
  }

  /** Some frame of the snapshot passes `test`. */
  predicate AnyFrame(frames: seq<FrameView>, test: FrameTest) {
    exists i :: 0 <= i < |frames| && Passes(frames[i], test)
  }

  /** The index of the first frame that passes `test`, or None when no frame does. */
  function FirstFrame(frames: seq<FrameView>, test: FrameTest): (r: Option<nat>)
    ensures r.None? <==> !AnyFrame(frames, test)
    ensures r.Some? ==> r.value < |frames| && Passes(frames[r.value], test)
    ensures r.Some? ==> forall j :: 0 <= j < r.value ==> !Passes(frames[j], test)
  {
    if |frames| == 0 then None
    else if Passes(frames[0], test) then Some(0)
    else
      var rest := FirstFrame(frames[1..], test);
      assert forall j :: 1 <= j < |frames| ==> frames[j] == frames[1..][j - 1];
      if rest.None? then None else Some(rest.value + 1)
  }

  /** The first-match result is determined by the three facts above. */
  lemma FirstFrameUnique(frames: seq<FrameView>, test: FrameTest, i: nat)
    requires i < |frames| && Passes(frames[i], test)
    requires forall j :: 0 <= j < i ==> !Passes(frames[j], test)
    ensures FirstFrame(frames, test) == Some(i)
  {
  }

  /**
   * The `for (const f of page.frames())` sweep with an early return that
   * getLocatorInAnyFrameByLabel, getLocatorInAnyFrame, clickBuscar and
   * collectRows share: the first frame in order that passes, or nothing.
   */
  method FindFrame(frames: seq<FrameView>, test: FrameTest) returns (r: Option<nat>)
    ensures r == FirstFrame(frames, test)
  {
    var i := 0;
    while i < |frames|
      invariant i <= |frames|
      invariant forall j :: 0 <= j < i ==> !Passes(frames[j], test)
    {
      if Passes(frames[i], test) {
        FirstFrameUnique(frames, test, i);
        return Some(i);
      }
      i := i + 1;
    }
    return None;
  }
}
