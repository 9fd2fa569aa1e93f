/**
 * POST /consulta-cedula: validate the query, wait for the form, fill it
 * (CURP takes precedence over the name fields), press "Buscar", race the
 * result rows against the no-results message, and extract and summarise
 * the rows.
 */
module Consulta {
  import opened Wrappers
  import opened Frames
  import opened Resolver
  import opened Polling
  import opened Extract
  import opened Summary

  /** The request body's fields; None stands for a missing or null field. */
  datatype Query = Query(nombre: Option<string>, paterno: Option<string>, materno: Option<string>, curp: Option<string>)

  datatype Response =
    | BadRequest(error: string)                 // 400
    | ServerError(error: string)                // 500
    | NoMatches(query: Query)                   // { ok: true, query, coincidencias: 0, resultados: [] }
    | Matches(query: Query, coincidencias: nat, resumen: Resumen, resultados: seq<Candidate>)

  function StatusCode(r: Response): nat {
    match r
    case BadRequest(_) => 400
    case ServerError(_) => 500
    case _ => 200
  }

  /**
   * What the page shows: the frames on each round of the form-readiness wait,
   * the frames when the form is filled and submitted, and the frames on each
   * round after the search button was pressed.
   */
  datatype PageScript = PageScript(
    loading: nat -> seq<FrameView>,
    form: seq<FrameView>,
    results: nat -> seq<FrameView>)

  const MissingQueryMessage: string := "Proporcione al menos {nombre,paterno,materno} o {curp}."
  const LayoutMessage: string := "No se localizaron campos (posible cambio de layout o bloqueo remoto)."
  const ButtonMessage: string := "No se pudo accionar el botón “Buscar”."

  /** SEL_TIMEOUT_MS when the environment does not set it. */
  const DefaultSelTimeoutMs: nat := 90000
  /** The deadline of both waits of the outcome race. */
  const RaceTimeoutMs: nat := 45000

  /** navigateAndWait: any of these inputs being visible means the form has rendered. */
  const FormFieldSelectors: seq<Locator> := [
    Css("input#nombre"), Css("input[formcontrolname=\"nombre\"]"),
    Css("input#primerApellido"), Css("input[formcontrolname=\"primerApellido\"]"),
    Css("input#segundoApellido"), Css("input[formcontrolname=\"segundoApellido\"]"),
    Css("input#curp"), Css("input[formcontrolname=\"curp\"]")]

  /** The label pattern and CSS selector of one form field. */
  datatype FieldSpec = FieldSpec(labelText: string, css: string)

  const CurpField: FieldSpec := FieldSpec("CURP", "input#curp, input[formcontrolname=\"curp\"]")
  const NombreField: FieldSpec := FieldSpec("Nombre\\(s\\)*", "input#nombre, input[formcontrolname=\"nombre\"]")
  const PaternoField: FieldSpec :=
    FieldSpec("Primer Apellido", "input#primerApellido, input[formcontrolname=\"primerApellido\"]")
  const MaternoField: FieldSpec :=
    FieldSpec("Segundo Apellido", "input#segundoApellido, input[formcontrolname=\"segundoApellido\"]")

  /** The request passes validation: a nombre or a CURP is given. */
  predicate Asked(q: Query) {
    Truthy(q.nombre) || Truthy(q.curp)
  }

  /** The readiness wait sees a form field before its deadline. */
  predicate FormReady(page: PageScript, selTimeoutMs: nat) {
    FirstHit(page.loading, AnySelector(FormFieldSelectors), 0, TicksFor(selTimeoutMs)).Some?
  }

  function ToSeq<T>(o: Option<T>): seq<T> {
    if o.Some? then [o.value] else []
  }

  /** The two locators fillAny tries for a field: its label, then its CSS selector. */
  function Controls(field: FieldSpec): set<Locator> {
    {Label(field.labelText), Css(field.css)}
  }

  /** Some frame shows one of the field's two controls. */
  predicate Shown(frames: seq<FrameView>, field: FieldSpec) {
    exists i :: 0 <= i < |frames| && (Label(field.labelText) in frames[i].visible || Css(field.css) in frames[i].visible)
  }

  /**
   * The fill fillAny performs for one field: none for an empty or absent value,
   * otherwise one, with the value, into one of the field's controls, exactly
   * when some frame shows one of them.
   */
  function FillField(frames: seq<FrameView>, field: FieldSpec, value: Option<string>): (r: seq<Action>)
    ensures |r| <= 1
    ensures |r| == 1 <==> Truthy(value) && Shown(frames, field)
    ensures forall a :: a in r ==> a.Fill? && Some(a.value) == value && a.value != "" && a.loc in Controls(field)
  {
    ResolveFoundIff(frames, Label(field.labelText), Css(field.css));
    ToSeq(FillTarget(frames, field.labelText, field.css, value))
  }

  /** The fills the handler performs on a form: at most three, none with an empty value. */
  function Fills(q: Query, frames: seq<FrameView>): (r: seq<Action>)
    ensures |r| <= 3
    ensures forall a :: a in r ==> a.Fill? && a.value != ""
  {
    if Truthy(q.curp) then
      FillField(frames, CurpField, q.curp)
    else
      FillField(frames, NombreField, q.nombre) + FillField(frames, PaternoField, q.paterno) +
      FillField(frames, MaternoField, q.materno)
  }

  /** With a CURP, at most one fill happens, into the CURP control, with the CURP; the names are ignored. */
  lemma CurpTakesPrecedence(q: Query, frames: seq<FrameView>)
    requires Truthy(q.curp)
    ensures |Fills(q, frames)| <= 1
    ensures forall a :: a in Fills(q, frames) ==>
      a.Fill? && a.value == q.curp.value && a.loc in Controls(CurpField)
    ensures |Fills(q, frames)| == 1 <==> Shown(frames, CurpField)
  {
  }

  /** No two name fields share a control. */
  lemma NameControlsDisjoint()
    ensures Controls(NombreField) !! Controls(PaternoField)
    ensures Controls(NombreField) !! Controls(MaternoField)
    ensures Controls(PaternoField) !! Controls(MaternoField)
  {
  }

  /**
   * Without a CURP, the nombre, paterno and materno fills are attempted in that
   * order; a field with an empty or absent value is skipped, and so is a field
   * whose control no frame shows; a field with a value whose control some frame
   * shows is filled with that value.
   */
  lemma NamesWithoutCurp(q: Query, frames: seq<FrameView>)
    requires !Truthy(q.curp)
    ensures Fills(q, frames) ==
      FillField(frames, NombreField, q.nombre) + FillField(frames, PaternoField, q.paterno) +
      FillField(frames, MaternoField, q.materno)
    ensures forall a :: a in Fills(q, frames) ==> (a.Fill? &&
      ((Some(a.value) == q.nombre && a.loc in Controls(NombreField)) ||
       (Some(a.value) == q.paterno && a.loc in Controls(PaternoField)) ||
       (Some(a.value) == q.materno && a.loc in Controls(MaternoField))))
    ensures !Truthy(q.nombre) ==> forall a :: a in Fills(q, frames) ==> a.loc !in Controls(NombreField)
    ensures !Truthy(q.paterno) ==> forall a :: a in Fills(q, frames) ==> a.loc !in Controls(PaternoField)
    ensures !Truthy(q.materno) ==> forall a :: a in Fills(q, frames) ==> a.loc !in Controls(MaternoField)
    ensures Truthy(q.nombre) && Shown(frames, NombreField) ==>
      exists a :: a in Fills(q, frames) && a.loc in Controls(NombreField) && Some(a.value) == q.nombre
    ensures Truthy(q.paterno) && Shown(frames, PaternoField) ==>
      exists a :: a in Fills(q, frames) && a.loc in Controls(PaternoField) && Some(a.value) == q.paterno
    ensures Truthy(q.materno) && Shown(frames, MaternoField) ==>
      exists a :: a in Fills(q, frames) && a.loc in Controls(MaternoField) && Some(a.value) == q.materno
  {
    var n, p, m := FillField(frames, NombreField, q.nombre), FillField(frames, PaternoField, q.paterno),
      FillField(frames, MaternoField, q.materno);
    assert Fills(q, frames) == n + p + m;
    NameControlsDisjoint();
    if Truthy(q.nombre) && Shown(frames, NombreField) { assert n[0] in Fills(q, frames); }
    if Truthy(q.paterno) && Shown(frames, PaternoField) { assert p[0] in Fills(q, frames); }
    if Truthy(q.materno) && Shown(frames, MaternoField) { assert m[0] in Fills(q, frames); }
  }

  /**
   * With SEL_TIMEOUT_MS at its default of 90 s, the form counts as rendered
   * exactly when one of its inputs is visible in some frame on one of the first
   * 360 poll rounds.
   */
  lemma DefaultReadinessDeadline(page: PageScript)
    ensures TicksFor(DefaultSelTimeoutMs) == 360
    ensures FormReady(page, DefaultSelTimeoutMs) <==>
      exists t :: 0 <= t < 360 && Hits(page.loading(t), AnySelector(FormFieldSelectors))
  {
    var n := TicksFor(DefaultSelTimeoutMs);
    assert 359 < n by { assert 359 * PollIntervalMs < DefaultSelTimeoutMs; }
    assert !(360 < n) by { assert !(360 * PollIntervalMs < DefaultSelTimeoutMs); }
    var r := FirstHit(page.loading, AnySelector(FormFieldSelectors), 0, n);
    if r.Some? {
      assert Hits(page.loading(r.value), AnySelector(FormFieldSelectors));
    }
  }

  /** The handler of POST /consulta-cedula, with the page effects it performs in order. */
  method ConsultaCedula(q: Query, page: PageScript, selTimeoutMs: nat) returns (resp: Response, actions: seq<Action>)
    ensures resp.BadRequest? <==> !Asked(q)
    ensures resp.BadRequest? ==> resp.error == MissingQueryMessage && actions == []
    ensures Asked(q) && !FormReady(page, selTimeoutMs) ==> resp == ServerError(LayoutMessage) && actions == []
    ensures Asked(q) && FormReady(page, selTimeoutMs) && ClickTarget(page.form).None? ==>
      resp == ServerError(ButtonMessage) && actions == Fills(q, page.form)
    ensures resp.NoMatches? || resp.Matches? ==>
      Asked(q) && FormReady(page, selTimeoutMs) && ClickTarget(page.form).Some? &&
      resp.query == q && actions == Fills(q, page.form) + [ClickTarget(page.form).value]
    ensures Asked(q) && FormReady(page, selTimeoutMs) && ClickTarget(page.form).Some? ==>
      (resp.Matches? <==> RowsWinRace(page.results, TicksFor(RaceTimeoutMs))) &&
      (resp.NoMatches? <==> !RowsWinRace(page.results, TicksFor(RaceTimeoutMs)))
    ensures resp.Matches? ==>
      resp.coincidencias == |resp.resultados| && resp.coincidencias > 0 &&
      resp.resumen == Summarize(resp.resultados) &&
      var t := FirstHit(page.results, AnyRows, 0, TicksFor(RaceTimeoutMs));
      t.Some? && resp.resultados == Extracted(page.results(t.value))
    ensures StatusCode(resp) == 200 <==> resp.NoMatches? || resp.Matches?
  {
    if !Truthy(q.nombre) && !Truthy(q.curp) {
      return BadRequest(MissingQueryMessage), [];
    }
    // navigateAndWait: navigation errors are swallowed; only the readiness wait decides.
    var ready := WaitAnySelectorInAnyFrame(page.loading, FormFieldSelectors, TicksFor(selTimeoutMs));
    if ready.outcome != Fulfilled(true) {
      return ServerError(LayoutMessage), [];
    }
    if Truthy(q.curp) {
      var _, curp := FillAny(page.form, CurpField.labelText, CurpField.css, q.curp);
      actions := ToSeq(curp);
    } else {
      var _, nombre := FillAny(page.form, NombreField.labelText, NombreField.css, q.nombre);
      var _, paterno := FillAny(page.form, PaternoField.labelText, PaternoField.css, q.paterno);
      var _, materno := FillAny(page.form, MaternoField.labelText, MaternoField.css, q.materno);
      actions := ToSeq(nombre) + ToSeq(paterno) + ToSeq(materno);
    }
    var clicked, click := ClickBuscar(page.form);
    if !clicked {
      return ServerError(ButtonMessage), actions;
    }
    actions := actions + [click.value];
    var got, tick := RaceRowsAgainstText(page.results, TicksFor(RaceTimeoutMs));
    if !got {
      return NoMatches(q), actions;
    }
    var resultados := CollectRows(page.results(tick));
    resp := Matches(q, |resultados|, Summarize(resultados), resultados);
  }
}
