/** The edit form's own state: whether it has been rendered, whether it is destroyed,
    the `isSubmitting` latch and the text of its error slot. */
module Form {
  import opened Wrappers
  import opened JsValue

  /** `hasElement`: the form and its error slot exist (set by `render`, cleared by
      `destroy`). `error`: the text shown in the error slot, `None` while it is hidden. */
  datatype FormState = FormState(hasElement: bool, isDestroyed: bool, isSubmitting: bool, error: Option<string>)

  /** A form as constructed: nothing rendered yet. */
  const Initial: FormState := FormState(false, false, false, None)

  /** `render`: a fresh form with a hidden error slot and the latch released. */
  function Render(f: FormState): (r: FormState)
    ensures r.hasElement && !r.isDestroyed && !r.isSubmitting && r.error.None?
  {
    FormState(true, false, false, None)
  }

  /** `error(msg)`: `false` hides and empties the slot, anything else is shown as text.
      A destroyed or unrendered form ignores the call. */
  function Error(f: FormState, msg: Value): (r: FormState)
    ensures r.hasElement == f.hasElement && r.isDestroyed == f.isDestroyed && r.isSubmitting == f.isSubmitting
    ensures f.isDestroyed || !f.hasElement ==> r == f
    ensures !f.isDestroyed && f.hasElement ==> (r.error.None? <==> msg == Bool(false))
    ensures !f.isDestroyed && f.hasElement && msg != Bool(false) ==> r.error == Some(TextContent(msg))
  {
    if f.isDestroyed || !f.hasElement then f
    else if msg == Bool(false) then f.(error := None)
    else f.(error := Some(TextContent(msg)))
  }

  /** `onHide`: releases the latch. */
  function OnHide(f: FormState): (r: FormState)
    ensures !r.isSubmitting
    ensures r.(isSubmitting := f.isSubmitting) == f
  {
    f.(isSubmitting := false)
  }

  /** `destroy`: the form is gone and the latch released. */
  function Destroy(f: FormState): (r: FormState)
    ensures r.isDestroyed && !r.hasElement && !r.isSubmitting
  {
    FormState(false, true, false, None)
  }

  /** The guard at the top of `submit`. */
  predicate CanSubmit(f: FormState) {
    !f.isDestroyed && !f.isSubmitting && f.hasElement
  }

  /** What `submit` does before handing the value to `save`, given what `validate` returned
      (null when there is no validator): the new form state, and whether `save` runs. */
  datatype Begin = Begin(form: FormState, proceed: bool)

  function BeginSubmit(f: FormState, validation: Value): (r: Begin)
    ensures !CanSubmit(f) ==> r == Begin(f, false)
    ensures CanSubmit(f) && Truthy(validation) ==>
      !r.proceed && !r.form.isSubmitting && r.form.error == Some(TextContent(validation))
    ensures CanSubmit(f) && !Truthy(validation) ==> r.proceed && r.form.isSubmitting && r.form.error.None?
    ensures r.form.hasElement == f.hasElement && r.form.isDestroyed == f.isDestroyed
  {
    if !CanSubmit(f) then Begin(f, false)
    else
      var latched := f.(isSubmitting := true);
      if Truthy(validation) then Begin(Error(latched, validation).(isSubmitting := false), false)
      else Begin(Error(latched, Bool(false)), true)
  }

  // ---- properties ----

  /** Once a submit has gone through to `save`, every further submit is ignored, whatever
      the validator says, until the form is hidden, re-rendered or destroyed. */
  lemma LatchBlocksResubmit(f: FormState, v1: Value, v2: Value)
    requires BeginSubmit(f, v1).proceed
    ensures var g := BeginSubmit(f, v1).form;
      BeginSubmit(g, v2) == Begin(g, false)
  {
  }

  /** Hiding a live rendered form makes it submittable again. */
  lemma OnHideReleases(f: FormState)
    requires !f.isDestroyed && f.hasElement
    ensures CanSubmit(OnHide(f))
  {
  }

  /** A failed validation leaves the form submittable, so the user can correct and retry. */
  lemma ValidationFailureAllowsRetry(f: FormState, v: Value)
    requires CanSubmit(f) && Truthy(v)
    ensures CanSubmit(BeginSubmit(f, v).form)
  {
  }

  /** Showing a message and then clearing it leaves the slot hidden; clearing is
      idempotent. */
  lemma ErrorThenClear(f: FormState, msg: Value)
    ensures Error(Error(f, msg), Bool(false)).error == (if f.isDestroyed || !f.hasElement then f.error else None)
    ensures Error(Error(f, Bool(false)), Bool(false)) == Error(f, Bool(false))
  {
  }

  /** A destroyed form cannot be submitted, even after `onHide`. */
  lemma DestroyedNeverSubmits(f: FormState)
    ensures !CanSubmit(Destroy(f)) && !CanSubmit(OnHide(Destroy(f)))
  {
  }
}
