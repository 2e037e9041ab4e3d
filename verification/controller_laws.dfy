/** Properties of the field lifecycle: the flag invariant every operation keeps, the save
    flow's outcomes, the submit latch, popup exclusivity and the quirks of the code as
    written. */
module ControllerLaws {
  import opened Wrappers
  import opened Text
  import opened JsValue
  import opened Inputs
  import opened Controller
  import Form
  import Container
  import Submission

  // ---- the invariant ----

  lemma HidePreservesWf(f: Field)
    requires Wf(f)
    ensures Wf(Hide(f).field)
  {
  }

  lemma CancelEditPreservesWf(f: Field)
    requires Wf(f)
    ensures Wf(CancelEdit(f).field)
  {
  }

  lemma SetValuePreservesWf(f: Field, v: Value, convert: bool, hooks: Hooks)
    requires Wf(f) && !f.isDestroyed
    ensures Wf(SetValue(f, v, convert, hooks).field)
  {
  }

  lemma EnableDisablePreserveWf(f: Field)
    requires Wf(f) && !f.isDestroyed
    ensures Wf(Enable(f)) && Wf(Disable(f).field)
  {
  }

  lemma DestroyPreservesWf(f: Field)
    requires Wf(f) && !f.isDestroyed
    ensures Wf(Destroy(f))
  {
  }

  lemma CommitPreservesWf(f: Field, v: Value, submitValue: string, response: Option<Value>, hooks: Hooks)
    requires Wf(f) && !f.isDestroyed
    ensures Wf(Commit(f, v, submitValue, response, hooks).field)
  {
    var s := SetValue(f, v, false, hooks);
    assert Wf(s.field);
  }

  lemma SavePreservesWf(f: Field, v: Value, hooks: Hooks)
    requires Wf(f)
    ensures Wf(SaveValue(f, v, hooks).field)
  {
    if !f.isDestroyed && !Submission.Unchanged(f.value, v, f.opts.savenochange) && !Truthy(f.opts.url) {
      CommitPreservesWf(f.(value := v), v, Value2Str(f.kind, v), None, hooks);
    }
  }

  lemma SubmitPreservesWf(f: Field, control: Control, hooks: Hooks)
    requires Wf(f)
    ensures Wf(Submit(f, control, hooks).field)
  {
    var v := Input2Value(f.kind, control);
    var b := Form.BeginSubmit(f.form, Validation(hooks, v));
    if b.proceed {
      SavePreservesWf(f.(form := b.form), v, hooks);
    }
  }

  lemma DeliverPreservesWf(f: Field, req: Request, reply: Submission.Reply, hooks: Hooks)
    requires Wf(f)
    ensures Wf(Deliver(f, req, reply, hooks).field)
  {
    if !f.isDestroyed && reply.Body? {
      var f1 := f.(container := WithLoading(f.container, false));
      var out := Submission.Interpret(reply.data, req.value, hooks.success);
      if out.Commit? {
        CommitPreservesWf(f1, out.value, req.submitValue, Some(reply.data), hooks);
      }
    }
  }

  lemma OnDocEventPreservesWf(f: Field, ev: Container.DocEvent, control: Control, hooks: Hooks)
    requires Wf(f)
    ensures Wf(OnDocEvent(f, ev, control, hooks).field)
  {
    SubmitPreservesWf(f, control, hooks);
  }

  /** Every field of a well-formed page stays well-formed when one of them is shown. */
  lemma {:induction false} ShowPreservesWf(page: seq<Field>, i: nat)
    requires i < |page| && forall j :: 0 <= j < |page| ==> Wf(page[j])
    ensures forall j :: 0 <= j < |Show(page, i).page| ==> Wf(Show(page, i).page[j])
  {
    var f := page[i];
    if !(f.isDestroyed || f.disabled || f.isActive) {
      var active := page[i := f.(isActive := true)];
      var r := Show(page, i);
      forall j | 0 <= j < |page| && j != i
        ensures Wf(r.page[j])
      {
        HidePreservesWf(page[j]);
      }
    }
  }

  // ---- showing, hiding, toggling ----

  /** In popup mode, showing a field closes every other field on the page: afterwards it
      is the only one active and carrying the open class. */
  lemma {:induction false} PopupIsExclusive(page: seq<Field>, i: nat)
    requires i < |page| && forall j :: 0 <= j < |page| ==> Wf(page[j])
    requires !page[i].isDestroyed && !page[i].disabled && !page[i].isActive
    requires page[i].opts.mode == Str("popup")
    ensures var r := Show(page, i).page;
      && r[i].isActive && r[i].openTag && Container.IsVisible(r[i].container)
      && forall j :: 0 <= j < |page| && j != i ==> !r[j].isActive && !r[j].openTag
  {
    var r := Show(page, i).page;
    forall j | 0 <= j < |page| && j != i
      ensures !r[j].isActive && !r[j].openTag
    {
      if page[j].openTag {
        assert !page[j].isDestroyed;
      }
    }
  }

  /** Inline mode leaves the other fields alone. */
  lemma InlineKeepsOthers(page: seq<Field>, i: nat)
    requires i < |page| && page[i].opts.mode != Str("popup")
    ensures forall j :: 0 <= j < |page| && j != i ==> Show(page, i).page[j] == page[j]
  {
  }

  /** Escape or an outside click with `onblur: 'cancel'` closes only the container: the
      field stays active, so a later click on the element hides it (reporting `hidden`)
      instead of opening the editor again, and `show()` does nothing until then. */
  lemma {:induction false} ToggleAfterCancel(f: Field)
    requires Wf(f) && Container.IsVisible(f.container) && !f.disabled
    ensures var g := CancelEdit(f).field;
      && g.isActive && !Container.IsVisible(g.container)
      && Show([g], 0) == PageStep([g], [])
      && Toggle([g], 0).events == [(0, Hidden)] && !Toggle([g], 0).page[0].isActive
  {
    var g := CancelEdit(f).field;
    assert g.openTag;
  }

  /** A disabled field cannot be opened, by `show()` or by its trigger. */
  lemma DisabledStaysClosed(page: seq<Field>, i: nat)
    requires i < |page| && !page[i].isDestroyed
    ensures var p := page[i := Disable(page[i]).field];
      Show(p, i) == PageStep(p, []) && Activate(p, i) == PageStep(p, [])
  {
  }

  /** Destroyed fields are inert: nothing opens, closes, submits or reports. */
  lemma DestroyedIsInert(f: Field, control: Control, ev: Container.DocEvent, req: Request,
                         reply: Submission.Reply, hooks: Hooks)
    requires Wf(f) && !f.isDestroyed
    ensures var d := Destroy(f);
      && Show([d], 0) == PageStep([d], []) && Activate([d], 0) == PageStep([d], [])
      && Hide(d) == Step(d, []) && Submit(d, control, hooks) == Submitted(d, [], None)
      && OnDocEvent(d, ev, control, hooks) == Submitted(d, [], None)
      && Deliver(d, req, reply, hooks) == Step(d, [])
  {
    var d := Destroy(f);
    assert !Form.CanSubmit(d.form);
    assert !Container.IsVisible(d.container);
  }

  // ---- the empty placeholder ----

  /** An enabled blank field shows `emptytext`; running `handleEmpty` again on that text
      removes the empty class while the placeholder stays. */
  lemma {:induction false} HandleEmptyTwice(f: Field)
    requires !f.isDestroyed && !f.disabled && IsBlank(f.display)
    requires !IsBlank(DomString(f.opts.emptytext))
    ensures var once := HandleEmpty(f);
      && once.display == DomString(f.opts.emptytext) && once.emptyClass
      && HandleEmpty(once).display == once.display && !HandleEmpty(once).emptyClass
  {
  }

  /** Committing a value whose display text is not blank shows that text without the empty
      class; a blank one on an enabled field shows the placeholder with it. */
  lemma {:induction false} SetValueDisplays(f: Field, v: Value, hooks: Hooks)
    requires !f.isDestroyed && hooks.display.None?
    ensures var dv := Value2Html(f.kind, f.source, v);
      var g := SetValue(f, v, false, hooks).field;
      && (dv != Undefined && !IsBlank(DomString(dv)) ==> g.display == DomString(dv) && !g.emptyClass)
      && (dv != Undefined && IsBlank(DomString(dv)) && !f.disabled ==>
            g.display == DomString(f.opts.emptytext) && g.emptyClass)
  {
    var dv := Value2Html(f.kind, f.source, v);
    assert DisplayOf(f, v, hooks) == dv;
  }

  // ---- the save flow ----

  /** The value a submit reads and the preconditions of a submit that reaches `save`. */
  predicate Proceeds(f: Field, control: Control, hooks: Hooks) {
    Form.CanSubmit(f.form) && !Truthy(Validation(hooks, Input2Value(f.kind, control)))
  }

  /** A submitted value that serialises like the current one reports `nochange` and closes
      the editor without a request. */
  lemma {:induction false} UnchangedSubmit(f: Field, control: Control, hooks: Hooks)
    requires Wf(f) && Proceeds(f, control, hooks)
    requires Submission.Unchanged(f.value, Input2Value(f.kind, control), f.opts.savenochange)
    ensures var r := Submit(f, control, hooks);
      r.request.None? && r.events == [NoChange, Hidden] && !r.field.isActive
  {
    assert !f.isDestroyed;
  }

  /** A validation failure shows the validator's message and keeps the value. */
  lemma {:induction false} ValidationFailure(f: Field, control: Control, hooks: Hooks)
    requires Form.CanSubmit(f.form)
    requires Truthy(Validation(hooks, Input2Value(f.kind, control)))
    ensures var r := Submit(f, control, hooks);
      && r.request.None? && r.events == [] && r.field.value == f.value
      && r.field.form.error == Some(TextContent(Validation(hooks, Input2Value(f.kind, control))))
      && Form.CanSubmit(r.field.form)
  {
  }

  /** A changed value with a URL sends the payload for the submit form of the value,
      shows the spinner and latches the form. */
  lemma {:induction false} RemoteSubmit(f: Field, control: Control, hooks: Hooks)
    requires Wf(f) && Proceeds(f, control, hooks) && Truthy(f.opts.url)
    requires !Submission.Unchanged(f.value, Input2Value(f.kind, control), f.opts.savenochange)
    ensures var v := Input2Value(f.kind, control);
      var r := Submit(f, control, hooks);
      && r.events == [] && r.field.value == v && r.field.container.loading
      && r.field.form.isSubmitting && r.field.isActive == f.isActive
      && r.request == Some(Request(f.opts.url,
           Submission.Payload(f.opts.name, Value2Str(f.kind, v), PkOf(f, hooks),
             ParamsOf(f, hooks, Submission.BaseData(f.opts.name, Value2Str(f.kind, v), PkOf(f, hooks)))),
           v, Value2Str(f.kind, v)))
  {
    assert !f.isDestroyed;
  }

  /** Without a URL a changed value is committed at once: `update`, `hidden`, then `save`
      with no response. */
  lemma {:induction false} LocalSubmit(f: Field, control: Control, hooks: Hooks)
    requires Wf(f) && Proceeds(f, control, hooks) && !Truthy(f.opts.url)
    requires !Submission.Unchanged(f.value, Input2Value(f.kind, control), f.opts.savenochange)
    ensures var v := Input2Value(f.kind, control);
      var r := Submit(f, control, hooks);
      && r.request.None? && r.field.value == v && !r.field.isActive
      && r.events == [Update(v), Hidden, Save(v, Value2Str(f.kind, v), None)]
  {
    assert !f.isDestroyed;
  }

  /** While a request is outstanding every further submit is ignored. */
  lemma {:induction false} SubmitLatched(f: Field, c1: Control, c2: Control, hooks: Hooks)
    requires Wf(f) && Proceeds(f, c1, hooks) && Truthy(f.opts.url)
    requires !Submission.Unchanged(f.value, Input2Value(f.kind, c1), f.opts.savenochange)
    ensures var g := Submit(f, c1, hooks).field;
      Submit(g, c2, hooks) == Submitted(g, [], None)
  {
    RemoteSubmit(f, c1, hooks);
  }

  /** A "success" reply commits the submitted value and closes the editor. */
  lemma {:induction false} SuccessReply(f: Field, req: Request, data: Value, hooks: Hooks)
    requires Wf(f) && !f.isDestroyed && Submission.StatusOf(data) == Str("success")
    ensures var r := Deliver(f, req, Submission.Body(data), hooks);
      && r.field.value == req.value && !r.field.isActive && !r.field.container.loading
      && r.events == [Update(req.value), Hidden, Save(req.value, req.submitValue, Some(data))]
  {
    assert Submission.Interpret(data, req.value, hooks.success) == Submission.Commit(req.value);
    var f1 := f.(container := WithLoading(f.container, false));
    var c := Commit(f1, req.value, req.submitValue, Some(data), hooks);
    assert c.events == [Update(req.value), Hidden, Save(req.value, req.submitValue, Some(data))];
    assert Deliver(f, req, Submission.Body(data), hooks) == c;
  }

  /** An "error" reply shows the server's message in the form and changes nothing else the
      user can see: no event, the editor stays open and the form stays latched. */
  lemma {:induction false} ErrorReply(f: Field, req: Request, data: Value, hooks: Hooks)
    requires Wf(f) && !f.isDestroyed && f.form.hasElement && Submission.StatusOf(data) == Str("error")
    ensures var r := Deliver(f, req, Submission.Body(data), hooks);
      && r.events == [] && r.field.value == f.value && r.field.isActive == f.isActive
      && r.field.form.isSubmitting == f.form.isSubmitting
      && r.field.form.error == Some(TextContent(
           if Truthy(Get(data, "message")) then Get(data, "message") else Str(Submission.UnknownError)))
  {
  }

  /** A failed request always puts a message in a live form. */
  lemma {:induction false} FailureShowsMessage(f: Field, req: Request, e: Submission.ErrorInfo, hooks: Hooks)
    requires Wf(f) && !f.isDestroyed && f.form.hasElement
    ensures var r := Deliver(f, req, Submission.Failed(e), hooks);
      && r.events == [] && r.field.value == f.value
      && r.field.form.error == Some(TextContent(Submission.FailureMessage(e, req.value, hooks.error)))
  {
  }

  /** What a reply does to a live field, for every outcome `Submission.Interpret` gives and
      for a failed request: the spinner goes off; a message (the server's, the success
      callback's string, or the classified failure of a throw or a failed request) goes into
      the form's error slot and nothing else changes; `false` from the success callback
      changes nothing but the spinner; a commit stores the outcome's value, which is the
      callback's `newValue` when it gave one, closes the editor and reports update, hidden
      and save with the submitted string. */
  lemma {:induction false} DeliverOutcome(f: Field, req: Request, reply: Submission.Reply, hooks: Hooks)
    requires !f.isDestroyed && !f.container.destroyed
    ensures var r := Deliver(f, req, reply, hooks);
      && !r.field.container.loading
      && (reply.Failed? ==>
            && r.events == [] && r.field.container == f.container.(loading := false)
            && r.field == f.(container := r.field.container,
                             form := Form.Error(f.form, Submission.FailureMessage(reply.e, req.value, hooks.error))))
    ensures reply.Body? ==>
      var r := Deliver(f, req, reply, hooks);
      var o := Submission.Interpret(reply.data, req.value, hooks.success);
      && (!o.Commit? ==> r.events == [] && r.field.container == f.container.(loading := false))
      && (o.KeepOpen? ==> r.field == f.(container := r.field.container))
      && (o.ShowError? ==> r.field == f.(container := r.field.container, form := Form.Error(f.form, o.msg)))
      && (o.Caught? ==>
            r.field == f.(container := r.field.container,
                          form := Form.Error(f.form, Submission.FailureMessage(o.e, req.value, hooks.error))))
      && (o.Commit? ==>
            && r.field.value == o.value && !r.field.isActive && !r.field.openTag
            && r.events == [Update(o.value), Hidden, Save(o.value, req.submitValue, Some(reply.data))])
  {
    var f1 := f.(container := WithLoading(f.container, false));
    assert f1.container == f.container.(loading := false);
    match reply
    case Failed(e) =>
    case Body(data) =>
      var o := Submission.Interpret(data, req.value, hooks.success);
      if o.Commit? {
        assert Deliver(f, req, reply, hooks) == Commit(f1, o.value, req.submitValue, Some(data), hooks);
      }
  }

  /** The legacy success callback returning `false`: only the spinner goes off; the value,
      the open state and the form are untouched and nothing is reported. */
  lemma {:induction false} LegacyFalseKeepsOpen(f: Field, req: Request, data: Value, hooks: Hooks, h: Submission.SuccessHook)
    requires Wf(f) && !f.isDestroyed
    requires Submission.StatusOf(data) != Str("error") && Submission.StatusOf(data) != Str("success")
    requires hooks.success == Some(h) && h(data, req.value) == Submission.Returned(Bool(false))
    ensures var r := Deliver(f, req, Submission.Body(data), hooks);
      && r.events == [] && r.field.value == f.value && r.field.isActive == f.isActive
      && r.field.form == f.form && !r.field.container.loading
  {
    DeliverOutcome(f, req, Submission.Body(data), hooks);
  }

  /** The legacy success callback returning a string: the string is shown in the form, and
      the value, the open state and the latch are kept, with no event. */
  lemma {:induction false} LegacyStringShowsError(f: Field, req: Request, data: Value, hooks: Hooks,
                                                  h: Submission.SuccessHook, s: string)
    requires Wf(f) && !f.isDestroyed && f.form.hasElement
    requires Submission.StatusOf(data) != Str("error") && Submission.StatusOf(data) != Str("success")
    requires hooks.success == Some(h) && h(data, req.value) == Submission.Returned(Str(s))
    ensures var r := Deliver(f, req, Submission.Body(data), hooks);
      && r.events == [] && r.field.value == f.value && r.field.isActive == f.isActive
      && r.field.form.isSubmitting == f.form.isSubmitting
      && r.field.form.error == Some(TextContent(Str(s)))
  {
    DeliverOutcome(f, req, Submission.Body(data), hooks);
  }

  /** The legacy success callback throwing: the error goes through the error callback and
      the classification into the form, and the value is kept, with no event. */
  lemma {:induction false} LegacyThrowShowsFailure(f: Field, req: Request, data: Value, hooks: Hooks,
                                                   h: Submission.SuccessHook, e: Submission.ErrorInfo)
    requires Wf(f) && !f.isDestroyed && f.form.hasElement
    requires Submission.StatusOf(data) != Str("error") && Submission.StatusOf(data) != Str("success")
    requires hooks.success == Some(h) && h(data, req.value) == Submission.Threw(e)
    ensures var r := Deliver(f, req, Submission.Body(data), hooks);
      && r.events == [] && r.field.value == f.value && r.field.isActive == f.isActive
      && r.field.form.error == Some(TextContent(Submission.FailureMessage(e, req.value, hooks.error)))
  {
    DeliverOutcome(f, req, Submission.Body(data), hooks);
  }

  /** The legacy success callback returning an object with an own `newValue`: that value is
      stored instead of the submitted one, the editor closes, and update, hidden and save
      report it with the original submitted string. */
  lemma {:induction false} LegacyNewValueCommits(f: Field, req: Request, data: Value, hooks: Hooks,
                                                 h: Submission.SuccessHook, props: seq<(string, Value)>, x: Value)
    requires Wf(f) && !f.isDestroyed
    requires Submission.StatusOf(data) != Str("error") && Submission.StatusOf(data) != Str("success")
    requires hooks.success == Some(h) && h(data, req.value) == Submission.Returned(Obj(props))
    requires Lookup(props, "newValue") == Some(x)
    ensures var r := Deliver(f, req, Submission.Body(data), hooks);
      && r.field.value == x && !r.field.isActive && !r.field.container.loading
      && r.events == [Update(x), Hidden, Save(x, req.submitValue, Some(data))]
  {
    Submission.NewValueSubstitutes(data, req.value, h, props, x);
    DeliverOutcome(f, req, Submission.Body(data), hooks);
  }

  /** `save` stores the new value before the request goes out, so after the server rejects
      it the field holds the rejected value, and submitting that value again reports
      `nochange` without a request. */
  lemma {:induction false} RejectedValueIsKept(f: Field, control: Control, data: Value, hooks: Hooks)
    requires Wf(f) && Proceeds(f, control, hooks) && Truthy(f.opts.url)
    requires !Submission.Unchanged(f.value, Input2Value(f.kind, control), f.opts.savenochange)
    requires !Truthy(f.opts.savenochange) && Submission.StatusOf(data) == Str("error")
    ensures var v := Input2Value(f.kind, control);
      var s := Submit(f, control, hooks);
      var g := Deliver(s.field, s.request.value, Submission.Body(data), hooks).field;
      && g.value == v && v != f.value
      && SaveValue(g, v, hooks).events == [NoChange, Hidden] && SaveValue(g, v, hooks).request.None?
  {
    RemoteSubmit(f, control, hooks);
    var s := Submit(f, control, hooks);
    assert !s.field.isDestroyed;
  }

  // ---- construction ----

  /** With no options: a text input whose value is the element's trimmed text, enabled,
      cancelling on blur, in popup mode, with "Empty" as placeholder. */
  lemma {:induction false} CreateWithDefaults(elementId: string, text: string)
    ensures var f := Create([], elementId, text).field;
      && f.kind == TextInput && f.value == Str(Trim(text)) && !f.disabled
      && f.opts.onblur == Str("cancel") && f.opts.mode == Str("popup")
      && f.opts.emptytext == Str("Empty") && f.opts.toggle == Str("click")
      && Create([], elementId, text).events == []
  {
    DefaultReads();
    DefaultOptionsOf(elementId);
  }

  lemma DefaultOptionsOf(elementId: string)
    ensures var o := OptionsOf([], elementId);
      && o.onblur == Str("cancel") && o.mode == Str("popup")
      && o.emptytext == Str("Empty") && o.toggle == Str("click")
  {
    DefaultReads();
  }

  /** The defaults the lemmas above rely on. */
  lemma DefaultReads()
    ensures Opt([], "type") == Str("text") && Opt([], "value") == Null && Opt([], "disabled") == Bool(false)
    ensures Opt([], "onblur") == Str("cancel") && Opt([], "mode") == Str("popup")
    ensures Opt([], "emptytext") == Str("Empty") && Opt([], "toggle") == Str("click")
  {
  }

  /** A `value` option other than `null` is kept as given, even when it is `undefined`. */
  lemma {:induction false} CreateKeepsGivenValue(x: Value, elementId: string, text: string)
    requires x != Null
    ensures Create([("value", x)], elementId, text).field.value == x
  {
    assert LastValue([("value", x)], "value") == Some(x);
  }

  /** Without a `name` option the element's id names the field. */
  lemma {:induction false} CreateNameFromId(elementId: string, text: string)
    requires elementId != ""
    ensures Create([], elementId, text).field.opts.name == Str(elementId)
  {
    NameFromId(elementId);
  }

  lemma NameFromId(elementId: string)
    requires elementId != ""
    ensures OptionsOf([], elementId).name == Str(elementId)
  {
    assert Opt([], "name") == Null;
  }
}
