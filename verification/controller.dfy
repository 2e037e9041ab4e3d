/** One editable field (the `Editable` class): its lifecycle, showing and hiding, the
    enabled state, the empty placeholder, committing a value and the save flow, with the
    container and form it owns. A page of fields is a sequence of them in document order. */
module Controller {
  import opened Wrappers
  import opened Text
  import opened JsValue
  import opened Inputs
  import Form
  import Container
  import Submission

  /** The merged options the field reads after construction. */
  datatype Options = Options(
    name: Value, url: Value, pk: Value, params: Value, emptytext: Value, onblur: Value,
    enableEscape: Value, enableEnter: Value, mode: Value, toggle: Value, savenochange: Value)

  /** The callback options, each present when the option is a function. */
  datatype Hooks = Hooks(
    validate: Option<Value -> Value>,
    display: Option<Value -> Value>,
    pk: Option<() -> Value>,
    params: Option<Value -> Value>,
    success: Option<Submission.SuccessHook>,
    error: Option<Submission.ErrorHook>)

  /** A field. `disabled`, `value` and `name` live in the options object in the source;
      `display` is the element's text and `emptyClass` its `editable-empty` class;
      `openTag` is its `editable-open` class; `source` the input's `sourceData` (`None`
      while a URL source is loading). */
  datatype Field = Field(
    opts: Options, kind: Kind, source: Option<seq<SourceItem>>,
    disabled: bool, value: Value, display: string, emptyClass: bool,
    isActive: bool, isDestroyed: bool, openTag: bool,
    container: Container.ContainerState, form: Form.FormState)

  /** The `editable.*` events dispatched on the element. */
  datatype Event =
    | Shown
    | Hidden
    | Cancel
    | NoChange
    | Update(value: Value)
    | Save(newValue: Value, submitValue: string, response: Option<Value>)

  datatype Step = Step(field: Field, events: seq<Event>)

  /** A POST to `url` with `payload` as its JSON body, sent by `save` for `value`. */
  datatype Request = Request(url: Value, payload: seq<(string, Value)>, value: Value, submitValue: string)

  datatype Submitted = Submitted(field: Field, events: seq<Event>, request: Option<Request>)

  /** The relations between a field's flags that every operation keeps. */
  predicate Wf(f: Field) {
    && (f.isActive <==> f.openTag)
    && (f.container.visible ==> f.isActive)
    && (f.form.isSubmitting ==> f.form.hasElement)
    && (f.isDestroyed <==> f.container.destroyed)
    && (f.isDestroyed <==> f.form.isDestroyed)
    && (f.isDestroyed ==> !f.isActive && !f.container.visible && !f.form.hasElement)
  }

  /** `triggerEvent`: nothing is dispatched once the field is destroyed. */
  function Emit(f: Field, e: Event): seq<Event>
  {
    if f.isDestroyed then [] else [e]
  }

  // ---- empty state and value ----

  /** `handleEmpty`: a blank element shows `emptytext` with the empty class, or nothing
      while disabled; a non-blank one loses the empty class. */
  function HandleEmpty(f: Field): (r: Field)
    requires !f.isDestroyed
    ensures IsBlank(f.display) && !f.disabled ==> r.display == DomString(f.opts.emptytext) && r.emptyClass
    ensures IsBlank(f.display) && f.disabled ==> r.display == "" && r.emptyClass == f.emptyClass
    ensures !IsBlank(f.display) ==> r.display == f.display && !r.emptyClass
    ensures r.(display := f.display, emptyClass := f.emptyClass) == f
  {
    TrimEmptyIffBlank(f.display);
    if |Trim(f.display)| == 0 then
      if !f.disabled then f.(display := DomString(f.opts.emptytext), emptyClass := true)
      else f.(display := "")
    else f.(emptyClass := false)
  }

  /** What the element is given for a stored value: the display callback's result, or the
      input's `value2html`. */
  function DisplayOf(f: Field, v: Value, hooks: Hooks): Value {
    match hooks.display
    case Some(d) => d(v)
    case None => Value2Html(f.kind, f.source, v)
  }

  /** `setValue(value, convert)`: stores the value (through `str2value` when converting),
      then redraws. */
  function SetValue(f: Field, v: Value, convert: bool, hooks: Hooks): (r: Step)
    requires !f.isDestroyed
    ensures r.field.value == (if convert then Str2Value(f.kind, v) else v)
    ensures r.events == [Update(r.field.value)]
    ensures !convert ==> r == Redraw(f, v, hooks)
  {
    Redraw(f, if convert then Str2Value(f.kind, v) else v, hooks)
  }

  /** The rest of `setValue` once the value is stored: redraws the element unless the
      display value is `undefined`, refreshes the empty state and reports the update. */
  function Redraw(f: Field, stored: Value, hooks: Hooks): (r: Step)
    requires !f.isDestroyed
    ensures r.field.value == stored && r.events == [Update(stored)]
    ensures !r.field.isDestroyed && r.field.container == f.container && r.field.form == f.form
    ensures r.field.(value := f.value, display := f.display, emptyClass := f.emptyClass) == f
  {
    var dv := DisplayOf(f, stored, hooks);
    var f1 := f.(value := stored, display := if dv != Undefined then DomString(dv) else f.display);
    Step(HandleEmpty(f1), Emit(f1, Update(stored)))
  }

  // ---- showing and hiding one field ----

  /** `container.show()`. */
  function ContainerShow(c: Container.ContainerState): (r: Container.ContainerState)
    ensures c.destroyed ==> r == c
    ensures !c.destroyed ==> Container.IsVisible(r) && r.loading == c.loading
  {
    if c.destroyed then c else c.(visible := true)
  }

  /** `hide()`: clears the active state and the open class, hides the container, releases
      the form's submit latch and reports it. A destroyed field ignores it. */
  function Hide(f: Field): (r: Step)
    ensures f.isDestroyed ==> r == Step(f, [])
    ensures !f.isDestroyed ==> && !r.field.isActive && !r.field.openTag && !Container.IsVisible(r.field.container)
                               && !r.field.form.isSubmitting && r.events == [Hidden]
    ensures r.field.value == f.value && r.field.display == f.display && r.field.disabled == f.disabled
    ensures r.field.container.loading == f.container.loading
  {
    if f.isDestroyed then Step(f, [])
    else
      var c := if f.container.destroyed then f.container else f.container.(visible := false);
      Step(f.(isActive := false, openTag := false, container := c, form := Form.OnHide(f.form)), [Hidden])
  }

  /** The container's own hide, as the Escape and outside-click handlers use it: the
      container closes and the latch is released, but the field stays active and keeps
      its open class. Reports a cancel. */
  function CancelEdit(f: Field): (r: Step)
    ensures !Container.IsVisible(r.field.container)
    ensures r.field.isActive == f.isActive && r.field.openTag == f.openTag && r.field.value == f.value
    ensures r.events == Emit(f, Cancel)
  {
    var c := if f.container.destroyed then f.container else f.container.(visible := false);
    var form := if f.container.destroyed then f.form else Form.OnHide(f.form);
    Step(f.(container := c, form := form), Emit(f, Cancel))
  }

  /** The form's cancel button: a full `hide()` followed by a cancel event. The button
      exists only on a rendered, live form. */
  function CancelButton(f: Field): (r: Step)
    ensures f.form.isDestroyed || !f.form.hasElement ==> r == Step(f, [])
    ensures !f.form.isDestroyed && f.form.hasElement && !f.isDestroyed ==>
      !r.field.isActive && !r.field.openTag && r.events == [Hidden, Cancel]
  {
    if f.form.isDestroyed || !f.form.hasElement then Step(f, [])
    else
      var h := Hide(f);
      Step(h.field, h.events + Emit(h.field, Cancel))
  }

  /** `enable()`. */
  function Enable(f: Field): (r: Field)
    requires !f.isDestroyed
    ensures !r.disabled && r.isActive == f.isActive && r.value == f.value
  {
    HandleEmpty(f.(disabled := false))
  }

  /** `disable()`: also closes the editor. */
  function Disable(f: Field): (r: Step)
    requires !f.isDestroyed
    ensures r.field.disabled && !r.field.isActive && !r.field.openTag && r.field.value == f.value
    ensures r.events == [Hidden]
  {
    var h := Hide(f.(disabled := true));
    Step(HandleEmpty(h.field), h.events)
  }

  /** `toggleDisabled()`. */
  function ToggleDisabled(f: Field): (r: Step)
    requires !f.isDestroyed
    ensures r.field.disabled == !f.disabled
  {
    if f.disabled then Step(Enable(f), []) else Disable(f)
  }

  /** `destroy()`: the field, its container and its form are torn down. Nothing is
      reported. */
  function Destroy(f: Field): (r: Field)
    requires !f.isDestroyed
    ensures r.isDestroyed && !r.isActive && !r.openTag && r.container.destroyed && r.form.isDestroyed
    ensures r.value == f.value && r.display == f.display
  {
    f.(isDestroyed := true, isActive := false, openTag := false,
       container := Container.ContainerState(false, f.container.loading, true),
       form := Form.Destroy(Form.OnHide(f.form)))
  }

  // ---- a page of fields ----

  /** The fields of a page and the events each dispatched, tagged with its position. */
  datatype PageStep = PageStep(page: seq<Field>, events: seq<(nat, Event)>)

  function Tag(j: nat, evs: seq<Event>): (r: seq<(nat, Event)>)
    ensures |r| == |evs| && forall k :: 0 <= k < |r| ==> r[k] == (j, evs[k])
  {
    seq(|evs|, k requires 0 <= k < |evs| => (j, evs[k]))
  }

  /** The popup-mode sweep in `show()`: every other field carrying the open class, from
      position `j` on, is hidden. */
  function HideOthers(page: seq<Field>, i: nat, j: nat): (r: PageStep)
    requires j <= |page|
    ensures |r.page| == |page|
    ensures forall k :: 0 <= k < |page| && (k < j || k == i || !page[k].openTag) ==> r.page[k] == page[k]
    ensures forall k :: j <= k < |page| && k != i && page[k].openTag ==> r.page[k] == Hide(page[k]).field
    decreases |page| - j
  {
    if j == |page| then PageStep(page, [])
    else if j != i && page[j].openTag then
      var h := Hide(page[j]);
      var rest := HideOthers(page[j := h.field], i, j + 1);
      PageStep(rest.page, Tag(j, h.events) + rest.events)
    else HideOthers(page, i, j + 1)
  }

  /** `show()` on field `i`: ignored when destroyed, disabled or already active. Otherwise
      the field becomes active, in popup mode every other open field is hidden, and the
      field gets the open class, its container is shown and its form rendered. */
  function Show(page: seq<Field>, i: nat): (r: PageStep)
    requires i < |page|
    ensures |r.page| == |page|
    ensures page[i].isDestroyed || page[i].disabled || page[i].isActive ==> r == PageStep(page, [])
    ensures !(page[i].isDestroyed || page[i].disabled || page[i].isActive) ==>
      && r.page[i].isActive && r.page[i].openTag && r.page[i].form == Form.Render(page[i].form)
      && r.page[i].value == page[i].value && |r.events| >= 1 && r.events[|r.events| - 1] == (i, Shown)
  {
    var f := page[i];
    if f.isDestroyed || f.disabled || f.isActive then PageStep(page, [])
    else
      var active := page[i := f.(isActive := true)];
      var swept := if f.opts.mode == Str("popup") then HideOthers(active, i, 0) else PageStep(active, []);
      var g := swept.page[i];
      var shown := g.(openTag := true, container := ContainerShow(g.container), form := Form.Render(g.form));
      PageStep(swept.page[i := shown], swept.events + [(i, Shown)])
  }

  /** `hide()` on field `i` of a page. */
  function HideAt(page: seq<Field>, i: nat): (r: PageStep)
    requires i < |page|
    ensures |r.page| == |page| && r.page[i] == Hide(page[i]).field
    ensures forall k :: 0 <= k < |page| && k != i ==> r.page[k] == page[k]
  {
    var h := Hide(page[i]);
    PageStep(page[i := h.field], Tag(i, h.events))
  }

  /** `toggle()`: hides a field carrying the open class and shows any other. */
  function Toggle(page: seq<Field>, i: nat): (r: PageStep)
    requires i < |page| && !page[i].isDestroyed
    ensures |r.page| == |page|
    ensures page[i].openTag ==>
      && !r.page[i].isActive && !r.page[i].openTag && r.page[i].value == page[i].value
      && r.events == [(i, Hidden)]
      && forall k :: 0 <= k < |page| && k != i ==> r.page[k] == page[k]
    ensures !page[i].openTag && (page[i].disabled || page[i].isActive) ==> r == PageStep(page, [])
    ensures !page[i].openTag && !page[i].disabled && !page[i].isActive ==>
      && r.page[i].isActive && r.page[i].openTag && r.page[i].value == page[i].value
      && |r.events| >= 1 && r.events[|r.events| - 1] == (i, Shown)
  {
    if page[i].openTag then HideAt(page, i) else Show(page, i)
  }

  /** The element receiving its `toggle` event (a click by default): nothing when the
      trigger is "manual", the field is destroyed or disabled; `show()` for "mouseenter";
      `toggle()` otherwise. */
  function Activate(page: seq<Field>, i: nat): (r: PageStep)
    requires i < |page|
    ensures page[i].opts.toggle == Str("manual") || page[i].isDestroyed || page[i].disabled ==>
      r == PageStep(page, [])
    ensures !(page[i].opts.toggle == Str("manual") || page[i].isDestroyed || page[i].disabled) ==>
      r == if page[i].opts.toggle == Str("mouseenter") then Show(page, i) else Toggle(page, i)
    ensures (!(page[i].opts.toggle == Str("manual") || page[i].isDestroyed || page[i].disabled)
             && !page[i].isActive && !page[i].openTag) ==>
      r.page[i].isActive && r.page[i].openTag && |r.events| >= 1 && r.events[|r.events| - 1] == (i, Shown)
  {
    var f := page[i];
    if f.opts.toggle == Str("manual") || f.isDestroyed || f.disabled then PageStep(page, [])
    else if f.opts.toggle == Str("mouseenter") then Show(page, i)
    else Toggle(page, i)
  }

  // ---- saving ----

  /** The primary key sent: the pk callback's result, or the option. */
  function PkOf(f: Field, hooks: Hooks): Value {
    match hooks.pk
    case Some(p) => p()
    case None => f.opts.pk
  }

  /** The extra parameters: the params callback applied to the base data, or the option. */
  function ParamsOf(f: Field, hooks: Hooks, base: seq<(string, Value)>): Value {
    match hooks.params
    case Some(p) => p(Obj(base))
    case None => f.opts.params
  }

  /** The container's `showLoading`/`hideLoading`. */
  function WithLoading(c: Container.ContainerState, on: bool): Container.ContainerState
  {
    if c.destroyed then c else c.(loading := on)
  }

  /** Setting the value, closing the editor and reporting the save, as every successful
      save ends. */
  function Commit(f: Field, v: Value, submitValue: string, response: Option<Value>, hooks: Hooks): (r: Step)
    requires !f.isDestroyed
    ensures r.field.value == v && !r.field.isActive && !r.field.openTag
    ensures r.field.container.loading == f.container.loading
    ensures r.events == [Update(v), Hidden, Save(v, submitValue, response)]
  {
    var s := SetValue(f, v, false, hooks);
    assert s.events == [Update(v)] && s.field.container == f.container;
    CloseAndReport(s, v, submitValue, response)
  }

  /** The end of a successful save after `setValue`: `hide()`, then the save event. */
  function CloseAndReport(s: Step, v: Value, submitValue: string, response: Option<Value>): (r: Step)
    requires !s.field.isDestroyed
    ensures r.field.value == s.field.value && !r.field.isActive && !r.field.openTag
    ensures r.field.container.loading == s.field.container.loading
    ensures r.events == s.events + [Hidden, Save(v, submitValue, response)]
  {
    var h := Hide(s.field);
    assert h.events + [Save(v, submitValue, response)] == [Hidden, Save(v, submitValue, response)];
    Step(h.field, s.events + h.events + [Save(v, submitValue, response)])
  }

  /** `save(value)`. The new value is stored first, whatever happens next. An unchanged
      value reports `nochange` and closes the editor; with a URL the spinner is shown and a
      request built; without one the value is committed at once. */
  function SaveValue(f: Field, v: Value, hooks: Hooks): (r: Submitted)
    ensures r.field.value == v
    ensures f.isDestroyed ==> r == Submitted(f.(value := v), [], None)
    ensures !f.isDestroyed && Submission.Unchanged(f.value, v, f.opts.savenochange) ==>
      r.request.None? && r.events == [NoChange, Hidden] && !r.field.isActive
    ensures r.request.Some? ==> && r.events == [] && r.request.value.value == v && Truthy(r.request.value.url)
                                && r.request.value.submitValue == Value2Str(f.kind, v)
  {
    if f.isDestroyed then Submitted(f.(value := v), [], None)
    else
      var f1 := f.(value := v);
      if Submission.Unchanged(f.value, v, f.opts.savenochange) then
        var h := Hide(f1);
        Submitted(h.field, [NoChange] + h.events, None)
      else
        var sv := Value2Str(f.kind, v);
        if Truthy(f.opts.url) then
          var base := Submission.BaseData(f.opts.name, sv, PkOf(f, hooks));
          var payload := Submission.Payload(f.opts.name, sv, PkOf(f, hooks), ParamsOf(f, hooks, base));
          Submitted(f1.(container := WithLoading(f1.container, true)), [], Some(Request(f.opts.url, payload, v, sv)))
        else
          var c := Commit(f1, v, sv, None, hooks);
          Submitted(c.field, c.events, None)
  }

  /** `validate(value)`: the callback's verdict, or `null` without one. */
  function Validation(hooks: Hooks, v: Value): Value {
    match hooks.validate
    case Some(h) => h(v)
    case None => Null
  }

  /** The form's `submit()` with the value read from the control: guarded by the submit
      latch, then validation, then `save`. */
  function Submit(f: Field, control: Control, hooks: Hooks): (r: Submitted)
    ensures !Form.CanSubmit(f.form) ==> r == Submitted(f, [], None)
  {
    var v := Input2Value(f.kind, control);
    var b := Form.BeginSubmit(f.form, Validation(hooks, v));
    if !b.proceed then Submitted(f.(form := b.form), [], None)
    else SaveValue(f.(form := b.form), v, hooks)
  }

  /** The reply to a request arriving. The spinner is hidden; an error status, a string
      from the success callback or a failure puts a message in the form and leaves the
      editor open; `false` from the success callback leaves everything as it is; anything
      else commits. A destroyed field is left untouched. */
  function Deliver(f: Field, req: Request, reply: Submission.Reply, hooks: Hooks): (r: Step)
    ensures f.isDestroyed ==> r == Step(f, [])
  {
    if f.isDestroyed then Step(f, [])
    else
      var f1 := f.(container := WithLoading(f.container, false));
      match reply
      case Failed(e) =>
        Step(f1.(form := Form.Error(f1.form, Submission.FailureMessage(e, req.value, hooks.error))), [])
      case Body(data) =>
        match Submission.Interpret(data, req.value, hooks.success)
        case ShowError(m) => Step(f1.(form := Form.Error(f1.form, m)), [])
        case KeepOpen => Step(f1, [])
        case Caught(e) =>
          Step(f1.(form := Form.Error(f1.form, Submission.FailureMessage(e, req.value, hooks.error))), [])
        case Commit(v) => Commit(f1, v, req.submitValue, Some(data), hooks)
  }

  /** A document event reaching this field's container handlers. */
  function OnDocEvent(f: Field, ev: Container.DocEvent, control: Control, hooks: Hooks): (r: Submitted)
    ensures !Container.IsVisible(f.container) ==> r == Submitted(f, [], None)
  {
    var rules := Container.Rules(f.opts.onblur, f.opts.enableEscape, f.opts.enableEnter);
    match Container.HandlerAction(f.container, rules, ev)
    case NoAction => Submitted(f, [], None)
    case SubmitForm => Submit(f, control, hooks)
    case CancelEdit => var c := CancelEdit(f); Submitted(c.field, c.events, None)
  }

  // ---- construction ----

  /** The constructor's built-in option values; keys it does not list read as
      `undefined`. */
  function DefaultOption(key: string): Value {
    if key == "type" then Str("text")
    else if key == "pk" || key == "value" || key == "url" || key == "source" then Null
    else if key == "showbuttons" || key == "enableEscape" || key == "enableEnter" then Bool(true)
    else if key == "onblur" then Str("cancel")
    else if key == "mode" then Str("popup")
    else if key == "emptytext" then Str("Empty")
    else if key == "placeholder" then Str("")
    else if key == "disabled" || key == "autosubmit" then Bool(false)
    else if key == "toggle" then Str("click")
    else if key == "validate" || key == "success" || key == "error" || key == "name" || key == "display" then Null
    else if key == "ajaxOptions" || key == "params" then Obj([])
    else if key == "send" then Str("auto")
    else Undefined
  }

  /** The option named `key` in `{...defaults, ...options}`: the last `options` entry for
      the key if there is one, the default otherwise. */
  function Opt(user: seq<(string, Value)>, key: string): Value
  {
    match LastValue(user, key)
    case Some(v) => v
    case None => DefaultOption(key)
  }

  /** `options.name || element.id`. */
  function NameOf(user: seq<(string, Value)>, elementId: string): Value
  {
    var n := Opt(user, "name");
    if !Truthy(n) && elementId != "" then Str(elementId) else n
  }

  /** `options.value`, falling back to the element's trimmed text when it is `null`. */
  function InitialValue(user: seq<(string, Value)>, text: string): Value
  {
    var v := Opt(user, "value");
    if v == Null then Str(Trim(text)) else v
  }

  /** The input's `sourceData` after `init`: a URL leaves it unset until it loads, any other
      source is converted at once. Inputs without options never read it. */
  function InitialSource(k: Kind, source: Value): (r: Option<seq<SourceItem>>)
    ensures r.Some? <==> (k == SelectInput || k == ChecklistInput) && !source.Str?
    ensures r.Some? ==> r.value == ConvertSource(source)
  {
    if (k == SelectInput || k == ChecklistInput) && !source.Str? then Some(ConvertSource(source)) else None
  }

  /** A URL source arriving (`[]` stands for a failed fetch). */
  function SourceLoaded(f: Field, data: Value): (r: Field)
    ensures r.source == Some(ConvertSource(data)) && r.(source := f.source) == f
  {
    f.(source := Some(ConvertSource(data)))
  }

  /** The options record of a new field. */
  function OptionsOf(user: seq<(string, Value)>, elementId: string): (r: Options)
    ensures r.name == NameOf(user, elementId) && r.url == Opt(user, "url") && r.mode == Opt(user, "mode")
  {
    Options(
      NameOf(user, elementId), Opt(user, "url"), Opt(user, "pk"), Opt(user, "params"),
      Opt(user, "emptytext"), Opt(user, "onblur"), Opt(user, "enableEscape"),
      Opt(user, "enableEnter"), Opt(user, "mode"), Opt(user, "toggle"), Opt(user, "savenochange"))
  }

  /** `new Editable(element, options)`: merges the options, resolves name and value,
      picks the input, runs `handleEmpty` and disables the field when asked to. */
  function Create(user: seq<(string, Value)>, elementId: string, text: string): (r: Step)
    ensures Wf(r.field) && !r.field.isDestroyed && !r.field.isActive
    ensures r.field.value == InitialValue(user, text) && r.field.opts == OptionsOf(user, elementId)
    ensures r.field.kind == CreateInput(Opt(user, "type"))
    ensures r.field.disabled == Truthy(Opt(user, "disabled"))
    ensures r.events == (if Truthy(Opt(user, "disabled")) then [Hidden] else [])
  {
    var kind := CreateInput(Opt(user, "type"));
    var f0 := Field(OptionsOf(user, elementId), kind, InitialSource(kind, Opt(user, "source")),
      Truthy(Opt(user, "disabled")), InitialValue(user, text), text, false,
      false, false, false, Container.Initial, Form.Initial);
    var f1 := HandleEmpty(f0);
    if f1.disabled then Disable(f1) else Step(f1, [])
  }
}
