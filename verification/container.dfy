/** The document-level handlers every container installs: outside mousedown, Escape on
    keyup and Enter on keydown, each reduced to the action it asks of the field. */
module Container {
  import opened Text
  import opened JsValue

  /** Abstract container state: shown, spinner shown, destroyed. */
  datatype ContainerState = ContainerState(visible: bool, loading: bool, destroyed: bool)

  const Initial: ContainerState := ContainerState(false, false, false)

  /** `isVisible()`. */
  predicate IsVisible(c: ContainerState) {
    !c.destroyed && c.visible
  }

  /** A document event as the handlers see it. `inContainer`: the target is inside this
      container. `onElement`: the target is the field's element or inside it. `inForm`:
      the container holds an edit form that contains the target. */
  datatype DocEvent =
    | MouseDown(inContainer: bool, onElement: bool)
    | KeyUp(key: string)
    | KeyDown(key: string, targetTag: string, shift: bool, ctrl: bool, alt: bool, inForm: bool)

  datatype Action = NoAction | SubmitForm | CancelEdit

  /** The options the handlers read, as given (compared with `===`). */
  datatype Rules = Rules(onblur: Value, enableEscape: Value, enableEnter: Value)

  /** A mousedown that lands outside both the container and the field's element. */
  predicate OutsideClick(ev: DocEvent) {
    ev.MouseDown? && !ev.inContainer && !ev.onElement
  }

  /** A keydown the Enter handler acts on. */
  predicate EnterSubmits(ev: DocEvent, r: Rules) {
    && ev.KeyDown? && r.enableEnter != Bool(false) && ev.key == "Enter"
    && ToLowerAscii(ev.targetTag) != "textarea" && !ev.shift && !ev.ctrl && !ev.alt && ev.inForm
  }

  /** The action the three handlers take for one event. */
  function HandlerAction(c: ContainerState, r: Rules, ev: DocEvent): (a: Action)
    ensures a == SubmitForm <==>
      IsVisible(c) && ((OutsideClick(ev) && r.onblur == Str("submit")) || EnterSubmits(ev, r))
    ensures a == CancelEdit <==>
      IsVisible(c) && ((OutsideClick(ev) && r.onblur == Str("cancel"))
        || (ev == KeyUp("Escape") && r.enableEscape != Bool(false)))
  {
    if c.destroyed then NoAction
    else match ev
      case MouseDown(inContainer, onElement) =>
        if IsVisible(c) && !inContainer && !onElement then
          (if r.onblur == Str("submit") then SubmitForm
           else if r.onblur == Str("cancel") then CancelEdit
           else NoAction)
        else NoAction
      case KeyUp(key) =>
        if key == "Escape" && IsVisible(c) && r.enableEscape != Bool(false) then CancelEdit else NoAction
      case KeyDown(key, tag, shift, ctrl, alt, inForm) =>
        if r.enableEnter != Bool(false) && key == "Enter" && IsVisible(c)
          && ToLowerAscii(tag) != "textarea" && !shift && !ctrl && !alt && inForm
        then SubmitForm
        else NoAction
  }

  // ---- properties ----

  /** A hidden or destroyed container ignores every event. */
  lemma HiddenIgnoresAll(c: ContainerState, r: Rules, ev: DocEvent)
    requires !IsVisible(c)
    ensures HandlerAction(c, r, ev) == NoAction
  {
  }

  /** With any `onblur` other than "submit" and "cancel" (such as "ignore") an outside click
      does nothing, and clicks on the element or inside the container never act. */
  lemma ClicksInsideOrIgnored(c: ContainerState, r: Rules, ev: DocEvent)
    requires ev.MouseDown?
    requires !OutsideClick(ev) || (r.onblur != Str("submit") && r.onblur != Str("cancel"))
    ensures HandlerAction(c, r, ev) == NoAction
  {
  }

  /** Enter inside a textarea never submits, whatever its tag's letter case. */
  lemma EnterInTextarea(c: ContainerState, r: Rules, tag: string, inForm: bool)
    requires ToLowerAscii(tag) == "textarea"
    ensures HandlerAction(c, r, KeyDown("Enter", tag, false, false, false, inForm)) == NoAction
  {
  }

  /** Only `enableEscape === false` turns Escape off: a falsy value such as 0 or "" does
      not. */
  lemma EscapeOnlyOffForFalse(c: ContainerState)
    requires IsVisible(c)
    ensures HandlerAction(c, Rules(Str("cancel"), Num(0), Bool(true)), KeyUp("Escape")) == CancelEdit
    ensures HandlerAction(c, Rules(Str("cancel"), Bool(false), Bool(true)), KeyUp("Escape")) == NoAction
  {
  }
}
