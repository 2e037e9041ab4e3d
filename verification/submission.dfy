/** The pieces of `save` that do not touch the field: the unchanged-value test, the request
    payload, reading the server's reply and turning a failure into the message the form
    shows. */
module Submission {
  import opened Wrappers
  import opened Text
  import opened JsValue

  /** A thrown error as the catch handler reads it: `error.status` (set only on HTTP
      failures), `error.name` and `error.message`. */
  datatype ErrorInfo = ErrorInfo(status: Option<int>, name: string, message: string)

  /** The outcome of calling a user callback: its return value, or what it threw. */
  datatype Call = Returned(v: Value) | Threw(e: ErrorInfo)

  /** How a request ends: the parsed JSON body of a 2xx response, or the error thrown by
      `fetch`, by a non-2xx status or by parsing the body. */
  datatype Reply = Body(data: Value) | Failed(e: ErrorInfo)

  /** The legacy `success(response, newValue)` callback. */
  type SuccessHook = (Value, Value) -> Call

  /** The `error(error, newValue)` callback. */
  type ErrorHook = (ErrorInfo, Value) -> Value

  /** `save` skips the request when `savenochange` is falsy and the new value serialises
      like the previous one. */
  predicate Unchanged(previous: Value, value: Value, savenochange: Value) {
    !Truthy(savenochange) && SameJson(previous, value)
  }

  /** The fixed part of the request data: `name` (or "" when falsy), the submit form of
      the value, and the primary key. */
  function BaseData(name: Value, submitValue: string, pk: Value): (r: seq<(string, Value)>)
    ensures Lookup(r, "value") == Some(Str(submitValue)) && Lookup(r, "pk") == Some(pk)
    ensures Lookup(r, "name") == Some(if Truthy(name) then name else Str(""))
    ensures forall k :: k != "name" && k != "value" && k != "pk" ==> Lookup(r, k).None?
  {
    var r := [("name", if Truthy(name) then name else Str("")), ("value", Str(submitValue)), ("pk", pk)];
    assert r[1..] == [("value", Str(submitValue)), ("pk", pk)];
    assert r[1..][1..] == [("pk", pk)];
    assert "pk" != "name" && "pk" != "value" && "value" != "name";
    assert Lookup(r[1..], "value") == Some(Str(submitValue));
    assert Lookup(r[1..][1..], "pk") == Some(pk);
    r
  }

  /** `{...data, ...params}`, where `params` is the static option or what the params
      callback returned for `data`. */
  function Payload(name: Value, submitValue: string, pk: Value, params: Value): (r: seq<(string, Value)>)
    ensures forall k :: Lookup(OwnEntries(params), k).None? ==>
      Lookup(r, k) == Lookup(BaseData(name, submitValue, pk), k)
  {
    Assign(BaseData(name, submitValue, pk), OwnEntries(params))
  }

  const NotFoundMessage: string := "The requested resource was not found (404)."
  const ForbiddenMessage: string := "Access denied (403). You do not have permission for this action."
  const ServerErrorMessage: string := "Server error (500). Please try again later."
  const NetworkMessage: string := "Network error. Please check your connection and try again."
  const UnknownError: string := "Unknown error occurred"

  /** The error a non-2xx response is turned into. */
  function HttpFailure(status: int, statusText: string): (e: ErrorInfo)
    ensures e.status == Some(status) && e.name == "Error" && e.message == ServerMessage(status, statusText)
  {
    ErrorInfo(Some(status), "Error", ServerMessage(status, statusText))
  }

  /** `Server returned <status>: <statusText>`. */
  function ServerMessage(status: int, statusText: string): string {
    "Server returned " + IntToString(status) + ": " + statusText
  }

  /** The user-facing message the catch handler builds from an error. */
  function Classify(e: ErrorInfo): (r: string)
    ensures r != ""
    ensures e.status == Some(404) ==> r == NotFoundMessage
    ensures e.status == Some(403) ==> r == ForbiddenMessage
    ensures e.status == Some(500) ==> r == ServerErrorMessage
    ensures e.status !in {Some(404), Some(403), Some(500)} && e.name == "TypeError" && Contains(e.message, "Failed to fetch") ==>
      r == NetworkMessage
    ensures e.status !in {Some(404), Some(403), Some(500)} && !(e.name == "TypeError" && Contains(e.message, "Failed to fetch")) ==>
      r == "Error: " + (if e.message != "" then e.message else UnknownError)
  {
    if e.status == Some(404) then NotFoundMessage
    else if e.status == Some(403) then ForbiddenMessage
    else if e.status == Some(500) then ServerErrorMessage
    else if e.name == "TypeError" && Contains(e.message, "Failed to fetch") then NetworkMessage
    else "Error: " + (if e.message != "" then e.message else UnknownError)
  }

  /** The message shown for a failed save: the classified message, replaced by whatever
      truthy value the error callback returns. */
  function FailureMessage(e: ErrorInfo, value: Value, hook: Option<ErrorHook>): (r: Value)
    ensures Truthy(r)
    ensures hook.None? ==> r == Str(Classify(e))
    ensures hook.Some? && Truthy(hook.value(e, value)) ==> r == hook.value(e, value)
    ensures hook.Some? && !Truthy(hook.value(e, value)) ==> r == Str(Classify(e))
  {
    var base := Str(Classify(e));
    match hook
    case None => base
    case Some(h) => var custom := h(e, value); if Truthy(custom) then custom else base
  }

  /** `responseData && responseData.status`, as a value. */
  function StatusOf(data: Value): Value {
    if Truthy(data) then Get(data, "status") else Undefined
  }

  /** What `save` does with a parsed reply. */
  datatype Outcome =
    | ShowError(msg: Value)   // form.error(msg), the form stays open
    | Commit(value: Value)    // setValue, hide, and the save event
    | KeepOpen                // the success callback returned false
    | Caught(e: ErrorInfo)    // the success callback threw

  /** Status "error" shows the server's message, status "success" commits the submitted
      value, anything else goes to the legacy success callback, which may keep the form
      open, report an error string, substitute `newValue`, or throw. */
  function Interpret(data: Value, value: Value, success: Option<SuccessHook>): (r: Outcome)
    ensures StatusOf(data) == Str("error") ==> r.ShowError? && Truthy(r.msg)
    ensures StatusOf(data) == Str("error") ==>
      r == ShowError(if Truthy(Get(data, "message")) then Get(data, "message") else Str(UnknownError))
    ensures StatusOf(data) == Str("success") ==> r == Commit(value)
    ensures StatusOf(data) != Str("error") && StatusOf(data) != Str("success") && success.None? ==>
      r == Commit(value)
    ensures StatusOf(data) != Str("error") && StatusOf(data) != Str("success") && success.Some? ==>
      var c := success.value(data, value);
      && (c == Returned(Bool(false)) ==> r == KeepOpen)
      && (c.Returned? && c.v.Str? ==> r == ShowError(c.v))
      && (c.Threw? ==> r == Caught(c.e))
      && (c.Returned? && c.v.Obj? && Lookup(c.v.props, "newValue").Some? ==>
            r == Commit(Lookup(c.v.props, "newValue").value))
      && (c.Returned? && c.v != Bool(false) && !c.v.Str? && !(c.v.Obj? && Lookup(c.v.props, "newValue").Some?) ==>
            r == Commit(value))
    ensures r.KeepOpen? ==> success.Some? && success.value(data, value) == Returned(Bool(false))
    ensures r.Caught? ==> success.Some? && success.value(data, value).Threw?
  {
    var status := StatusOf(data);
    if status == Str("error") then
      var m := Get(data, "message");
      ShowError(if Truthy(m) then m else Str(UnknownError))
    else if status == Str("success") then Commit(value)
    else match success
      case None => Commit(value)
      case Some(h) =>
        match h(data, value)
        case Threw(e) => Caught(e)
        case Returned(res) =>
          if res == Bool(false) then KeepOpen
          else if res.Str? then ShowError(res)
          else if res.Obj? && Lookup(res.props, "newValue").Some? then Commit(Lookup(res.props, "newValue").value)
          else Commit(value)
  }

  // ---- properties ----

  /** Parameters the caller supplies win over the built-in fields, last occurrence first. */
  lemma ParamsOverride(name: Value, submitValue: string, pk: Value, params: Value, k: string)
    requires Lookup(OwnEntries(params), k).Some?
    ensures Lookup(Payload(name, submitValue, pk, params), k) == LastValue(OwnEntries(params), k)
  {
    AssignOverrides(BaseData(name, submitValue, pk), OwnEntries(params), k);
  }

  /** Whatever the parameters, the request still carries a name, a value and a pk: the
      spread only adds keys or replaces their values. */
  lemma PayloadKeepsBase(name: Value, submitValue: string, pk: Value, params: Value, k: string)
    requires k == "name" || k == "value" || k == "pk"
    ensures Lookup(Payload(name, submitValue, pk, params), k).Some?
  {
    if Lookup(OwnEntries(params), k).Some? {
      ParamsOverride(name, submitValue, pk, params, k);
      LastValueSome(OwnEntries(params), k);
    }
  }

  /** With no extra parameters the request carries exactly name, value and pk. */
  lemma PlainPayload(name: Value, submitValue: string, pk: Value, params: Value)
    requires params.Obj? && |params.props| == 0
    ensures Payload(name, submitValue, pk, params) == BaseData(name, submitValue, pk)
  {
  }

  /** An HTTP failure with an ordinary status shows "Error: Server returned N: text". */
  lemma HttpFailureMessage(status: int, statusText: string)
    requires status != 404 && status != 403 && status != 500
    ensures Classify(HttpFailure(status, statusText)) == "Error: " + ServerMessage(status, statusText)
  {
    var e := HttpFailure(status, statusText);
    assert e.name != "TypeError" by { assert |e.name| != |"TypeError"|; }
    assert e.message != "" by { assert |e.message| >= |"Server returned "|; }
    PlainErrorMessage(e);
  }

  /** An error with its own message, not a 404, 403, 500 or network failure, is shown as
      "Error: " and that message. */
  lemma PlainErrorMessage(e: ErrorInfo)
    requires e.status !in {Some(404), Some(403), Some(500)}
    requires e.name != "TypeError" && e.message != ""
    ensures Classify(e) == "Error: " + e.message
  {
  }

  /** A network failure reported by `fetch` gets the network message. */
  lemma NetworkFailure(rest: string)
    ensures Classify(ErrorInfo(None, "TypeError", "Failed to fetch" + rest)) == NetworkMessage
  {
    assert OccursAt("Failed to fetch" + rest, "Failed to fetch", 0);
  }

  /** An error callback returning something falsy leaves the classified message alone. */
  lemma FalsyHookKeepsMessage(e: ErrorInfo, value: Value, h: ErrorHook)
    requires !Truthy(h(e, value))
    ensures FailureMessage(e, value, Some(h)) == Str(Classify(e))
  {
  }

  /** A success callback whose result is an object with its own `newValue` property,
      whatever else it carries, commits that property's value, not the submitted value. */
  lemma NewValueSubstitutes(data: Value, value: Value, h: SuccessHook, props: seq<(string, Value)>, x: Value)
    requires StatusOf(data) != Str("error") && StatusOf(data) != Str("success")
    requires h(data, value) == Returned(Obj(props)) && Lookup(props, "newValue") == Some(x)
    ensures Interpret(data, value, Some(h)) == Commit(x)
  {
  }

  /** For example `{ok: true, newValue: x}`: the extra key does not stop the substitution. */
  lemma NewValueAmongOtherKeys(data: Value, value: Value, x: Value)
    requires StatusOf(data) != Str("error") && StatusOf(data) != Str("success")
    ensures Interpret(data, value, Some((d: Value, v: Value) => Returned(Obj([("ok", Bool(true)), ("newValue", x)]))))
            == Commit(x)
  {
    NewValueSubstitutes(data, value, (d: Value, v: Value) => Returned(Obj([("ok", Bool(true)), ("newValue", x)])),
                        [("ok", Bool(true)), ("newValue", x)], x);
  }

  /** A status other than "error" and "success" (or a response without one) commits like a
      success when there is no success callback. */
  lemma UnknownStatusCommits(value: Value)
    ensures Interpret(Obj([("status", Str("pending"))]), value, None) == Commit(value)
    ensures Interpret(Null, value, None) == Commit(value)
  {
  }
}
