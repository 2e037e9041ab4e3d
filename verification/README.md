# bootstrap-editable-js in Dafny

A model of the in-place editing widget in `index.js`: the `Editable` field
controller, its `EditableForm`, the document handlers of its container, the popover
placement, the per-type value conversions of the input classes, and
`Utils.getValueByPath`. The DOM is abstracted away. A field is an immutable record of
the flags the code keeps: active, destroyed, disabled, the `editable-open` and
`editable-empty` classes, container visibility and spinner, and the form's `isSubmitting`
latch and error slot. Each operation is a pure function from a field, or from a page of
fields for `show()`, to the new field and the `editable.*` events it dispatches.

`save` is split in two:

- `Controller.SaveValue` / `Controller.Submit` issue the request: they store the value,
  show the spinner, and return the URL and JSON payload.
- `Controller.Deliver` takes the reply, either a parsed body or a thrown error, and
  finishes the save.

User callbacks (`validate`, `display`, `pk`, `params`, `success`, `error`) are Dafny
functions supplied in a `Hooks` record. The `success` callback may return a value or
throw.

A form control is modelled by what it gives back. The string `value2input` assigns
passes through the value sanitization of the control's type: a select keeps only an
option's value, a number input only a valid number, a range input a whole number within
its bounds, the date inputs only valid dates, and the one-line inputs drop line breaks.

Files and modules:

| file | module | contents |
|---|---|---|
| `wrappers.dfy` | `Wrappers` | `Option` |
| `text.dfy` | `Text` | `trim`, one-character `split`, `join`, `includes`, number formatting, `padStart(2, '0')` |
| `dates.dfy` | `Dates` | calendar arithmetic, the three date formats, the date strings `new Date` accepts |
| `js_value.dfy` | `JsValue` | JavaScript values, truthiness, `String()`, property reads, `JSON.stringify` equality, object spread, `Number()` |
| `inputs.dfy` | `Inputs` | `createInput`, option sources, each input class's conversions |
| `control_values.dfy` | `ControlValues` | what each HTML control reads back after a string is assigned to it: the value sanitization of section 4.10.5.1 of the HTML Living Standard |
| `form.dfy` | `Form` | `EditableForm` state: render, error slot, submit latch |
| `container.dfy` | `Container` | outside-click, Escape and Enter handlers |
| `placement.dfy` | `Placement` | `PopoverContainer.setPosition` |
| `paths.dfy` | `Paths` | `getValueByPath` |
| `submission.dfy` | `Submission` | unchanged test, payload, reply interpretation, error messages |
| `controller.dfy` | `Controller` | the `Editable` class |
| `controller_laws.dfy` | `ControllerLaws` | lifecycle and save-flow properties |

## Model

| member | source | states |
|---|---|---|
| `Inputs.CreateInput` | index.js:95-112 | a type naming a registered class selects that class; any other type, including one that is not a string, selects the text input |
| `Inputs.DatetimeLocalIsText` | index.js:95-112 | `datetime-local` is not a key of the table and gets a text input, while `datetime` gets the date-time input |
| `Inputs.ConvertSource` | index.js:1641-1684 | a falsy source gives no options; an array gives one item per element, each normalised by `ConvertItem`; an object gives its entries as (key, value) in order; anything else gives none |
| `Inputs.ConvertItem` | index.js:1647-1670 | a non-object item is its own value and label; an object with both `value` and `text` keeps them; failing that, one with `id` and `text` takes `id` as the value; otherwise an object with two or more keys takes the values of its first two keys, and one with fewer is its own value and label |
| `Inputs.ConvertSourceIdempotent` | index.js:1641-1684 | normalising a source written back as `{value, text}` objects gives the same options again |
| `Inputs.PairItem` | index.js:1656-1663 | a two-element array item takes its first element as value and its second as label, through the keys "0" and "1" |
| `Inputs.FindItem` | index.js:1727-1729 | finds the first item whose value has the same `String()` as the given value, and returns none only when no item matches |
| `Inputs.SelectValue2Html` | index.js:1721-1735 | null, undefined or a missing source shows ""; otherwise the label of the first item whose value has the same string, or the raw value when none matches |
| `Inputs.Labels` | index.js:1927-1934 | the checklist's label list holds, in order, exactly the labels of the values that are neither null nor undefined: its length is their count, and the label of value `j` sits after those of the labelled values before it |
| `Inputs.LabelsOfLabelled` | index.js:1927-1934 | when no label is null or undefined, the list is the per-value labels in order |
| `Inputs.ChecklistValue2Html` | index.js:1921-1941 | a falsy value or a missing source shows ""; otherwise the labels of the selected values (an array's items, or the value alone) are joined with ", " |
| `Inputs.ChecklistHtmlOfLabelled` | index.js:1921-1941 | when every selected value has a label, the display is all the labels' texts, in the order of the values, joined with ", " |
| `Inputs.ChecklistHtmlOfSingle` | index.js:1921-1941 | for a single truthy value the checklist shows what the select would show, with a nullish label shown as "" |
| `Inputs.ListItemsClean` | index.js:1948-1951 | every item of a split list is non-empty and trimmed: trimming drops the blanks and leaves no edge spaces |
| `Inputs.ChecklistStr2Value` | index.js:1943-1956 | anything but a non-empty string reads as the empty list; a string without commas reads as the one-item list of its trimmed text, or as the empty list when blank |
| `Inputs.ChecklistValue2Str` | index.js:1958-1968 | a falsy value is sent as "" and a string as itself |
| `Inputs.ChecklistStr2ValueClean` | index.js:1943-1956 | `str2value` always yields a list of non-empty, trimmed, comma-free strings |
| `Inputs.ChecklistListRoundTrip` | index.js:1943-1968 | a list of non-empty, trimmed, comma-free strings survives `value2str` followed by `str2value` |
| `Inputs.ChecklistStr2ValueIdempotent` | index.js:1943-1968 | reading a string, writing it and reading it again gives the same list |
| `Inputs.ChecklistWireRoundTrip` | index.js:819-829 | a clean checklist value sent through `value2submit` and read back with `str2value` is the same list |
| `Inputs.Value2Input` | index.js:1891-1905 | a checklist control has one box per option, labelled with the option's value string, checked exactly when some selected value has that string; without a source there are no boxes |
| `Inputs.Value2InputSanitized` | index.js:831-835 | whatever string `value2input` assigns, the control holds only what its type allows: no line breaks in a text, tel, password, email or url input, no edge whitespace in email and url, no carriage return in a textarea, an option's value or "" in a select, a valid number or "" in a number input, a whole number from 0 to 100 in a range, a valid date or date-time or "" in the date inputs |
| `Inputs.SelectControlValue` | index.js:1709-1719 | a select set to a string reads it back exactly when a non-empty string is some option's value, and reads "" otherwise |
| `Inputs.CheckedValues` | index.js:1907-1919 | the control gives back as many values as there are checked boxes, each the value string of a checked box |
| `Inputs.CheckedValuesAt` | index.js:1907-1919 | each checked box's value string is read back at the position counting the checked boxes before it, so the values are exactly the checked boxes' values in box order |
| `Inputs.CheckedValuesOfAll` | index.js:1907-1919 | with every box checked, the values are all the box values in order |
| `Inputs.ChecklistControlSound` | index.js:1891-1919 | every value the checklist control gives back is the string of a value that was put into it |
| `Inputs.ChecklistControlAll` | index.js:1891-1919 | putting in every option's value checks every box, and reading the control back gives the same list |
| `Inputs.Value2Html` | index.js:811-813 | plain inputs show a string value as it is; every input except the password input shows null and undefined as "" |
| `Inputs.PasswordHidesValue` | index.js:2228-2230 | the password display is the same mask whatever the value |
| `Inputs.Html2Value` | index.js:815-817 | `html2value` gives trimmed text, empty exactly when the display is blank |
| `Inputs.Html2ValueOfDisplay` | index.js:811-817 | a trimmed string shown by a plain input reads back unchanged from its display |
| `Inputs.Value2Str` | index.js:819-821 | a string is sent as itself, null and undefined as "", and a non-zero number as its decimal digits |
| `Inputs.ValueString` | index.js:831-833 | the string a plain input assigns and sends: a string as itself, null and undefined as "" |
| `Inputs.Str2Value` | index.js:823-825 | every input without its own `str2value` reads a value back unchanged |
| `Inputs.TextWireRoundTrip` | index.js:819-829 | a string sent by a plain input reads back as the same string |
| `Inputs.TextControlRoundTrip` | index.js:831-839 | a string without line breaks put into a text, tel or password input comes back out unchanged, and so does one for an email or url input when it has no whitespace at either end |
| `Inputs.TextControlDropsNewlines` | index.js:1395-1402 | a text, tel or password input gives back what it was given with every line break removed |
| `Inputs.TextareaControlRoundTrip` | index.js:1531-1537 | a textarea gives back what it was given with CR LF and lone CR turned into LF |
| `Inputs.TextareaKeepsText` | index.js:1531-1537 | text without carriage returns comes back out of a textarea unchanged |
| `Inputs.SelectControlRoundTrip` | index.js:1709-1719 | a select given a value that some option has gives back its string; given one no option has it gives back "" |
| `Inputs.NumberControlRoundTrip` | index.js:2374-2380 | an integer put into a number input comes back as its decimal text |
| `Inputs.NumberControlReadsBack` | index.js:2374-2405 | reading back what a number input holds through `str2value` gives the integer put into it |
| `Inputs.NumberControlRejects` | index.js:2374-2405 | a number input given text that is not a valid number gives back "", which `str2value` reads as null |
| `Inputs.RangeControlRoundTrip` | index.js:2477-2483 | a range input with the default bounds keeps an integer from 0 to 100, and turns one below 0 into "0" and one above 100 into "100" |
| `Inputs.NumberStr2Value` | index.js:2400-2405 | null and "" give null; anything else gives the number `Number()` reads from it, and null when that is NaN |
| `Inputs.NumberWireRoundTrip` | index.js:2488-2493 | the decimal text of an integer reads back as that integer |
| `Inputs.NumberBlankIsZero` | index.js:2400-2405 | a blank but non-empty string is not caught by the "" test and reads as 0 |
| `Inputs.DateStr2Value` | index.js:2022-2032 | a falsy input or one that is not a valid date gives null; a truthy input that `new Date` reads gives that date |
| `Inputs.Input2Value` | index.js:2067-2069 | a checklist gives the list of its checked values; a date control gives null when empty and `new Date` of its text otherwise; every other control gives its text |
| `Inputs.DateDisplayRoundTrip` | index.js:1996-2032 | for a four-digit-year date, the `YYYY-MM-DD` display reads back through `str2value` as the time value of its getters' fields with the time fields zeroed |
| `Inputs.DateDisplayMidnight` | index.js:1996-2032 | the same round trip stated on time values: a date `t` with a four-digit year reads back as `t - t mod 86400000`, midnight of its own day |
| `Inputs.DateControlRoundTrip` | index.js:2034-2069 | a date put into the date control comes back as the time value of its getters' fields with the time fields zeroed |
| `Inputs.DateControlMidnight` | index.js:2034-2069 | a date `t` with a four-digit year put into the date control comes back as `t - t mod 86400000`, midnight of its own day |
| `Inputs.ShortYearControlIsEmpty` | index.js:2052-2058 | a date whose year is below 1000 is written with fewer than four digits, which no date or date-time input accepts, so the control reads back as null |
| `Inputs.DateTimeDisplayRoundTrip` | index.js:2107-2145 | the `YYYY-MM-DD HH:MM` display reads back through `str2value` as the time value of the getters' fields with seconds and milliseconds zeroed |
| `Inputs.DateTimeDisplayMinute` | index.js:2107-2145 | stated on time values: a date `t` with a four-digit year reads back as `t - t mod 60000`, the start of its own minute |
| `Inputs.DateTimeControlRoundTrip` | index.js:2147-2184 | a date put into the `datetime-local` control comes back as the time value of the getters' fields with seconds and milliseconds zeroed |
| `Inputs.DateTimeControlMinute` | index.js:2147-2184 | a date `t` with a four-digit year put into the `datetime-local` control comes back as `t - t mod 60000`, the start of its own minute |
| `Dates.CivilRoundTrip` | index.js:2121-2123 | the calendar date the getters report for a day number is a real date (month 1 to 12, day within the month's length, leap years included) that counts back to the same day number |
| `Dates.RecOfTimeOf` | index.js:2121-2125 | the fields `getFullYear`, `getMonth`, `getDate`, `getHours` and `getMinutes` report form a valid date and time, and rebuild exactly the time value they were read from |
| `Dates.RecOfInjective` | index.js:2121-2125 | two different time values never report the same fields |
| `Dates.MidnightOfDay` | index.js:2010-2015 | the fields of `t` with the time of day zeroed denote `t - t mod 86400000` |
| `Dates.StartOfMinute` | index.js:2121-2125 | the fields of `t` with seconds and milliseconds zeroed denote `t - t mod 60000` |
| `Dates.ParseFormatDate` | index.js:2010-2015 | the year, two-digit month and two-digit day written by the date display parse back to midnight of that day |
| `Dates.ParseFormatDateTimeLocal` | index.js:2166-2175 | the `T`-separated control format with two-digit hours and minutes parses back to the same minute |
| `ControlValues.StripNewlines` | index.js:1400-1401 | the text input's sanitization: no line break remains |
| `ControlValues.StripNewlinesKeepsOthers` | index.js:1400-1401 | the same sanitization removes nothing else: every character other than a line break keeps its count |
| `ControlValues.NormalizeKeepsText` | index.js:1536-1537 | normalising a textarea's line breaks changes only the breaks |
| `ControlValues.StripAsciiWhitespace` | index.js:2260-2261 | the email input's sanitization leaves no ASCII whitespace at either end |
| `ControlValues.ParseFloat` | index.js:2377-2378 | every valid floating-point number starts with "-", "." or a digit and ends with a digit |
| `ControlValues.ParseFloatOfInt` | index.js:2377-2378 | the decimal text of every integer is a valid floating-point number denoting that integer |
| `ControlValues.NumberControlValue` | index.js:2377-2378 | a number input keeps exactly the valid floating-point numbers and reads "" for anything else |
| `ControlValues.RangeControlValue` | index.js:2435-2436 | a range input always holds a whole number from 0 to 100, keeps one it is given, and holds "50" after invalid text |
| `ControlValues.DateControlValue` | index.js:1990-1991 | a date input keeps exactly the valid date strings and reads "" for anything else |
| `ControlValues.DateTimeControlValue` | index.js:2101-2102 | a `datetime-local` input holds "" or a valid date and time with "T" before the time, and keeps one it is given in that form |
| `ControlValues.FormatDateIsValid` | index.js:2052-2058 | the date string of a four-digit year is a valid date string |
| `ControlValues.FormatDateTimeLocalIsValid` | index.js:2166-2175 | the `YYYY-MM-DDTHH:MM` string of a four-digit year is a valid local date and time in normalised form |
| `ControlValues.ShortYearIsInvalid` | index.js:2052-2058 | a year below 1000 makes both date strings invalid |
| `JsValue.AssignOverrides` | index.js:278-289 | in `{...data, ...params}` a key set by the params ends with its last value in the params |
| `JsValue.ParseNumberOfIntToString` | index.js:2400-2405 | `Number(String(n))` is `n` for every integer |
| `JsValue.UndefinedItemIsNull` | index.js:252-254 | the no-change test compares `JSON.stringify` texts, which write an undefined array item as `null`, so replacing one with null counts as no change |
| `JsValue.UndefinedMemberIsDropped` | index.js:252-254 | the same texts leave out an object member whose value is undefined, so adding or removing such a member counts as no change |
| `Form.Render` | index.js:536-539 | a rendered form is live, unlatched and has a hidden error slot |
| `Form.Error` | index.js:716-741 | a destroyed or unrendered form ignores the call; otherwise `false` hides the slot and any other message shows as its text content; the latch is untouched |
| `Form.ErrorThenClear` | index.js:716-741 | clearing after any message leaves the slot hidden, and clearing is idempotent |
| `Form.OnHide` | index.js:744-747 | `onHide` releases the latch and changes nothing else |
| `Form.OnHideReleases` | index.js:744-747 | a live rendered form can be submitted again after `onHide` |
| `Form.Destroy` | index.js:750-776 | a destroyed form has no element and no latch |
| `Form.BeginSubmit` | index.js:672-714 | a destroyed, latched or unrendered form ignores the submit; a truthy validation result is shown and the latch released without saving; otherwise the slot is cleared, the latch stays set and `save` runs |
| `Form.LatchBlocksResubmit` | index.js:672-714 | once a submit has reached `save`, every further submit is ignored whatever the validator says |
| `Form.ValidationFailureAllowsRetry` | index.js:688-697 | after a failed validation the form can be submitted again |
| `Form.DestroyedNeverSubmits` | index.js:672-676 | a destroyed form cannot be submitted, even after `onHide` |
| `Container.HandlerAction` | index.js:886-948 | a submit happens exactly for a visible container and either an outside click with `onblur` "submit" or an Enter outside a textarea, with no modifier, inside the form and not turned off; a cancel happens exactly for a visible container and either an outside click with `onblur` "cancel" or an Escape not turned off by `false` |
| `Container.HiddenIgnoresAll` | index.js:957-961 | a hidden or destroyed container ignores every event |
| `Container.ClicksInsideOrIgnored` | index.js:888-910 | clicks on the element or inside the container never act, and neither does an outside click under any other `onblur` such as "ignore" |
| `Container.EnterInTextarea` | index.js:927-948 | Enter in a textarea never submits, whatever the letter case of its tag |
| `Container.EscapeOnlyOffForFalse` | index.js:913-926 | only `enableEscape === false` turns Escape off; a falsy 0 does not |
| `Placement.EffectivePlacement` | index.js:1157 | an empty placement becomes "top" and any other placement is kept |
| `Placement.PlacementClass` | index.js:1168-1175 | the class is one of the four arrow classes, and it is the top class exactly when the placement is not bottom, left or right |
| `Placement.RawPosition` | index.js:1181-1235 | coordinates exist exactly for the four known placements; top and bottom centre the container on the element horizontally, left and right vertically; each side puts it flush against that side of the element |
| `Placement.Clamp` | index.js:1243-1255 | a start before the edge goes to 0, an overflowing end is pulled in to the viewport edge, and anything else is kept |
| `Placement.ScrollOffset` | index.js:1155-1156 | a zero page offset falls through to the document's scroll offset |
| `Placement.SetPosition` | index.js:1147-1272 | the class follows the effective placement, and final coordinates exist exactly when the placement is known |
| `Placement.ClampFits` | index.js:1243-1255 | a container no larger than the viewport is clamped wholly inside it |
| `Placement.ClampStable` | index.js:1243-1255 | a position already inside is kept, and clamping twice is the same as clamping once |
| `Placement.PlacedInsideViewport` | index.js:1243-1259 | a container that fits ends up between the scroll offset and the scroll offset plus the viewport |
| `Placement.EmptyIsTop` | index.js:1157 | an empty placement positions exactly like "top" |
| `Placement.TopAboveElement` | index.js:1181-1185 | with room to spare, the top placement puts the container straight above the element, centred |
| `Paths.Walk` | index.js:2555-2561 | no keys gives the value itself, and a null or undefined value before the keys run out gives null |
| `Paths.GetValueByPath` | index.js:2549-2553 | a falsy object or an empty path gives null |
| `Paths.WalkConcat` | index.js:2555-2561 | walking `a` then `b` is walking `a + b` |
| `Paths.PathComposition` | index.js:2549-2562 | `a.b` reads `b` out of what `a` reads, and a nullish intermediate value reads as null |
| `Paths.SingleKeyPath` | index.js:2549-2562 | a path without a dot reads that one property |
| `Submission.BaseData` | index.js:271-275 | the body holds `name` (or "" when falsy), the submit string as `value`, and `pk`, and no other key |
| `Submission.Payload` | index.js:278-289 | keys the params do not set keep the built-in values |
| `Submission.ParamsOverride` | index.js:278-289 | a key the params set takes the params' value, overriding name, value or pk |
| `Submission.PlainPayload` | index.js:284-288 | with the default empty params the body is exactly name, value and pk |
| `Submission.PayloadKeepsBase` | index.js:278-289 | whatever the params, the body still has `name`, `value` and `pk` keys |
| `Submission.HttpFailure` | index.js:304-309 | a non-2xx response becomes an error named "Error" carrying its status and the message `Server returned <status>: <statusText>` |
| `Submission.Classify` | index.js:393-405 | 404, 403 and 500 get fixed messages, a `TypeError` mentioning "Failed to fetch" gets the network message, and anything else gets "Error: " followed by the message or "Unknown error occurred" |
| `Submission.HttpFailureMessage` | index.js:304-405 | an HTTP failure with any other status shows "Error: Server returned N: text" |
| `Submission.NetworkFailure` | index.js:401-402 | a `fetch` network failure shows the network message |
| `Submission.FailureMessage` | index.js:407-414 | the message shown is always truthy: a truthy result of the error callback replaces the classified message, and without a callback or with a falsy result the classified message stays |
| `Submission.FalsyHookKeepsMessage` | index.js:407-414 | an error callback returning something falsy leaves the classified message in place |
| `Submission.Interpret` | index.js:316-385 | status "error" shows the reply's message, or "Unknown error occurred" when it has none; status "success", or any other status without a success callback, commits the submitted value; with a callback, `false` keeps the form open, a string is shown as the error, a throw is caught, an object with an own `newValue` property commits that property's value, and any other result commits the submitted value |
| `Submission.NewValueSubstitutes` | index.js:369-373 | a success callback returning any object with an own `newValue` property `x`, whatever its other keys, commits `x` instead of the submitted value |
| `Submission.NewValueAmongOtherKeys` | index.js:369-373 | `{ok: true, newValue: x}` from the success callback commits `x` |
| `Submission.UnknownStatusCommits` | index.js:316-385 | a reply whose status is neither "error" nor "success", or a null reply, commits like a success when there is no callback |
| `Controller.HandleEmpty` | index.js:214-226 | a blank enabled field shows `emptytext` with the empty class; a blank disabled one is emptied; a non-blank one loses the empty class; nothing else changes |
| `Controller.SetValue` | index.js:228-246 | the stored value is the given one, or its `str2value` when converting, and exactly one `update` with that value is reported |
| `Controller.Redraw` | index.js:232-245 | only the value, the display and the empty class change; container and form are untouched |
| `Controller.ContainerShow` | index.js:1085-1090 | a live container becomes visible and keeps its spinner state; a destroyed one is unchanged |
| `Controller.Hide` | index.js:165-183 | a destroyed field is unchanged and reports nothing; otherwise the field is inactive, untagged, its container hidden, its latch released, and `hidden` is reported; value, display, enabled state and spinner are kept |
| `Controller.CancelEdit` | index.js:1092-1102 | the container's own hide leaves the container hidden but keeps the active flag, the open class and the value, and reports `cancel` |
| `Controller.CancelButton` | index.js:593-599 | the cancel button hides the field and then reports `cancel`; a destroyed or unrendered form does nothing |
| `Controller.Enable` | index.js:193-197 | `enable()` clears the disabled flag and keeps the active state and value |
| `Controller.Disable` | index.js:199-204 | `disable()` sets the disabled flag, closes the editor and reports `hidden` |
| `Controller.ToggleDisabled` | index.js:206-212 | `toggleDisabled()` flips the disabled flag |
| `Controller.Destroy` | index.js:467-511 | the field, container and form are all destroyed and the field is inactive and untagged; value and display are kept |
| `Controller.HideOthers` | index.js:142-148 | every other field carrying the open class is hidden, and every field without it is untouched |
| `Controller.Show` | index.js:135-163 | a destroyed, disabled or already active field ignores `show()`; otherwise it becomes active and tagged, its form is rendered, its value kept, and `shown` is the last event |
| `Controller.HideAt` | index.js:165-183 | hiding one field of a page leaves every other field untouched |
| `Controller.Toggle` | index.js:185-191 | on a field with the open class, `toggle()` leaves it inactive and untagged, reports only `hidden` and touches no other field; on any other field it opens it when it is enabled and inactive, with `shown` last, and does nothing otherwise |
| `Controller.Activate` | index.js:114-133 | the trigger does nothing when it is "manual" or the field is destroyed or disabled; "mouseenter" calls `show()` and any other trigger `toggle()`; either way a closed, inactive field opens with `shown` last |
| `Controller.Commit` | index.js:341-352 | a committed save stores the value, closes the editor and reports `update`, `hidden` and `save`, in that order |
| `Controller.SaveValue` | index.js:248-437 | the new value is stored first in every case; an unchanged value reports `nochange` and `hidden` and sends nothing; a request is built only for a truthy URL, with no event, for the given value and its submit string |
| `Controller.Submit` | index.js:672-714 | a form that cannot submit leaves the field unchanged and sends nothing |
| `Controller.Deliver` | index.js:312-424 | a reply reaching a destroyed field changes nothing |
| `Controller.OnDocEvent` | index.js:886-948 | a document event reaching a hidden container changes nothing |
| `Controller.InitialSource` | index.js:1610-1639 | only select and checklist inputs have options, a string source leaves them unloaded, and any other source is converted at once |
| `Controller.SourceLoaded` | index.js:1610-1639 | a loaded source replaces the options with its conversion and changes nothing else |
| `Controller.OptionsOf` | index.js:20-50 | the name comes from `options.name` or the element id, and url and mode are the merged options |
| `Controller.Create` | index.js:11-93 | a new field is well formed, inactive and live; it has the merged options, the resolved initial value, the input the type selects and the disabled option; it reports `hidden` only when created disabled |
| `ControllerLaws.HidePreservesWf` | index.js:165-183 | `hide()` keeps the flag invariant |
| `ControllerLaws.CancelEditPreservesWf` | index.js:1092-1102 | the container's own hide keeps the flag invariant |
| `ControllerLaws.SetValuePreservesWf` | index.js:228-246 | `setValue` keeps the flag invariant |
| `ControllerLaws.EnableDisablePreserveWf` | index.js:193-204 | `enable` and `disable` keep the flag invariant |
| `ControllerLaws.DestroyPreservesWf` | index.js:467-511 | `destroy` keeps the flag invariant |
| `ControllerLaws.CommitPreservesWf` | index.js:376-385 | committing a value keeps the flag invariant |
| `ControllerLaws.SavePreservesWf` | index.js:248-437 | `save` keeps the flag invariant |
| `ControllerLaws.SubmitPreservesWf` | index.js:672-714 | a form submit keeps the flag invariant |
| `ControllerLaws.DeliverPreservesWf` | index.js:312-424 | delivering a reply keeps the flag invariant |
| `ControllerLaws.OnDocEventPreservesWf` | index.js:886-948 | the document handlers keep the flag invariant |
| `ControllerLaws.ShowPreservesWf` | index.js:135-163 | `show()` keeps every field of the page well formed |
| `ControllerLaws.PopupIsExclusive` | index.js:142-150 | after a popup-mode `show()`, the shown field is the only active and tagged field on the page, and its container is visible |
| `ControllerLaws.InlineKeepsOthers` | index.js:142-148 | a `show()` outside popup mode leaves every other field untouched |
| `ControllerLaws.ToggleAfterCancel` | index.js:185-191 | after Escape or an outside-click cancel the field stays active, so `show()` does nothing and a click only hides it, reporting `hidden` |
| `ControllerLaws.DisabledStaysClosed` | index.js:120-136 | a disabled field cannot be opened by `show()` or by its trigger |
| `ControllerLaws.DestroyedIsInert` | index.js:467-511 | after `destroy` nothing opens, closes, submits, reacts to the document or takes a reply |
| `ControllerLaws.HandleEmptyTwice` | index.js:214-226 | a blank enabled field shows the placeholder with the empty class, and a second `handleEmpty` keeps the text but drops the class |
| `ControllerLaws.SetValueDisplays` | index.js:228-246 | a non-blank display is shown without the empty class, and a blank one on an enabled field shows the placeholder with it |
| `ControllerLaws.UnchangedSubmit` | index.js:251-258 | a submitted value that serialises like the current one reports `nochange` then `hidden`, closes the editor and sends nothing |
| `ControllerLaws.ValidationFailure` | index.js:686-697 | a failed validation shows the validator's message, keeps the value, reports nothing and leaves the form submittable |
| `ControllerLaws.RemoteSubmit` | index.js:260-300 | with a URL a changed value is stored, the spinner shown, the form latched, and the request carries the payload built from name, submit string, pk and params |
| `ControllerLaws.LocalSubmit` | index.js:434-444 | without a URL a changed value is committed at once: `update`, `hidden`, then `save` without a response |
| `ControllerLaws.SubmitLatched` | index.js:672-714 | while a request is outstanding every further submit is ignored |
| `ControllerLaws.SuccessReply` | index.js:320-351 | a "success" reply commits the submitted value, closes the editor, hides the spinner and reports `update`, `hidden`, `save` |
| `ControllerLaws.ErrorReply` | index.js:317-325 | an "error" reply shows the reply's message, or "Unknown error occurred" when it has none, and reports nothing; the value, the open state and the latch are kept |
| `ControllerLaws.FailureShowsMessage` | index.js:389-424 | a failed request always puts its message in a live form and keeps the value |
| `ControllerLaws.DeliverOutcome` | index.js:312-424 | for every outcome of `Interpret` and for a failed request, the spinner goes off; a message outcome changes only the form's error slot, with no event; `false` from the success callback changes nothing else; a commit stores the outcome's value, closes the editor and reports update, hidden and save with the submitted string |
| `ControllerLaws.LegacyFalseKeepsOpen` | index.js:358-363 | `false` from the success callback keeps the value, the open state and the form, with no event |
| `ControllerLaws.LegacyStringShowsError` | index.js:358-368 | a string from the success callback goes into the form's error slot; the value, open state and latch are kept, with no event |
| `ControllerLaws.LegacyThrowShowsFailure` | index.js:358-418 | a throw from the success callback reaches the catch handler, whose classified or custom message goes into the form, with the value kept |
| `ControllerLaws.LegacyNewValueCommits` | index.js:369-385 | an object with an own `newValue` from the success callback stores that value, closes the editor and reports update, hidden and save with the original submitted string |
| `ControllerLaws.RejectedValueIsKept` | index.js:248-258 | `save` stores the value before the request, so after the server rejects it the field holds the rejected value, and submitting it again reports `nochange` without a request |
| `ControllerLaws.CreateWithDefaults` | index.js:20-55 | with no options the field is an enabled text input whose value is the trimmed element text, cancelling on blur, in popup mode, with "Empty" as placeholder and a click trigger |
| `ControllerLaws.CreateKeepsGivenValue` | index.js:53-55 | a `value` option other than null is kept as given, even when it is undefined |
| `ControllerLaws.CreateNameFromId` | index.js:48-50 | without a `name` option the element id names the field |

## Left out

- UTF-16 strings: a string is a sequence of Unicode scalar values, so a string's `length`,
  an index read such as `s.1` in a value path, and the spread of a string `params` result
  into the request body count code points, not UTF-16 code units. They differ from the
  code on characters outside the Basic Multilingual Plane, and lone surrogates cannot be
  represented.
- DOM construction, CSS classes, arrow styling, focus and the clear button. The element's
  `innerHTML` is modelled as the text assigned to it. Only the visibility, tag, spinner and
  error-slot state is kept.
- `fetch`, toastr, `console` and the `setTimeout` focus deferral. The network is the
  `Reply` given to `Controller.Deliver`. The toastr fallback for a missing form is not
  modelled: the model shows the message only when the form is live.
- `ajaxOptions`: the request options are spread after `method`, `headers` and `body`, so
  an `ajaxOptions.body` or `ajaxOptions.headers` replaces the JSON payload or its content
  type. The model's request always carries the payload built from the value and the
  params.
- Mutation through the `params` callback: the callback gets the request data object, and
  the payload is spread from it before the callback runs, so the callback cannot drop or
  change its keys. It could still change an object held in `name` or `pk`, which the
  payload shares; values in the model are immutable.
- `Inputs.RangeControlRoundTrip`, `ControlValues.RangeControlValue`: the `min`, `max` and
  `step` options of the range input are not modelled; the control has the default
  bounds 0 and 100 and step 1. The number input's `min`, `max` and `step` do not change
  its value, so nothing is lost there.
- `ControlValues.RangeControlValue`: the value is compared as an exact decimal, not as an
  IEEE double, so numbers with more digits than a double holds may round differently.
- `ControlValues.DateTimeControlValue`: a date and time with seconds or fractions is
  treated as invalid; `value2input` only ever writes one to the minute.
- `ControlValues.IsValidDateString`: years above 275760, which browsers reject, are
  accepted. `new Date` in the model reads only four-digit years, so a date control holding
  a year of five or more digits reads back as an invalid date.
- Function-valued sources, and the asynchronous loading of a URL source. A URL source
  leaves the options unset until `Controller.SourceLoaded` supplies the fetched JSON, or
  `[]` for a failed fetch.
- `Number()` on fractions, exponents, hex, `Infinity` and NaN-producing values other than
  unparseable strings: numbers are integers.
- `new Date(s)` only recognises `YYYY-MM-DD` and `YYYY-MM-DD` followed by `T` or a space
  and `HH:MM[:SS]`. The host time zone is UTC.
- `Object.keys` ordering of integer-like keys: objects keep their properties in the
  order given.
- Exceptions thrown by the `validate`, `params`, `pk` and `display` callbacks. The same
  goes for `submit`'s catch-all message "An unexpected error occurred during submission".
  Only the `success` callback may throw.
- The `autosubmit` handlers of the input classes and Ctrl+Enter in the textarea: each
  only calls the form's `submit`, which is modelled.
- Non-string `placement` options, and inherited property names such as "constructor" in
  the `type` table and the placement map.
- The inline container hiding and re-showing the element. The inline container is
  treated like the popover: shown and hidden, with the same handlers.
- `Controller.HandleEmpty`, `Controller.SetValue`, `Controller.Enable`,
  `Controller.Disable`, `Controller.ToggleDisabled`, `Controller.Destroy` and
  `Controller.Toggle`: the code throws when they run after `destroy` (the input,
  container or element reference is gone), so they require a live field instead of
  modelling the exception.
- `Controller.Deliver`: a reply reaching a destroyed field throws at `hideLoading` in the
  code; the model leaves the field untouched.
- `Controller.Create`: the element is assumed not to carry the `editable-empty` or
  `editable-open` class already.
- Three behaviours of the code that a user might not expect are modelled as written:
  Escape and outside clicks are not ignored while a request is outstanding; a reply whose
  status is neither "error" nor "success" goes to the legacy path and commits; and no
  rich-text value is sanitized anywhere.
- Placement coordinates are real numbers; CSS pixel rounding is not modelled.
