/** The message box: a controlled text field whose submit hands the raw
    text to the chat page and whose every change reports a keystroke. */
module MessageInput {
  import opened JsString

  /** The callbacks the box invokes on its parent. */
  datatype Call = OnSendMessage(text: string) | OnTyping

  datatype Box = Box(field: string)

  datatype Step = Step(box: Box, calls: seq<Call>)

  const EmptyBox := Box("")

  /** Submitting hands over the untrimmed text and clears the field, unless
      the text is whitespace only, in which case nothing happens at all. */
  function Submit(b: Box): (r: Step)
    ensures AllWhitespace(b.field) ==> r == Step(b, [])
    ensures !AllWhitespace(b.field) ==> r == Step(EmptyBox, [OnSendMessage(b.field)])
  {
    if !IsBlank(b.field) then Step(EmptyBox, [OnSendMessage(b.field)])
    else Step(b, [])
  }

  /** Every change stores the new value and reports exactly one keystroke. */
  function Change(b: Box, value: string): (r: Step)
    ensures r.box.field == value
    ensures r.calls == [OnTyping]
  {
    Step(Box(value), [OnTyping])
  }

  /** The send button is disabled while the trimmed field is empty. */
  predicate SubmitDisabled(b: Box) {
    IsBlank(b.field)
  }

  /** The button is enabled exactly when submitting would send something. */
  lemma {:induction false} DisabledIffSubmitIsNoop(b: Box)
    ensures SubmitDisabled(b) <==> Submit(b).calls == []
    ensures SubmitDisabled(b) <==> AllWhitespace(b.field)
  {
  }

  /** A submit that sends leaves a disabled button behind; one that does not
      send leaves the box unchanged. */
  lemma {:induction false} SubmitSettles(b: Box)
    ensures SubmitDisabled(Submit(b).box)
    ensures Submit(Submit(b).box).calls == []
  {
    assert Trim("") == "";
  }

  /** Whatever was in the box, after typing `value` the button is enabled
      exactly when `value` has a non-whitespace character, and a submit
      then sends `value` itself, once. */
  lemma {:induction false} ChangeThenSubmit(b: Box, value: string)
    ensures Change(b, value).calls == [OnTyping]
    ensures SubmitDisabled(Change(b, value).box) <==> AllWhitespace(value)
    ensures Submit(Change(b, value).box).calls
         == (if AllWhitespace(value) then [] else [OnSendMessage(value)])
  {
    DisabledIffSubmitIsNoop(Change(b, value).box);
  }
}
