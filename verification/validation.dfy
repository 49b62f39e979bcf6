/** Checks on edge weights typed by the user: `isValidWeight` on a value and
    `parseWeightInput` on the text of an input field. */
module Validation {
  import opened Wrappers
  import opened Strings
  import opened Graph

  /** A JavaScript value as far as `typeof value === 'number'` can tell. */
  datatype Value = NumberValue(n: Number) | NotANumberType

  /** `isValidWeight`. */
  function IsValidWeight(v: Value): (r: bool)
    ensures r <==> v.NumberValue? && v.n.Finite? && v.n.value >= 0.0
  {
    match v
    case NotANumberType => false
    case NumberValue(n) =>
      if n.NaN? || n.Infinity? then false else n.value >= 0.0
  }

  /** `createEdge` accepts exactly the weights `isValidWeight` accepts. */
  lemma ValidWeightAgrees(w: Number, from: NodeId, to: NodeId, now: nat)
    ensures IsValidWeight(NumberValue(w)) <==> CreateEdge(from, to, now, w).Success?
  {
  }

  /** The four ways an input can be refused, in the order they are checked. */
  datatype WeightError = Empty | NotNumeric | NotFinite | Negative

  /** The message shown for each refusal. */
  function Message(e: WeightError): string {
    match e
    case Empty => "Weight cannot be empty"
    case NotNumeric => "Weight must be a valid number"
    case NotFinite => "Weight must be a finite number"
    case Negative => "Weight must be non-negative"
  }

  /** `{ valid, value?, error? }`. */
  datatype WeightInput = WeightInput(valid: bool, value: Option<real>, error: Option<string>)

  /** `parseWeightInput(input)`; `parsed` is what `parseFloat(input)` returns,
      and a later check only runs when the earlier ones pass. */
  function ParseWeightInput(input: string, parsed: Number): (r: WeightInput)
    ensures Trim(input) == [] ==> r == WeightInput(false, None, Some(Message(Empty)))
    ensures r.valid <==> Trim(input) != [] && IsValidWeight(NumberValue(parsed))
    ensures r.valid ==> r.value == Some(parsed.value) && r.error.None?
    ensures !r.valid ==> r.value.None? && r.error.Some?
  {
    if Trim(input) == [] then WeightInput(false, None, Some(Message(Empty)))
    else if parsed.NaN? then WeightInput(false, None, Some(Message(NotNumeric)))
    else if parsed.Infinity? then WeightInput(false, None, Some(Message(NotFinite)))
    else if parsed.value < 0.0 then WeightInput(false, None, Some(Message(Negative)))
    else WeightInput(true, Some(parsed.value), None)
  }

  /** The first failing check decides the message. */
  lemma ParseWeightInputOrder(input: string, parsed: Number)
    ensures var r := ParseWeightInput(input, parsed);
      && (Trim(input) != [] && parsed.NaN? ==> r.error == Some(Message(NotNumeric)))
      && (Trim(input) != [] && parsed.Infinity? ==> r.error == Some(Message(NotFinite)))
      && (Trim(input) != [] && parsed.Finite? && parsed.value < 0.0 ==> r.error == Some(Message(Negative)))
  {
  }

  /** A value accepted from the text is one `isValidWeight` accepts. */
  lemma AcceptedIsValid(input: string, parsed: Number)
    requires ParseWeightInput(input, parsed).valid
    ensures IsValidWeight(NumberValue(Finite(ParseWeightInput(input, parsed).value.value)))
  {
  }
}
