/** One call against two endpoints: which outcomes count as a match. */
module ComparisonClient {
  import opened Bytes
  import opened Comparison
  import opened ComparisonTheorems

  const DEFAULT_IGNORE_FIELDS: set<string> := {
    "context.slot", "context.apiVersion", "absoluteSlot", "blockHeight", "slotIndex", "transactionCount", "slot",
    "blockTime", "blockhash", "lastValidBlockHeight", "feeCalculator", "full", "incremental" }

  datatype CallError = CallError(code: int, message: string)

  /** What one endpoint answered: an exception counts as error code -1. */
  datatype Outcome = Raised(text: string) | Replied(result: Json, error: Option<CallError>)

  function ErrorOf(outcome: Outcome): Option<CallError> {
    match outcome
    case Raised(text) => Some(CallError(-1, text))
    case Replied(_, error) => error
  }

  function ResultOf(outcome: Outcome): Json {
    match outcome
    case Raised(_) => Null
    case Replied(result, _) => result
  }

  function ErrorJson(error: Option<CallError>): Option<Json> {
    match error
    case None => None
    case Some(e) => Some(Obj(map["code" := Int(e.code), "message" := Str(e.message)]))
  }

  datatype ComparisonResult = ComparisonResult(
    name: string, reference: Json, target: Json, referenceError: Option<CallError>, targetError: Option<CallError>,
    diffs: seq<FieldDiff>)
  {
    predicate Matches() {
      |diffs| == 0
    }

    function Kind(): DiffKind {
      if referenceError.Some? && targetError.Some? then
        if referenceError.value.code == targetError.value.code then BothError else ErrorMismatch
      else if referenceError.Some? then ReferenceError
      else if targetError.Some? then TargetError
      else if Matches() then Match
      else ValueMismatch
    }
  }

  /** When two answers are the same as far as the comparison goes. */
  ghost predicate SameAnswer(reference: Outcome, target: Outcome, ignore: set<string>) {
    match (ErrorOf(reference), ErrorOf(target))
    case (Some(r), Some(t)) => r.code == t.code
    case (None, None) => Agree(Prune(ResultOf(reference), "", ignore), Prune(ResultOf(target), "", ignore))
    case _ => false
  }

  /** `given or fallback` */
  function FirstGiven(given: set<string>, fallback: set<string>): set<string> {
    if given == {} then fallback else given
  }

  /** The call raised or was answered with an error. */
  predicate Fails(outcome: Outcome) {
    outcome.Raised? || outcome.error.Some?
  }

  /** The code of a failure; an exception has -1. */
  function FailureCode(outcome: Outcome): int
    requires Fails(outcome)
  {
    if outcome.Raised? then -1 else outcome.error.value.code
  }

  predicate OneError(diffs: seq<FieldDiff>) {
    && |diffs| == 1 && diffs[0].path == "error" && diffs[0].kind == ErrorMismatch
    && (diffs[0].reference.Some? || diffs[0].target.Some?)
  }

  class Client {
    const ignore: set<string>
    var results: seq<ComparisonResult>

    /** An empty set counts as none given. */
    constructor (ignore: set<string>)
      ensures this.ignore == (if ignore == {} then DEFAULT_IGNORE_FIELDS else ignore) && results == []
    {
      this.ignore := FirstGiven(ignore, DEFAULT_IGNORE_FIELDS);
      results := [];
    }

    function EffectiveIgnore(override: set<string>): set<string> {
      FirstGiven(override, ignore)
    }

    /** A result matches exactly when the answers are the same, and its kind says the same thing. */
    method Compare(name: string, reference: Outcome, target: Outcome,
        override: set<string>) returns (result: ComparisonResult)
      modifies this
      ensures results == old(results) + [result]
      ensures result.Matches() <==> SameAnswer(reference, target, EffectiveIgnore(override))
      ensures result.Matches() <==> result.Kind().Match? || result.Kind().BothError?
      ensures result.referenceError == ErrorOf(reference) && result.targetError == ErrorOf(target)
      ensures result.name == name
      ensures result.reference == (if reference.Raised? then Null else reference.result)
      ensures result.target == (if target.Raised? then Null else target.result)
      ensures Fails(reference) && Fails(target) ==>
                var r, t := FailureCode(reference), FailureCode(target);
                if r == t then result.Kind() == BothError && result.diffs == []
                else
                  && result.Kind() == ErrorMismatch
                  && result.diffs == [FieldDiff("error.code", ValueMismatch, Some(Int(r)), Some(Int(t)))]
      ensures Fails(reference) && !Fails(target) ==>
                result.Kind() == ReferenceError && OneError(result.diffs) && result.diffs[0].target == None
      ensures !Fails(reference) && Fails(target) ==>
                result.Kind() == TargetError && OneError(result.diffs) && result.diffs[0].reference == None
      ensures !Fails(reference) && !Fails(target) ==>
                && result.Kind() == (if result.diffs == [] then Match else ValueMismatch)
                && result.diffs ==
                   Diff(reference.result, target.result, "", if override == {} then ignore else override)
      ensures ErrorOf(reference).None? && ErrorOf(target).None? ==>
                result.diffs == Diff(ResultOf(reference), ResultOf(target), "", EffectiveIgnore(override))
    {
      var referenceError, targetError := ErrorOf(reference), ErrorOf(target);
      var diffs := [];
      if referenceError.Some? && targetError.Some? {
        if referenceError.value.code != targetError.value.code {
          diffs := [FieldDiff("error.code", ValueMismatch, Some(Int(referenceError.value.code)),
            Some(Int(targetError.value.code)))];
        }
      } else if referenceError.Some? || targetError.Some? {
        diffs := [FieldDiff("error", ErrorMismatch, ErrorJson(referenceError), ErrorJson(targetError))];
      } else {
        diffs := DeepCompare(ResultOf(reference), ResultOf(target), "", EffectiveIgnore(override));
        SilentExactly(ResultOf(reference), ResultOf(target), "", EffectiveIgnore(override));
      }
      result := ComparisonResult(name, ResultOf(reference), ResultOf(target), referenceError, targetError, diffs);
      results := results + [result];
    }
  }
}
