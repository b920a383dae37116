/**
 * QuickErrorHandlerMiddleware: wraps the request handler; when the handler
 * throws, it is meant to answer 500 with a JSON body whose `message` is the
 * exception text after the configured replacement rules have been applied.
 * As written, ReplaceError reads each rule both as an array and as an object,
 * so for a non-empty rule list the catch block itself usually throws and no
 * 500 body is built: `ProcessAsWritten` models that, `Process` the intended
 * middleware over the corrected `ReplaceError`.
 *
 * The PCRE test `preg_match("/{errorText}/", message)` is not modelled: it is
 * the parameter `matches`, applied to (error text, message). A malformed
 * pattern makes `preg_match` return false, which `matches` covers as well.
 */
module ErrorHandler {
  import opened Php
  import opened Wrappers

  /** One replacement rule: the error text (literal and pattern) and the replacement text. */
  datatype Rule = Rule(errorText: string, replacementText: string)

  predicate IsDigit(c: char)
  {
    '0' <= c <= '9'
  }

  /** A back-reference marker `$` followed by a digit starts at offset `i`. */
  predicate BackRefAt(template: string, i: nat)
  {
    i + 1 < |template| && template[i] == '$' && IsDigit(template[i + 1])
  }

  /** `preg_match('(\$(\d+))', template)`: the template holds a `$<digits>` marker. */
  predicate HasBackRef(template: string)
  {
    |template| >= 2 && ((template[0] == '$' && IsDigit(template[1])) || HasBackRef(template[1..]))
  }

  lemma {:induction false} HasBackRefIffMarker(template: string)
    ensures HasBackRef(template) <==> exists i: nat :: BackRefAt(template, i)
  {
    if |template| >= 2 {
      var tail := template[1..];
      HasBackRefIffMarker(tail);
      forall i: nat ensures BackRefAt(template, i + 1) <==> BackRefAt(tail, i) {
      }
      if HasBackRef(template) && !BackRefAt(template, 0) {
        var i: nat :| BackRefAt(tail, i);
        assert BackRefAt(template, i + 1);
      }
      if !HasBackRef(template) {
        forall i: nat ensures !BackRefAt(template, i) {
          if i > 0 {
            assert !BackRefAt(tail, i - 1);
          }
        }
      }
    }
  }

  /**
   * The rule decides the output: its error text is a substring of the message,
   * or its pattern matches and its replacement carries no back-reference.
   */
  predicate Fires(rule: Rule, message: string, matches: (string, string) -> bool)
  {
    Contains(message, rule.errorText)
    || (matches(rule.errorText, message) && !HasBackRef(rule.replacementText))
  }

  /**
   * ReplaceError: one pass over the rules in order; for each rule the
   * substring test, then the pattern test. A pattern match whose replacement
   * has a back-reference only rewrites the loop's own copy of the rule, so
   * the scan goes on with the next rule.
   */
  function ReplaceError(message: string, rules: seq<Rule>, matches: (string, string) -> bool): (r: string)
    ensures r == message || exists i :: 0 <= i < |rules| && r == rules[i].replacementText
  {
    if rules == [] then message
    else if Contains(message, rules[0].errorText) then rules[0].replacementText
    else if matches(rules[0].errorText, message) && !HasBackRef(rules[0].replacementText) then rules[0].replacementText
    else ReplaceError(message, rules[1..], matches)
  }

  /** One step of the scan: the head rule decides if it fires, otherwise the rest of the list does. */
  lemma ReplaceErrorStep(message: string, rules: seq<Rule>, matches: (string, string) -> bool)
    requires rules != []
    ensures ReplaceError(message, rules, matches) ==
      if Fires(rules[0], message, matches) then rules[0].replacementText else ReplaceError(message, rules[1..], matches)
  {
  }

  /** The first rule that fires decides: its replacement text comes back verbatim. */
  lemma {:induction false} FirstFiringRuleDecides(message: string, rules: seq<Rule>, matches: (string, string) -> bool, i: nat)
    requires i < |rules| && Fires(rules[i], message, matches)
    requires forall j :: 0 <= j < i ==> !Fires(rules[j], message, matches)
    ensures ReplaceError(message, rules, matches) == rules[i].replacementText
  {
    if i > 0 {
      assert !Fires(rules[0], message, matches);
      FirstFiringRuleDecides(message, rules[1..], matches, i - 1);
    }
  }

  /** When no rule fires (in particular with no rules at all) the message comes back unchanged. */
  lemma {:induction false} NoFiringRuleKeepsMessage(message: string, rules: seq<Rule>, matches: (string, string) -> bool)
    requires forall j :: 0 <= j < |rules| ==> !Fires(rules[j], message, matches)
    ensures ReplaceError(message, rules, matches) == message
  {
    if rules != [] {
      assert !Fires(rules[0], message, matches);
      NoFiringRuleKeepsMessage(message, rules[1..], matches);
    }
  }

  /** Deleting an element behind the head keeps the head and deletes it from the tail. */
  lemma DeleteBehindHead(rules: seq<Rule>, i: nat)
    requires 0 < i < |rules|
    ensures (rules[..i] + rules[i + 1..])[0] == rules[0]
    ensures (rules[..i] + rules[i + 1..])[1..] == rules[1..][..i - 1] + rules[1..][i..]
  {
    assert rules[..i] == [rules[0]] + rules[1..][..i - 1];
  }

  /** A rule that does not fire has no influence: removing it leaves the result unchanged. */
  lemma {:induction false} NonFiringRuleIsTransparent(message: string, rules: seq<Rule>, matches: (string, string) -> bool, i: nat)
    requires i < |rules| && !Fires(rules[i], message, matches)
    ensures ReplaceError(message, rules, matches) == ReplaceError(message, rules[..i] + rules[i + 1..], matches)
  {
    if i > 0 {
      var rest := rules[..i] + rules[i + 1..];
      DeleteBehindHead(rules, i);
      ReplaceErrorStep(message, rules, matches);
      ReplaceErrorStep(message, rest, matches);
      NonFiringRuleIsTransparent(message, rules[1..], matches, i - 1);
    } else {
      assert rules[..0] + rules[1..] == rules[1..];
    }
  }

  /**
   * A rule whose error text is not in the message and whose replacement has a
   * back-reference is skipped, whatever its pattern does: the substitution
   * loop only rewrites a local copy and nothing is returned.
   */
  lemma BackRefRuleIsSkipped(message: string, rules: seq<Rule>, matches: (string, string) -> bool, i: nat)
    requires i < |rules|
    requires !Contains(message, rules[i].errorText) && HasBackRef(rules[i].replacementText)
    ensures ReplaceError(message, rules, matches) == ReplaceError(message, rules[..i] + rules[i + 1..], matches)
  {
    NonFiringRuleIsTransparent(message, rules, matches, i);
  }

  /**
   * The tests are interleaved rule by rule: an earlier rule's qualifying
   * pattern match wins over a later rule's substring match.
   */
  lemma EarlierPatternBeatsLaterSubstring(message: string, rules: seq<Rule>, matches: (string, string) -> bool, i: nat, k: nat)
    requires i < k < |rules|
    requires forall j :: 0 <= j < i ==> !Fires(rules[j], message, matches)
    requires matches(rules[i].errorText, message) && !HasBackRef(rules[i].replacementText)
    requires Contains(message, rules[k].errorText)
    ensures ReplaceError(message, rules, matches) == rules[i].replacementText
  {
    FirstFiringRuleDecides(message, rules, matches, i);
  }

  /** Applying the rules again to an output that no rule fires on changes nothing. */
  lemma ReplaceErrorStable(message: string, rules: seq<Rule>, matches: (string, string) -> bool)
    requires forall j :: 0 <= j < |rules| ==> !Fires(rules[j], ReplaceError(message, rules, matches), matches)
    ensures ReplaceError(ReplaceError(message, rules, matches), rules, matches) == ReplaceError(message, rules, matches)
  {
    NoFiringRuleKeepsMessage(ReplaceError(message, rules, matches), rules, matches);
  }

  // ---------------------------------------------------------------------------
  // The rule list as the source actually reads it.

  /** How a configured rule is stored: an associative array, or a QuickErrorHandlerConfig object (the documented type). */
  datatype RuleShape = AssociativeArray | ConfigObject

  const ObjectAsArrayError := "Cannot use object of type QuickErrorHandlerConfig as array"
  const MethodOnArrayError := "Call to a member function getErrorText() on array"

  /**
   * ReplaceError as written: the substring test indexes the rule as an array
   * (`$replacement['error']`), the pattern test calls the object getter
   * (`$replacement->getErrorText()`). With objects the first access throws;
   * with arrays the first rule whose substring test fails throws.
   */
  function ReplaceErrorAsWritten(message: string, rules: seq<Rule>, shape: RuleShape, matches: (string, string) -> bool): (r: Result<string, string>)
    ensures r.Success? <==> rules == [] || (shape != ConfigObject && Contains(message, rules[0].errorText))
    ensures r.Success? ==> r.value == ReplaceError(message, rules, matches)
  {
    if rules == [] then Success(message)
    else if shape == ConfigObject then Failure(ObjectAsArrayError)
    else if Contains(message, rules[0].errorText) then Success(rules[0].replacementText)
    else Failure(MethodOnArrayError)
  }

  /** As written, any non-empty rule list throws unless the first rule's text is a literal substring of an array-shaped rule. */
  lemma AsWrittenThrows(message: string, rules: seq<Rule>, shape: RuleShape, matches: (string, string) -> bool)
    requires rules != []
    requires shape == ConfigObject || !Contains(message, rules[0].errorText)
    ensures ReplaceErrorAsWritten(message, rules, shape, matches).Failure?
  {
  }

  /** The documented configuration and a message the rule names: the corrected scan redacts, the code as written throws. */
  lemma ConnectionRefusedExample(matches: (string, string) -> bool)
    ensures ReplaceError("Connection refused by host db1", [Rule("Connection refused", "Service unavailable")], matches) == "Service unavailable"
    ensures ReplaceErrorAsWritten("Connection refused by host db1", [Rule("Connection refused", "Service unavailable")], ConfigObject, matches).Failure?
  {
    assert "Connection refused" <= "Connection refused by host db1";
  }

  // ---------------------------------------------------------------------------
  // process

  /** What the handler threw: getMessage, getFile, getLine, getCode and getTrace. */
  datatype Exception = Exception(message: string, file: string, line: int, code: int, trace: seq<string>)

  /** The wrapped handler either returns a response or throws. */
  datatype HandlerOutcome<R> = Returned(response: R) | Threw(exception: Exception)

  datatype JsonField = Text(text: string) | Number(number: int) | Frames(frames: seq<string>)

  /** The middleware's answer: the handler's response untouched, or a JSON error response. */
  datatype Response<R> = Passed(response: R) | JsonError(status: int, body: map<string, JsonField>)

  const InternalServerError := 500

  /**
   * process over the corrected ReplaceError: pass-through, or a 500 envelope
   * whose field set depends on showErrors.
   */
  function Process<R>(showErrors: bool, rules: seq<Rule>, matches: (string, string) -> bool, outcome: HandlerOutcome<R>): (r: Response<R>)
    ensures outcome.Returned? ==> r == Passed(outcome.response)
    ensures outcome.Threw? ==> r.JsonError? && r.status == InternalServerError
    ensures outcome.Threw? ==>
      && "message" in r.body
      && r.body["message"] == Text(ReplaceError(outcome.exception.message, rules, matches))
    ensures outcome.Threw? && !showErrors ==> r.body.Keys == {"message"}
    ensures outcome.Threw? && showErrors ==>
      var e := outcome.exception;
      && r.body.Keys == {"message", "exception", "file", "line", "code", "trace"}
      && r.body["exception"] == Text(e.message) && r.body["file"] == Text(e.file)
      && r.body["line"] == Number(e.line) && r.body["code"] == Number(e.code)
      && r.body["trace"] == Frames(e.trace)
  {
    match outcome
    case Returned(response) => Passed(response)
    case Threw(e) =>
      var message := Text(ReplaceError(e.message, rules, matches));
      if showErrors then
        JsonError(InternalServerError, map["message" := message, "exception" := Text(e.message),
                                           "file" := Text(e.file), "line" := Number(e.line),
                                           "code" := Number(e.code), "trace" := Frames(e.trace)])
      else
        JsonError(InternalServerError, map["message" := message])
  }

  /**
   * process as written: the Error that ReplaceErrorAsWritten raises inside the
   * catch block escapes the middleware (`Failure`); when it does not arise,
   * the answer is the one `Process` gives.
   */
  function ProcessAsWritten<R>(showErrors: bool, rules: seq<Rule>, shape: RuleShape, matches: (string, string) -> bool, outcome: HandlerOutcome<R>): (r: Result<Response<R>, string>)
    ensures outcome.Returned? ==> r == Success(Passed(outcome.response))
    ensures outcome.Threw? ==>
      (r.Failure? <==> ReplaceErrorAsWritten(outcome.exception.message, rules, shape, matches).Failure?)
    ensures r.Success? ==> r.value == Process(showErrors, rules, matches, outcome)
    ensures outcome.Threw? && rules != [] && shape == ConfigObject ==> r.Failure?
  {
    match outcome
    case Returned(response) => Success(Passed(response))
    case Threw(e) =>
      var replaced := ReplaceErrorAsWritten(e.message, rules, shape, matches);
      if replaced.Failure? then Failure(replaced.error)
      else Success(Process(showErrors, rules, matches, outcome))
  }
}
