/** Rules and results shared by the rule engine and the bytecode program. */
module Rules {
  import Text

  datatype ExecutionMode = FirstMatch | AllMatches | HighestPriority | DenyOverrides | AllowOverrides | ScoreBased

  /** `value` is the number and `words` the strings the bytecode compiler reads from the action's payload. */
  datatype Action = Action(kind: string, value: int, words: seq<string>)

  /** Conditions are named by number and evaluated outside the rule. */
  datatype Rule = Rule(
    id: string, priority: int, salience: int, condition: nat, actions: seq<Action>, score: real, decision: string,
    disabled: bool, stopOnMatch: bool, nextStage: string, validFrom: int, validUntil: int, namespace: string)

  /** `strings.EqualFold` against an ASCII word. */
  predicate EqualFold(s: string, word: string) {
    Text.Lower(s) == word
  }

  predicate ActiveAt(validFrom: int, validUntil: int, now: int) {
    !(validFrom > 0 && now < validFrom) && !(validUntil > 0 && now > validUntil)
  }

  /** `ruleSetMode`. */
  function RuleSetMode(mode: ExecutionMode): ExecutionMode {
    if mode == FirstMatch then AllMatches else mode
  }
}
