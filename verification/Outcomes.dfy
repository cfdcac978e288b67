/** What evaluating a condition comes to, for rules, policies and candidates alike. */
module Outcomes {
  datatype Outcome = Holds | Fails | Error
}
