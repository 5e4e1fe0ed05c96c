/** The verdict vocabulary of crates/common/src/lib.rs. */
module Verdicts {
  import opened Wrappers

  datatype Action = Allow | Warn | Redact | Block | Audit | RequireApproval {
    /** What an enforcement point does with the verdict: approval has no queue yet, so it fails closed. */
    function EnforcementAction(): Action {
      match this
      case RequireApproval => Block
      case _ => this
    }

    /** What a tunnel does with a message under this verdict. */
    predicate Stops() {
      EnforcementAction() == Block
    }
  }

  datatype Finding = Finding(matchName: string, snippet: string, replacement: Option<string>)
}
