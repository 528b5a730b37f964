/** Agent status machine and trace types, `agents/state.py`. */
module AgentState {
  import opened Prelude

  datatype AgentStatus = CREATED | RUNNING | AWAITING_TOOL | COMPLETED | FAILED

  datatype TransitionError = IllegalTransition(current: AgentStatus, target: AgentStatus)

  function Targets(s: AgentStatus): set<AgentStatus> {
    match s
    case CREATED => {RUNNING}
    case RUNNING => {AWAITING_TOOL, COMPLETED, FAILED}
    case AWAITING_TOOL => {RUNNING, FAILED}
    case COMPLETED => {}
    case FAILED => {}
  }

  function Transition(current: AgentStatus, target: AgentStatus): Result<AgentStatus, TransitionError> {
    if target in Targets(current) then Ok(target) else Err(IllegalTransition(current, target))
  }

  /** A history of statuses in which every move was accepted. */
  predicate Legal(history: seq<AgentStatus>) {
    && history != [] && history[0] == CREATED
    && forall i :: 0 < i < |history| ==> Transition(history[i - 1], history[i]).Ok?
  }

  lemma LegalSnoc(history: seq<AgentStatus>, next: AgentStatus)
    requires Legal(history) && next in Targets(history[|history| - 1])
    ensures Legal(history + [next])
  {
  }

  predicate Terminal(s: AgentStatus) {
    s == COMPLETED || s == FAILED
  }

  /** The status at position i of a history that has not ended before it. */
  function Usual(i: nat): AgentStatus {
    if i == 0 then CREATED else if i % 2 == 1 then RUNNING else AWAITING_TOOL
  }

  /** A history may end at position i with status s. */
  predicate CanEnd(i: nat, s: AgentStatus) {
    s == Usual(i) || (i >= 2 && (s == FAILED || (s == COMPLETED && i % 2 == 0)))
  }

  /** The legal histories are exactly CREATED, then RUNNING and AWAITING_TOOL in turn, possibly ended by
      FAILED at any later point or by COMPLETED after RUNNING. */
  lemma {:induction false} LegalIff(history: seq<AgentStatus>)
    ensures Legal(history) <==>
      && history != []
      && (forall i :: 0 <= i < |history| - 1 ==> history[i] == Usual(i))
      && CanEnd(|history| - 1, history[|history| - 1])
  {
    var n := |history| - 1;
    if n > 0 {
      var before := history[..n];
      LegalIff(before);
      assert Legal(history) <==> Legal(before) && Transition(history[n - 1], history[n]).Ok? by { LegalLast(history); }
      assert forall i :: 0 <= i < n ==> before[i] == history[i];
      if forall i :: 0 <= i < n ==> history[i] == Usual(i) {
        assert history[n - 1] == Usual(n - 1);
      }
    }
  }

  lemma LegalLast(history: seq<AgentStatus>)
    requires |history| > 1
    ensures var n := |history| - 1;
      Legal(history) <==> Legal(history[..n]) && Transition(history[n - 1], history[n]).Ok?
  {
    var n := |history| - 1;
    var before := history[..n];
    assert forall i :: 0 <= i < n ==> before[i] == history[i];
    if Legal(before) && Transition(history[n - 1], history[n]).Ok? {
      forall i | 0 < i < |history| ensures Transition(history[i - 1], history[i]).Ok? {
        if i < n { assert Transition(before[i - 1], before[i]).Ok?; }
      }
    }
    if Legal(history) {
      forall i | 0 < i < n ensures Transition(before[i - 1], before[i]).Ok? {
        assert Transition(history[i - 1], history[i]).Ok?;
      }
    }
  }

  /** In a legal history a terminal status can only be the last, and CREATED only the first. */
  lemma TerminalIsLast(history: seq<AgentStatus>, i: nat)
    requires Legal(history) && i < |history|
    ensures Terminal(history[i]) ==> i == |history| - 1
    ensures history[i] == CREATED ==> i == 0
  {
    if i + 1 < |history| { assert Transition(history[i], history[i + 1]).Ok?; }
    if i > 0 { assert Transition(history[i - 1], history[i]).Ok?; }
  }

  datatype Message = User(content: string) | Tool(content: string, name: string) | Assistant(content: string)

  /** Tool arguments and results are opaque JSON texts. */
  datatype ToolCall = ToolCall(name: string, arguments: string)

  datatype ToolResult = Result(name: string, result: string) | Error(name: string, error: string)

  datatype AgentStep = AgentStep(iteration: nat, modelResponse: string, toolCalls: seq<ToolCall>, toolResults: seq<ToolResult>)

  datatype AgentResult = AgentResult(finalAnswer: string, steps: seq<AgentStep>, totalIterations: int, status: AgentStatus)
}
