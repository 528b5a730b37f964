/** The model-tool loop of `agents/executor.py`. The model and the tools are arbitrary functions; JSON
    decoding and encoding are parameters. */
module Executor {
  import opened Prelude
  import opened Text
  import opened AgentState

  /** A reply of the model: its text, and the structured calls some adapters may attach. */
  datatype Reply = Reply(content: string, structuredCalls: seq<ToolCall>)

  /** What a tool run yields: a string, some other JSON value (given by its encoding), or an exception. */
  datatype Outcome = Text(value: string) | Json(encoded: string) | Raised(message: string)

  /** What the JSON decoder makes of a text: an error, an object, given by its fields and the texts of their
      values, or some other value. */
  datatype Decoded = Malformed | Object(fields: map<string, string>) | OtherValue

  /** Any object with a name and arguments is a call, whatever else it holds. */
  predicate IsCall(d: Decoded) {
    d.Object? && "name" in d.fields && "arguments" in d.fields
  }

  function CallIn(d: Decoded): ToolCall
    requires IsCall(d)
  {
    ToolCall(d.fields["name"], d.fields["arguments"])
  }

  /** The surroundings of one run. `model` sees the iteration and all messages so far; `tool` sees the
      iteration, the position of the call and the call; `encodeError` is json.dumps of an error object. */
  datatype World = World(
    model: (nat, seq<Message>) -> Reply,
    tool: (nat, nat, ToolCall) -> Outcome,
    decode: string -> Decoded,
    encodeError: string -> string)

  // ---------------------------------------------------------------- the text protocol

  const PREFIX := "TOOL_CALL:"

  /** The characters at which `splitlines` breaks. */
  predicate IsLineBreak(c: char) {
    var n := c as int;
    0x0A <= n <= 0x0D || 0x1C <= n <= 0x1E || n == 0x85 || n == 0x2028 || n == 0x2029
  }

  function LineLength(s: string): (n: nat)
    ensures n <= |s| && (forall i :: 0 <= i < n ==> !IsLineBreak(s[i])) && (n < |s| ==> IsLineBreak(s[n]))
  {
    if s == [] || IsLineBreak(s[0]) then 0 else 1 + LineLength(s[1..])
  }

  /** `s.splitlines()`; a carriage return and line feed together are one break. */
  function SplitLines(s: string): seq<string>
    decreases |s|
  {
    if s == [] then []
    else
      var n := LineLength(s);
      var next := if n + 1 < |s| && s[n] == '\r' && s[n + 1] == '\n' then n + 2 else MinInt(n + 1, |s|);
      [s[..n]] + SplitLines(s[next..])
  }

  /** The call on one line, if it is a directive that decodes. */
  function CallOnLine(line: string, decode: string -> Decoded): seq<ToolCall> {
    var stripped := Strip(line);
    if !(PREFIX <= stripped) then []
    else
      var decoded := decode(Strip(stripped[|PREFIX|..]));
      if IsCall(decoded) then [CallIn(decoded)] else []
  }

  function CallsOnLines(lines: seq<string>, decode: string -> Decoded): seq<ToolCall> {
    if lines == [] then [] else CallsOnLines(lines[..|lines| - 1], decode) + CallOnLine(lines[|lines| - 1], decode)
  }

  method ParseToolCalls(content: string, decode: string -> Decoded) returns (calls: seq<ToolCall>)
    ensures calls == CallsOnLines(SplitLines(content), decode)
  {
    calls := [];
    var lines := SplitLines(content);
    assert lines[..|lines|] == lines;
    for i := 0 to |lines|
      invariant calls == CallsOnLines(lines[..i], decode)
    {
      assert lines[..i + 1][..i] == lines[..i];
      var stripped := Strip(lines[i]);
      if !(PREFIX <= stripped) { continue; }
      var decoded := decode(Strip(stripped[|PREFIX|..]));
      if IsCall(decoded) { calls := calls + [CallIn(decoded)]; }
    }
  }

  /** One line of a reply with its line break: prose, or a tool call in the documented format. */
  datatype Line = Prose(text: string, end: string) | Directive(call: ToolCall, end: string)

  predicate OneLine(s: string) {
    forall i :: 0 <= i < |s| ==> !IsLineBreak(s[i])
  }

  predicate Trimmed(s: string) {
    s != [] && !IsSpace(s[0]) && !IsSpace(s[|s| - 1])
  }

  /** `d` is an object whose "name" and "arguments" are those of the call; it may hold more. */
  predicate Encodes(d: Decoded, c: ToolCall) {
    && d.Object? && "name" in d.fields && "arguments" in d.fields
    && d.fields["name"] == c.name && d.fields["arguments"] == c.arguments
  }

  /** `encode` writes calls on one line without surrounding space, as objects that `decode` reads. */
  ghost predicate Codec(encode: ToolCall -> string, decode: string -> Decoded) {
    forall c: ToolCall :: OneLine(encode(c)) && Trimmed(encode(c)) && Encodes(decode(encode(c)), c)
  }

  function LineText(l: Line, encode: ToolCall -> string): string {
    match l
    case Prose(text, _) => text
    case Directive(c, _) => "TOOL_CALL: " + encode(c)
  }

  function Render(ls: seq<Line>, encode: ToolCall -> string): string {
    if ls == [] then "" else LineText(ls[0], encode) + ls[0].end + Render(ls[1..], encode)
  }

  /** A line that starts like a directive but does not hold an object with a name and arguments is prose
      too. */
  predicate NoCall(text: string, decode: string -> Decoded) {
    var stripped := Strip(text);
    "TOOL_CALL:" <= stripped ==>
      var d := decode(Strip(stripped[10..]));
      !(d.Object? && "name" in d.fields && "arguments" in d.fields)
  }

  /** Any line break but a lone carriage return, which would swallow a line feed after it. */
  predicate IsEnd(end: string) {
    end == "\r\n" || (|end| == 1 && IsLineBreak(end[0]) && end[0] != '\r')
  }

  /** Every line has its line break, which may be missing on the last one; prose is on one line and holds no
      call. */
  predicate Proper(ls: seq<Line>, decode: string -> Decoded) {
    forall i :: 0 <= i < |ls| ==>
      && (IsEnd(ls[i].end) || (ls[i].end == "" && i == |ls| - 1))
      && (ls[i].Prose? ==> OneLine(ls[i].text) && NoCall(ls[i].text, decode))
  }

  function CallsIn(ls: seq<Line>): seq<ToolCall> {
    if ls == [] then [] else (if ls[0].Directive? then [ls[0].call] else []) + CallsIn(ls[1..])
  }

  lemma LineEnd(line: string, end: string, rest: string)
    requires OneLine(line) && IsEnd(end)
    ensures SplitLines(line + end + rest) == [line] + SplitLines(rest)
  {
    var s := line + end + rest;
    var n := LineLength(s);
    assert forall i :: 0 <= i < |line| ==> s[i] == line[i];
    assert forall i :: 0 <= i < |end| ==> s[|line| + i] == end[i];
    assert s[|line|] == end[0] && IsLineBreak(end[0]);
    assert forall i :: 0 <= i < |line| ==> !IsLineBreak(s[i]);
    assert n == |line|;
    assert s[..n] == line && s[n + |end|..] == rest;
  }

  /** A last line without a line break. */
  lemma LastLine(line: string)
    requires OneLine(line)
    ensures SplitLines(line) == if line == "" then [] else [line]
  {
    var n := LineLength(line);
    if line != "" {
      assert n == |line|;
      assert line[..n] == line && line[n..] == [];
    }
  }

  lemma NothingOnEmptyLine(decode: string -> Decoded)
    ensures CallOnLine("", decode) == [] && CallsOnLines([], decode) == []
  {
  }

  lemma StripTrimmed(s: string)
    requires Trimmed(s)
    ensures Strip(s) == s
  {
    assert s[0..] == s;
  }

  lemma StripLeadingSpace(s: string)
    requires Trimmed(s)
    ensures Strip(" " + s) == s
  {
    var t := " " + s;
    assert t[1..] == s;
    assert LeadingSpaces(s) == 0;
    assert LeadingSpaces(t) == 1 + LeadingSpaces(t[1..]);
    assert TrimmedEnd(s) == |s|;
  }

  lemma DirectiveLine(e: string)
    requires OneLine(e) && Trimmed(e)
    ensures OneLine(PREFIX + " " + e) && Trimmed(PREFIX + " " + e)
    ensures PREFIX <= PREFIX + " " + e && (PREFIX + " " + e)[|PREFIX|..] == " " + e
  {
    var head := PREFIX + " ";
    var line := head + e;
    assert OneLine(head);
    assert line[0] == 'T' && line[|line| - 1] == e[|e| - 1];
    forall i | 0 <= i < |line| ensures !IsLineBreak(line[i]) {
      if i < |head| { assert line[i] == head[i]; } else { assert line[i] == e[i - |head|]; }
    }
  }

  lemma DirectiveDecodes(c: ToolCall, encode: ToolCall -> string, decode: string -> Decoded)
    requires Codec(encode, decode)
    ensures CallOnLine("TOOL_CALL: " + encode(c), decode) == [c]
    ensures OneLine("TOOL_CALL: " + encode(c))
  {
    hide Strip, Trimmed, OneLine;
    var e := encode(c);
    assert OneLine(e) && Trimmed(e) && Encodes(decode(e), c);
    assert PREFIX + " " == "TOOL_CALL: ";
    DirectiveLine(e);
    StripTrimmed(PREFIX + " " + e);
    StripLeadingSpace(e);
  }

  lemma {:induction false} CallsOnLinesCons(line: string, lines: seq<string>, decode: string -> Decoded)
    ensures CallsOnLines([line] + lines, decode) == CallOnLine(line, decode) + CallsOnLines(lines, decode)
  {
    hide CallOnLine;
    if lines != [] {
      var n := |lines| - 1;
      CallsOnLinesCons(line, lines[..n], decode);
      assert ([line] + lines)[..n + 1] == [line] + lines[..n];
    } else {
      assert ([line] + lines)[..0] == [];
    }
  }

  lemma LineCalls(l: Line, encode: ToolCall -> string, decode: string -> Decoded)
    requires Codec(encode, decode) && (l.Prose? ==> OneLine(l.text) && NoCall(l.text, decode))
    ensures OneLine(LineText(l, encode))
    ensures CallOnLine(LineText(l, encode), decode) == if l.Directive? then [l.call] else []
  {
    hide Strip;
    if l.Directive? { DirectiveDecodes(l.call, encode, decode); }
  }

  /** Reading a reply written in the documented format gives back exactly its calls, in order, whatever
      prose and malformed directives stand between them and whichever line breaks are used. */
  lemma {:induction false} ParseRender(ls: seq<Line>, encode: ToolCall -> string, decode: string -> Decoded)
    requires Codec(encode, decode) && Proper(ls, decode)
    ensures CallsOnLines(SplitLines(Render(ls, encode)), decode) == CallsIn(ls)
  {
    hide Codec, NoCall, CallOnLine, OneLine, LineText, SplitLines, IsEnd;
    if ls == [] {
      LastLine("") by { EmptyLine(); }
      NothingOnEmptyLine(decode);
    } else {
      var line := LineText(ls[0], encode);
      var rest := Render(ls[1..], encode);
      LineCalls(ls[0], encode, decode);
      ParseRender(ls[1..], encode, decode);
      if IsEnd(ls[0].end) {
        LineEnd(line, ls[0].end, rest);
        CallsOnLinesCons(line, SplitLines(rest), decode);
      } else {
        assert Render(ls, encode) == line;
        LastLine(line);
        NothingOnEmptyLine(decode);
        CallsOnLinesCons(line, [], decode);
        assert CallsIn(ls[1..]) == [];
      }
    }
  }

  lemma EmptyLine()
    ensures OneLine("")
  {
  }

  // ---------------------------------------------------------------- one iteration

  function CallsOf(reply: Reply, w: World): seq<ToolCall> {
    if reply.structuredCalls != [] then reply.structuredCalls else CallsOnLines(SplitLines(reply.content), w.decode)
  }

  function ResultOf(c: ToolCall, o: Outcome): ToolResult {
    match o
    case Text(v) => Result(c.name, v)
    case Json(e) => Result(c.name, e)
    case Raised(m) => Error(c.name, m)
  }

  function MessageOf(c: ToolCall, o: Outcome, w: World): Message {
    match o
    case Text(v) => Tool(v, c.name)
    case Json(e) => Tool(e, c.name)
    case Raised(m) => Tool(w.encodeError(m), c.name)
  }

  function Results(iteration: nat, calls: seq<ToolCall>, w: World): seq<ToolResult> {
    seq(|calls|, i requires 0 <= i < |calls| => ResultOf(calls[i], w.tool(iteration, i, calls[i])))
  }

  /** The tool messages of an iteration, in call order. */
  function ToolMessages(iteration: nat, calls: seq<ToolCall>, w: World): seq<Message> {
    seq(|calls|, i requires 0 <= i < |calls| => MessageOf(calls[i], w.tool(iteration, i, calls[i]), w))
  }

  /** The messages that the model sees after the given steps. */
  function History(task: string, steps: seq<AgentStep>, w: World): seq<Message> {
    if steps == [] then [User(task)]
    else
      var n := |steps| - 1;
      var step := steps[n];
      History(task, steps[..n], w)
      + if step.toolCalls == [] then [] else ToolMessages(step.iteration, step.toolCalls, w) + [Assistant(step.modelResponse)]
  }

  /** The step that iteration k takes after `before`. */
  function StepAfter(task: string, before: seq<AgentStep>, w: World): AgentStep {
    var k := |before|;
    var reply := w.model(k, History(task, before, w));
    var calls := CallsOf(reply, w);
    AgentStep(k, reply.content, calls, Results(k, calls, w))
  }

  /** Every step is what its iteration makes of the steps before it, and all but the last call tools. */
  predicate Trace(task: string, steps: seq<AgentStep>, w: World) {
    && (forall k :: 0 <= k < |steps| ==> steps[k] == StepAfter(task, steps[..k], w))
    && (forall k :: 0 <= k < |steps| - 1 ==> steps[k].toolCalls != [])
  }

  // ---------------------------------------------------------------- the loop

  /** What a complete run looks like, for any model and tools. */
  predicate CompleteRun(task: string, maxIterations: int, w: World, r: AgentResult) {
    && Trace(task, r.steps, w)
    && |r.steps| <= MaxInt(0, maxIterations)
    && if r.steps != [] && r.steps[|r.steps| - 1].toolCalls == [] then
         r.status == COMPLETED && r.totalIterations == |r.steps| && r.finalAnswer == r.steps[|r.steps| - 1].modelResponse
       else
         && r.status == FAILED && |r.steps| == MaxInt(0, maxIterations) && r.totalIterations == maxIterations
         && r.finalAnswer == if r.steps == [] then "max iterations reached" else r.steps[|r.steps| - 1].modelResponse
  }

  /** The statuses of a run after the given steps: a tool step adds AWAITING_TOOL and RUNNING. */
  function Statuses(steps: seq<AgentStep>): seq<AgentStatus> {
    if steps == [] then [CREATED, RUNNING]
    else
      var n := |steps| - 1;
      Statuses(steps[..n]) + if steps[n].toolCalls == [] then [] else [AWAITING_TOOL, RUNNING]
  }

  lemma StatusesSnoc(steps: seq<AgentStep>, step: AgentStep)
    ensures Statuses(steps + [step]) == Statuses(steps) + if step.toolCalls == [] then [] else [AWAITING_TOOL, RUNNING]
  {
    assert (steps + [step])[..|steps|] == steps;
  }

  /** Runs the calls of one iteration and appends one tool message for each. */
  method ExecuteTools(iteration: nat, toolCalls: seq<ToolCall>, messages: seq<Message>, w: World)
    returns (toolResults: seq<ToolResult>, longer: seq<Message>)
    ensures toolResults == Results(iteration, toolCalls, w)
    ensures longer == messages + ToolMessages(iteration, toolCalls, w)
  {
    toolResults, longer := [], messages;
    for i := 0 to |toolCalls|
      invariant toolResults == Results(iteration, toolCalls, w)[..i]
      invariant longer == messages + ToolMessages(iteration, toolCalls, w)[..i]
    {
      var tc := toolCalls[i];
      match w.tool(iteration, i, tc) {
        case Raised(m) =>
          toolResults := toolResults + [Error(tc.name, m)];
          longer := longer + [Tool(w.encodeError(m), tc.name)];
        case Text(v) =>
          toolResults := toolResults + [Result(tc.name, v)];
          longer := longer + [Tool(v, tc.name)];
        case Json(e) =>
          toolResults := toolResults + [Result(tc.name, e)];
          longer := longer + [Tool(e, tc.name)];
      }
    }
  }

  method Run(task: string, maxIterations: int, w: World) returns (r: AgentResult, ghost statuses: seq<AgentStatus>)
    ensures CompleteRun(task, maxIterations, w, r)
    ensures statuses == Statuses(r.steps) + [r.status] && Legal(statuses)
  {
    hide SplitLines, CallsOnLines, Results, ToolMessages, Legal, Trace, History, Statuses;
    var status := CREATED;
    var steps: seq<AgentStep> := [];
    var messages := [User(task)];
    EmptyRun(task, w);
    statuses := [CREATED];
    status, statuses := Move(status, RUNNING, statuses);
    assert statuses == Statuses(steps) by { NoStepsYet(); }
    for iteration := 0 to MaxInt(0, maxIterations)
      invariant |steps| == iteration && Trace(task, steps, w)
      invariant forall k :: 0 <= k < |steps| ==> steps[k].toolCalls != []
      invariant messages == History(task, steps, w)
      invariant statuses == Statuses(steps)
      invariant status == RUNNING && statuses != [] && Legal(statuses) && statuses[|statuses| - 1] == status
    {
      var response := w.model(iteration, messages);
      var toolCalls := response.structuredCalls;
      if toolCalls == [] { toolCalls := ParseToolCalls(response.content, w.decode); }
      var step := AgentStep(iteration, response.content, toolCalls, []);
      if toolCalls == [] {
        NoResults(iteration, w);
        TraceSnoc(task, steps, step, w);
        StatusesSnoc(steps, step);
        steps := steps + [step];
        status, statuses := Move(status, COMPLETED, statuses);
        return AgentResult(response.content, steps, iteration + 1, status), statuses;
      }
      status, statuses := Move(status, AWAITING_TOOL, statuses);
      var toolResults;
      toolResults, messages := ExecuteTools(iteration, toolCalls, messages, w);
      step := step.(toolResults := toolResults);
      TraceSnoc(task, steps, step, w);
      StatusesSnoc(steps, step);
      steps := steps + [step];
      messages := messages + [Assistant(response.content)];
      status, statuses := Move(status, RUNNING, statuses);
    }
    status, statuses := Move(status, FAILED, statuses);
    var last := if steps != [] then steps[|steps| - 1].modelResponse else "max iterations reached";
    return AgentResult(last, steps, maxIterations, status), statuses;
  }

  /** `status = transition(status, target)` where the move is legal, so that it does not raise. */
  method Move(status: AgentStatus, target: AgentStatus, ghost statuses: seq<AgentStatus>)
    returns (next: AgentStatus, ghost longer: seq<AgentStatus>)
    requires statuses != [] && Legal(statuses) && statuses[|statuses| - 1] == status
    requires target in Targets(status)
    ensures next == target && longer == statuses + [target] && Legal(longer)
  {
    next := Transition(status, target).value;
    longer := statuses + [target];
    LegalSnoc(statuses, target);
  }

  lemma EmptyRun(task: string, w: World)
    ensures Trace(task, [], w) && History(task, [], w) == [User(task)] && Legal([CREATED])
  {
  }

  lemma NoStepsYet()
    ensures Statuses([]) == [CREATED, RUNNING]
  {
  }

  lemma NoResults(iteration: nat, w: World)
    ensures Results(iteration, [], w) == []
  {
  }

  lemma TraceSnoc(task: string, steps: seq<AgentStep>, step: AgentStep, w: World)
    requires Trace(task, steps, w) && step == StepAfter(task, steps, w)
    requires forall k :: 0 <= k < |steps| ==> steps[k].toolCalls != []
    ensures Trace(task, steps + [step], w)
    ensures History(task, steps + [step], w) == History(task, steps, w)
      + if step.toolCalls == [] then [] else ToolMessages(|steps|, step.toolCalls, w) + [Assistant(step.modelResponse)]
  {
    hide StepAfter, ToolMessages;
    var longer := steps + [step];
    StepNumber(task, steps, w);
    assert longer[..|steps|] == steps;
    forall k | 0 <= k < |longer| ensures longer[k] == StepAfter(task, longer[..k], w) {
      assert longer[..k] == steps[..k];
      assert steps[..|steps|] == steps;
    }
  }

  lemma StepNumber(task: string, before: seq<AgentStep>, w: World)
    ensures StepAfter(task, before, w).iteration == |before|
  {
  }

  /** The model and the tools determine the run: there is only one complete run. */
  lemma RunUnique(task: string, maxIterations: int, w: World, a: AgentResult, b: AgentResult)
    ensures CompleteRun(task, maxIterations, w, a) && CompleteRun(task, maxIterations, w, b) ==> a == b
  {
    hide StepAfter;
    if CompleteRun(task, maxIterations, w, a) && CompleteRun(task, maxIterations, w, b) {
      var n := MinInt(|a.steps|, |b.steps|);
      SameSteps(task, w, a.steps, b.steps, n);
      assert forall k :: 0 <= k < n ==> a.steps[k] == a.steps[..n][k] && b.steps[k] == b.steps[..n][k];
      assert |a.steps| == |b.steps|;
      assert a.steps == a.steps[..n] && b.steps == b.steps[..n];
    }
  }

  lemma {:induction false} SameSteps(task: string, w: World, a: seq<AgentStep>, b: seq<AgentStep>, n: nat)
    requires Trace(task, a, w) && Trace(task, b, w) && n <= |a| && n <= |b|
    ensures a[..n] == b[..n]
  {
    hide StepAfter;
    if n > 0 {
      SameSteps(task, w, a, b, n - 1);
      assert a[n - 1] == StepAfter(task, a[..n - 1], w) && b[n - 1] == StepAfter(task, b[..n - 1], w);
      assert a[..n] == a[..n - 1] + [a[n - 1]] && b[..n] == b[..n - 1] + [b[n - 1]];
    }
  }

  /** What the model and the trace are told about one call: a string as it is, another value as its
      encoding, a failure as an error. */
  predicate Reported(call: ToolCall, o: Outcome, result: ToolResult, message: Message, encodeError: string -> string) {
    match o
    case Text(v) => result == Result(call.name, v) && message == Tool(v, call.name)
    case Json(e) => result == Result(call.name, e) && message == Tool(e, call.name)
    case Raised(m) => result == Error(call.name, m) && message == Tool(encodeError(m), call.name)
  }

  /** Each step asks the model with all messages so far, the first with the task alone, and takes the
      structured calls of the reply, or else those in its text. A tool step adds one message per call and then
      the assistant turn; results and messages report the outcome of the call at their position. */
  lemma StepShape(task: string, steps: seq<AgentStep>, k: nat, w: World)
    requires Trace(task, steps, w) && k < |steps|
    ensures var before, after := History(task, steps[..k], w), History(task, steps[..k + 1], w);
      var reply := w.model(k, before); var calls := steps[k].toolCalls; var n := |before|;
      && (k == 0 ==> before == [User(task)])
      && calls == (if reply.structuredCalls != [] then reply.structuredCalls
                   else CallsOnLines(SplitLines(reply.content), w.decode))
      && steps[k].iteration == k && steps[k].modelResponse == reply.content && |steps[k].toolResults| == |calls|
      && (calls == [] ==> after == before)
      && (calls != [] ==>
            |after| == n + |calls| + 1 && after[..n] == before && after[n + |calls|] == Assistant(reply.content))
      && forall i :: 0 <= i < |calls| ==>
           Reported(calls[i], w.tool(k, i, calls[i]), steps[k].toolResults[i], after[n + i], w.encodeError)
  {
    hide SplitLines, CallsOnLines, ToolMessages, Results, History, Reported;
    var before, after := History(task, steps[..k], w), History(task, steps[..k + 1], w);
    assert steps[k] == StepAfter(task, steps[..k], w);
    var calls := steps[k].toolCalls;
    var messages := ToolMessages(k, calls, w);
    assert |messages| == |calls| by { OneMessageEach(k, calls, w); }
    OutcomesReported(k, calls, w);
    HistoryStep(task, steps, k, w);
    forall i | 0 <= i < |calls|
      ensures Reported(calls[i], w.tool(k, i, calls[i]), steps[k].toolResults[i], after[|before| + i], w.encodeError)
    {
      assert after[|before| + i] == messages[i];
    }
  }

  lemma HistoryStep(task: string, steps: seq<AgentStep>, k: nat, w: World)
    requires k < |steps|
    ensures var step := steps[k];
      History(task, steps[..k + 1], w) == History(task, steps[..k], w)
        + if step.toolCalls == [] then [] else ToolMessages(step.iteration, step.toolCalls, w) + [Assistant(step.modelResponse)]
    ensures k == 0 ==> History(task, steps[..k], w) == [User(task)]
  {
    assert steps[..k + 1][..k] == steps[..k];
  }

  lemma OutcomesReported(iteration: nat, calls: seq<ToolCall>, w: World)
    ensures |Results(iteration, calls, w)| == |ToolMessages(iteration, calls, w)| == |calls|
    ensures forall i :: 0 <= i < |calls| ==>
      Reported(calls[i], w.tool(iteration, i, calls[i]), Results(iteration, calls, w)[i],
               ToolMessages(iteration, calls, w)[i], w.encodeError)
  {
  }

  lemma OneMessageEach(iteration: nat, calls: seq<ToolCall>, w: World)
    ensures |ToolMessages(iteration, calls, w)| == |calls|
  {
  }
}
