/**
 src/gateway/mcp.rs:159-287: the MCP dispatcher. One task a request line, 32
 permits, and one stdout that a task holds while it writes its response.
 JSON itself is left to `parse` and `render`.
 */
module McpStdio {
  import opened Wrappers
  import opened Bytes

  // ---- one message ----

  /** `id` as it stands in the text; the source reads an explicit null as no id. */
  datatype IdField = Absent | NullId | Given(id: ByteString)

  datatype Message = Malformed | Request(rpcMethod: string, idField: IdField)

  datatype Body = Result(value: ByteString) | Error(code: int)

  /** `id` is none for a JSON null. */
  datatype Response = Response(id: Option<ByteString>, body: Body)

  function RequestId(f: IdField): Option<ByteString> {
    if f.Given? then Some(f.id) else None
  }

  const INITIALIZED: string := "notifications/initialized"
  const METHODS: set<string> := {"initialize", "tools/list", "tools/call"}

  /** `handle_message`; `body` is what a known method comes back with. */
  function HandleMessage(m: Message, body: Body): Option<Response> {
    if m.Malformed? then Some(Response(None, Error(-32700)))
    else if m.rpcMethod == INITIALIZED then None
    else
      var id := RequestId(m.idField);
      if id.None? then None
      else if m.rpcMethod in METHODS then Some(Response(id, body))
      else Some(Response(id, Error(-32601)))
  }

  /** Section 4.1 of the JSON-RPC 2.0 Specification: a notification has no `id` member. */
  predicate IsNotification(m: Message) {
    m.Request? && m.idField.Absent?
  }

  /**
   Everything but a notification is answered, except an explicit null id and an
   `initialized` that carries one.
   */
  lemma AnsweredIffNotNotification(m: Message, body: Body)
    ensures (HandleMessage(m, body).Some? <==> !IsNotification(m)) <==>
            m.Malformed? || m.idField.Absent? || (m.idField.Given? && m.rpcMethod != INITIALIZED)
  {
  }

  /** A request the standard wants answered, and is not: with a null id, or `initialized` with an id. */
  lemma RequestsLeftUnanswered(name: string, id: ByteString, body: Body)
    ensures var m := Request(name, NullId); HandleMessage(m, body).None? && !IsNotification(m)
    ensures var m := Request(INITIALIZED, Given(id)); HandleMessage(m, body).None? && !IsNotification(m)
    ensures HandleMessage(Request("tools/list", NullId), body).None?
  {
  }

  /** The id a response to `m` has to carry: null when it could not be read. */
  function OwnId(m: Message): Option<ByteString> {
    if m.Malformed? then None else RequestId(m.idField)
  }

  /** `r` is what some handler makes of `m`. */
  predicate IsAnswer(m: Message, r: Response) {
    HandleMessage(m, r.body) == Some(r)
  }

  lemma AnswersKeepTheId(m: Message, body: Body)
    requires HandleMessage(m, body).Some?
    ensures IsAnswer(m, HandleMessage(m, body).value)
    ensures HandleMessage(m, body).value.id == OwnId(m) && (OwnId(m).None? ==> m.Malformed?)
  {
  }

  /** A known method is answered with what its handler made; anything else with its error code. */
  lemma WhoIsAnsweredHow(name: string, id: ByteString, body: Body)
    ensures name in {"initialize", "tools/list", "tools/call"} ==>
              HandleMessage(Request(name, Given(id)), body) == Some(Response(Some(id), body))
    ensures name !in {"initialize", "tools/list", "tools/call", "notifications/initialized"} ==>
              HandleMessage(Request(name, Given(id)), body) == Some(Response(Some(id), Error(-32601)))
    ensures HandleMessage(Request(name, Absent), body) == None
    ensures HandleMessage(Malformed, body) == Some(Response(None, Error(-32700)))
  {
    assert |"initialize"| == 10 && |"tools/list"| == 10 && |"tools/call"| == 10 && |INITIALIZED| == 25;
  }

  // ---- lines ----

  /** Bytes before the first newline, or all of them. */
  function LineLen(s: ByteString): (n: nat)
    ensures n <= |s| && NEWLINE !in s[..n]
    ensures n < |s| ==> s[n] == NEWLINE
  {
    if s == [] || s[0] == NEWLINE then 0
    else
      var n := 1 + LineLen(s[1..]);
      assert s[..n] == [s[0]] + s[1..][..n - 1];
      n
  }

  /** The newline-terminated lines a reader of `s` gets, without what follows the last newline. */
  function CompleteLines(s: ByteString): seq<ByteString>
    decreases |s|
  {
    var n := LineLen(s);
    if n == |s| then [] else [s[..n]] + CompleteLines(s[n + 1..])
  }

  function Lines(ls: seq<ByteString>): ByteString {
    if ls == [] then [] else ls[0] + [NEWLINE] + Lines(ls[1..])
  }

  lemma {:induction false} LinesSnoc(ls: seq<ByteString>, l: ByteString)
    ensures Lines(ls + [l]) == Lines(ls) + l + [NEWLINE]
    decreases |ls|
  {
    if ls == [] {
      assert ls + [l] == [l] && [l][1..] == [];
    } else {
      LinesSnoc(ls[1..], l);
      assert (ls + [l])[1..] == ls[1..] + [l] && (ls + [l])[0] == ls[0];
    }
  }

  lemma {:induction false} LineEndsAt(s: ByteString, n: nat)
    requires n < |s| && s[n] == NEWLINE && NEWLINE !in s[..n]
    ensures LineLen(s) == n
    decreases n
  {
    if n > 0 {
      assert s[0] in s[..n];
      assert s[1..][..n - 1] == s[1..n];
      assert forall b :: b in s[1..n] ==> b in s[..n];
      LineEndsAt(s[1..], n - 1);
    }
  }

  lemma LineThenRest(l: ByteString, rest: ByteString)
    requires NEWLINE !in l
    ensures CompleteLines(l + [NEWLINE] + rest) == [l] + CompleteLines(rest)
  {
    var s := l + [NEWLINE] + rest;
    var n := |l|;
    assert s[..n] == l;
    LineEndsAt(s, n);
    assert s[n + 1..] == rest;
    hide LineLen;
  }

  /** Whole lines, then part of one, read back as exactly those lines. */
  lemma {:induction false} LinesReadBack(ls: seq<ByteString>, part: ByteString)
    requires forall k :: 0 <= k < |ls| ==> NEWLINE !in ls[k]
    requires NEWLINE !in part
    ensures CompleteLines(Lines(ls) + part) == ls
    decreases |ls|
  {
    hide LineLen, CompleteLines;
    if ls == [] {
      assert Lines(ls) + part == part;
      NoLineIn(part);
    } else {
      LinesReadBack(ls[1..], part);
      assert Lines(ls) == ls[0] + [NEWLINE] + Lines(ls[1..]);
      hide *;
      var later := Lines(ls[1..]) + part;
      LineThenRest(ls[0], later);
      assert Lines(ls) + part == ls[0] + [NEWLINE] + later;
      assert ls == [ls[0]] + ls[1..];
    }
  }

  lemma NoLineIn(part: ByteString)
    requires NEWLINE !in part
    ensures CompleteLines(part) == []
  {
    hide LineLen;
  }

  /** Length of the first line with its newline, if it has one. */
  function LineEnd(s: ByteString): (end: nat)
    ensures end <= |s| && (s != [] ==> end > 0)
  {
    var n := LineLen(s);
    if n < |s| then n + 1 else n
  }

  /** The messages spawned for an input: what is left of each line, the last one too, after trimming. */
  function Messages(trim: ByteString -> ByteString, s: ByteString): seq<ByteString>
    decreases |s|
  {
    if s == [] then []
    else
      var end := LineEnd(s);
      var msg := trim(s[..end]);
      (if msg == [] then [] else [msg]) + Messages(trim, s[end..])
  }

  method FindLineEnd(s: ByteString) returns (n: nat)
    ensures n == LineLen(s)
  {
    n := 0;
    while n < |s| && s[n] != NEWLINE
      invariant 0 <= n <= |s|
      invariant LineLen(s) == n + LineLen(s[n..])
    {
      assert s[n..][1..] == s[n + 1..];
      n := n + 1;
    }
  }

  lemma PushThenRest<T>(acc: seq<T>, x: T, rest: seq<T>)
    ensures (acc + [x]) + rest == acc + ([x] + rest)
  {
  }

  lemma NoMessages(trim: ByteString -> ByteString, acc: seq<ByteString>)
    ensures acc + Messages(trim, []) == acc
  {
  }

  lemma MessagesUnfold(trim: ByteString -> ByteString, s: ByteString)
    requires s != []
    ensures var end := LineEnd(s); var msg := trim(s[..end]);
            Messages(trim, s) == (if msg == [] then [] else [msg]) + Messages(trim, s[end..])
  {
    hide LineEnd;
  }

  lemma TakeMessage(trim: ByteString -> ByteString, acc: seq<ByteString>, rest: ByteString)
    requires rest != []
    ensures var end := LineEnd(rest); var msg := trim(rest[..end]);
            (if msg == [] then acc else acc + [msg]) + Messages(trim, rest[end..]) == acc + Messages(trim, rest)
  {
    hide *;
    MessagesUnfold(trim, rest);
    var end := LineEnd(rest);
    var msg := trim(rest[..end]);
    var later := Messages(trim, rest[end..]);
    if msg == [] {
      assert [] + later == later;
    } else {
      PushThenRest(acc, msg, later);
    }
  }

  /** The read loop of `run_stdio`; `rest` is what the reader has not delivered yet. */
  method ReadMessages(trim: ByteString -> ByteString, input: ByteString) returns (messages: seq<ByteString>)
    ensures messages == Messages(trim, input)
  {
    hide Messages;
    messages := [];
    var rest := input;
    while rest != []
      invariant messages + Messages(trim, rest) == Messages(trim, input)
      decreases |rest|
    {
      var n := FindLineEnd(rest);
      var end := if n < |rest| then n + 1 else n;
      var msg := trim(rest[..end]);
      TakeMessage(trim, messages, rest);
      if msg != [] {
        messages := messages + [msg];
      }
      rest := rest[end..];
    }
    NoMessages(trim, messages);
  }

  /** A client that sends messages a line each gets each of them dispatched, in order. */
  lemma {:induction false} SentLinesAreMessages(trim: ByteString -> ByteString, ls: seq<ByteString>)
    requires forall k :: 0 <= k < |ls| ==> ls[k] != [] && NEWLINE !in ls[k] && trim(ls[k] + [NEWLINE]) == ls[k]
    ensures Messages(trim, Lines(ls)) == ls
    decreases |ls|
  {
    if ls != [] {
      SentLinesAreMessages(trim, ls[1..]);
      FirstMessage(trim, ls[0], Lines(ls[1..]));
    }
  }

  lemma FirstMessage(trim: ByteString -> ByteString, l: ByteString, rest: ByteString)
    requires l != [] && NEWLINE !in l && trim(l + [NEWLINE]) == l
    ensures Messages(trim, l + [NEWLINE] + rest) == [l] + Messages(trim, rest)
  {
    var s := l + [NEWLINE] + rest;
    var n := |l|;
    assert s[..n] == l;
    LineEndsAt(s, n);
    assert s[..n + 1] == l + [NEWLINE] && s[n + 1..] == rest;
  }

  // ---- any number of messages ----

  const PERMITS: nat := 32

  datatype Server = Server(parse: ByteString -> Message, render: Response -> ByteString, messages: seq<ByteString>)

  /** Compact JSON escapes every control character. */
  ghost predicate RendersOneLine(c: Server) {
    forall r :: NEWLINE !in c.render(r)
  }

  function MessageOf(c: Server, t: nat): Message {
    if t < |c.messages| then c.parse(c.messages[t]) else Malformed
  }

  /** `Ended(true)`: with a response written. */
  datatype Task =
    | Spawned
    | Handling
    | Waiting(response: Response)
    | Writing(response: Response, sent: nat)
    | Flushing(response: Response)
    | Ended(answered: bool)

  datatype Emitted = Emitted(task: nat, response: Response)

  /** Task `t` serves message `t`. `emitted` lists the responses whose newline is out. */
  datatype System = System(
    tasks: seq<Task>, free: nat, lock: Option<nat>, stdout: ByteString, emitted: seq<Emitted>)

  const INITIAL: System := System([], PERMITS, None, [], [])

  datatype Action =
    | Spawn
    | Acquire(task: nat)
    | Handle(task: nat, body: Body)
    | Abort(task: nat)
    | Lock(task: nat)
    | Write(task: nat, count: nat)
    | WriteNewline(task: nat)
    | Flush(task: nat)

  /** Holds a permit. */
  predicate IsActive(p: Task) {
    !p.Spawned? && !p.Ended?
  }

  predicate HoldsLock(p: Task) {
    p.Writing? || p.Flushing?
  }

  ghost predicate Enabled(c: Server, s: System, a: Action) {
    match a
    case Spawn => |s.tasks| < |c.messages|
    case Acquire(t) => t < |s.tasks| && s.tasks[t].Spawned? && s.free > 0
    case Handle(t, _) => t < |s.tasks| && s.tasks[t].Handling?
    case Abort(t) => t < |s.tasks| && s.tasks[t].Handling?
    case Lock(t) => t < |s.tasks| && s.tasks[t].Waiting? && s.lock.None?
    case Write(t, n) =>
      t < |s.tasks| && s.tasks[t].Writing? && 0 < n <= |c.render(s.tasks[t].response)| - s.tasks[t].sent
    case WriteNewline(t) =>
      t < |s.tasks| && s.tasks[t].Writing? && s.tasks[t].sent == |c.render(s.tasks[t].response)|
    case Flush(t) => t < |s.tasks| && s.tasks[t].Flushing?
  }

  function Move(s: System, t: nat, p: Task): System
    requires t < |s.tasks|
  {
    s.(tasks := s.tasks[t := p])
  }

  /** A task that ends gives its permit back. */
  function End(s: System, t: nat, answered: bool): System
    requires t < |s.tasks|
  {
    Move(s.(free := s.free + 1), t, Ended(answered))
  }

  ghost function Apply(c: Server, s: System, a: Action): System
    requires Enabled(c, s, a)
  {
    match a
    case Spawn => s.(tasks := s.tasks + [Spawned])
    case Acquire(t) => Move(s.(free := s.free - 1), t, Handling)
    case Handle(t, body) =>
      var r := HandleMessage(MessageOf(c, t), body);
      if r.None? then End(s, t, false) else Move(s, t, Waiting(r.value))
    case Abort(t) => End(s, t, false)
    case Lock(t) => Move(s.(lock := Some(t)), t, Writing(s.tasks[t].response, 0))
    case Write(t, n) =>
      var r, sent := s.tasks[t].response, s.tasks[t].sent;
      Move(s.(stdout := s.stdout + c.render(r)[sent..sent + n]), t, Writing(r, sent + n))
    case WriteNewline(t) =>
      var r := s.tasks[t].response;
      Move(s.(stdout := s.stdout + [NEWLINE], emitted := s.emitted + [Emitted(t, r)]), t, Flushing(r))
    case Flush(t) => End(s.(lock := None), t, true)
  }

  ghost predicate IsRun(c: Server, actions: seq<Action>) {
    actions != [] ==>
      var n := |actions| - 1;
      IsRun(c, actions[..n]) && Enabled(c, After(c, actions[..n]), actions[n])
  }

  ghost function After(c: Server, actions: seq<Action>): System {
    if actions == [] then INITIAL
    else
      var s, a := After(c, actions[..|actions| - 1]), actions[|actions| - 1];
      if Enabled(c, s, a) then Apply(c, s, a) else s
  }

  // ---- permits ----

  function Active(tasks: seq<Task>): set<nat> {
    set t | 0 <= t < |tasks| && IsActive(tasks[t])
  }

  ghost predicate PermitsConserved(s: System) {
    s.free + |Active(s.tasks)| == PERMITS
  }

  lemma ActiveAfter(tasks: seq<Task>, t: nat, p: Task)
    requires t < |tasks|
    ensures Active(tasks[t := p]) == (Active(tasks) - {t}) + (if IsActive(p) then {t} else {})
    ensures t in Active(tasks) <==> IsActive(tasks[t])
  {
    var after := tasks[t := p];
    assert forall u: nat :: u < |tasks| ==> after[u] == if u == t then p else tasks[u];
    hide IsActive;
  }

  lemma ActiveCount(tasks: seq<Task>, t: nat, p: Task)
    requires t < |tasks|
    ensures |Active(tasks[t := p])| ==
            |Active(tasks)| + (if IsActive(p) then 1 else 0) - (if IsActive(tasks[t]) then 1 else 0)
  {
    ActiveAfter(tasks, t, p);
    hide *;
    var active := Active(tasks);
    if t in active {
      assert |active - {t}| == |active| - 1;
    } else {
      assert active - {t} == active;
    }
  }

  lemma StepConserves(c: Server, s: System, a: Action)
    requires PermitsConserved(s) && Enabled(c, s, a)
    ensures PermitsConserved(Apply(c, s, a))
  {
    hide Active, HandleMessage;
    match a
    case Spawn => assert Active(s.tasks + [Spawned]) == Active(s.tasks) by { SpawnedIsIdle(s.tasks); }
    case Acquire(t) => ActiveCount(s.tasks, t, Handling);
    case Handle(t, body) =>
      var r := HandleMessage(MessageOf(c, t), body);
      ActiveCount(s.tasks, t, if r.None? then Ended(false) else Waiting(r.value));
    case Abort(t) => ActiveCount(s.tasks, t, Ended(false));
    case Lock(t) => ActiveCount(s.tasks, t, Writing(s.tasks[t].response, 0));
    case Write(t, n) => ActiveCount(s.tasks, t, Writing(s.tasks[t].response, s.tasks[t].sent + n));
    case WriteNewline(t) => ActiveCount(s.tasks, t, Flushing(s.tasks[t].response));
    case Flush(t) => ActiveCount(s.tasks, t, Ended(true));
  }

  lemma SpawnedIsIdle(tasks: seq<Task>)
    ensures Active(tasks + [Spawned]) == Active(tasks)
  {
    var after := tasks + [Spawned];
    assert forall u: nat :: u < |tasks| ==> after[u] == tasks[u];
    assert after[|tasks|] == Spawned;
  }

  // ---- who holds stdout, and what has been written ----

  ghost predicate LockOk(s: System) {
    && (s.lock.Some? ==> s.lock.value < |s.tasks| && HoldsLock(s.tasks[s.lock.value]))
    && (forall t: nat :: t < |s.tasks| && HoldsLock(s.tasks[t]) ==> s.lock == Some(t))
  }

  /** The responses a task carries answer its message, and are still to be written. */
  ghost predicate TasksOk(c: Server, s: System) {
    && |s.tasks| <= |c.messages|
    && (forall t: nat :: t < |s.tasks| && HasResponse(s.tasks[t]) ==> IsAnswer(MessageOf(c, t), s.tasks[t].response))
  }

  predicate HasResponse(p: Task) {
    p.Waiting? || p.Writing? || p.Flushing?
  }

  /** A task whose newline is out. */
  predicate IsPast(p: Task) {
    p.Flushing? || p.Ended?
  }

  ghost predicate EmittedOk(c: Server, s: System) {
    && (forall k :: 0 <= k < |s.emitted| ==>
          && s.emitted[k].task < |s.tasks| && IsPast(s.tasks[s.emitted[k].task])
          && IsAnswer(MessageOf(c, s.emitted[k].task), s.emitted[k].response))
    && (forall j, k :: 0 <= j < k < |s.emitted| ==> s.emitted[j].task != s.emitted[k].task)
  }

  function Rendered(c: Server, emitted: seq<Emitted>): seq<ByteString> {
    seq(|emitted|, k requires 0 <= k < |emitted| => c.render(emitted[k].response))
  }

  /** How far the task holding stdout has got with its line. */
  function Partial(c: Server, s: System): ByteString {
    if s.lock.Some? && s.lock.value < |s.tasks| && s.tasks[s.lock.value].Writing?
       && s.tasks[s.lock.value].sent <= |c.render(s.tasks[s.lock.value].response)|
    then c.render(s.tasks[s.lock.value].response)[..s.tasks[s.lock.value].sent]
    else []
  }

  ghost predicate StdoutOk(c: Server, s: System) {
    && s.stdout == Lines(Rendered(c, s.emitted)) + Partial(c, s)
    && (s.lock.Some? && s.lock.value < |s.tasks| && s.tasks[s.lock.value].Writing? ==>
          s.tasks[s.lock.value].sent <= |c.render(s.tasks[s.lock.value].response)|)
  }

  ghost predicate Inv(c: Server, s: System) {
    PermitsConserved(s) && LockOk(s) && TasksOk(c, s) && EmittedOk(c, s) && StdoutOk(c, s)
  }

  lemma StepKeepsLock(c: Server, s: System, a: Action)
    requires LockOk(s) && Enabled(c, s, a)
    ensures LockOk(Apply(c, s, a))
  {
    hide HandleMessage;
  }

  lemma StepKeepsTasks(c: Server, s: System, a: Action)
    requires TasksOk(c, s) && Enabled(c, s, a)
    ensures TasksOk(c, Apply(c, s, a))
  {
    if a.Handle? {
      var m := MessageOf(c, a.task);
      if HandleMessage(m, a.body).Some? {
        AnswersKeepTheId(m, a.body);
      }
    }
    hide HandleMessage, IsAnswer, MessageOf;
  }

  lemma StepKeepsEmitted(c: Server, s: System, a: Action)
    requires TasksOk(c, s) && EmittedOk(c, s) && Enabled(c, s, a)
    ensures EmittedOk(c, Apply(c, s, a))
  {
    hide HandleMessage, IsAnswer, MessageOf;
  }

  lemma RenderedSnoc(c: Server, emitted: seq<Emitted>, e: Emitted)
    ensures Lines(Rendered(c, emitted + [e])) == Lines(Rendered(c, emitted)) + c.render(e.response) + [NEWLINE]
  {
    assert Rendered(c, emitted + [e]) == Rendered(c, emitted) + [c.render(e.response)];
    LinesSnoc(Rendered(c, emitted), c.render(e.response));
  }

  lemma WriteKeepsStdout(c: Server, s: System, t: nat, n: nat)
    requires LockOk(s) && StdoutOk(c, s) && Enabled(c, s, Write(t, n))
    ensures StdoutOk(c, Apply(c, s, Write(t, n)))
  {
    hide Lines, Rendered, HandleMessage, PermitsConserved;
    var line, sent := c.render(s.tasks[t].response), s.tasks[t].sent;
    assert s.lock == Some(t) && Partial(c, s) == line[..sent];
    assert line[..sent] + line[sent..sent + n] == line[..sent + n];
  }

  lemma NewlineKeepsStdout(c: Server, s: System, t: nat)
    requires LockOk(s) && StdoutOk(c, s) && Enabled(c, s, WriteNewline(t))
    ensures StdoutOk(c, Apply(c, s, WriteNewline(t)))
  {
    hide Lines, Rendered, HandleMessage, PermitsConserved;
    var r := s.tasks[t].response;
    RenderedSnoc(c, s.emitted, Emitted(t, r));
    assert s.lock == Some(t) && Partial(c, s) == c.render(r);
    var s' := Apply(c, s, WriteNewline(t));
    assert Partial(c, s') == [];
  }

  lemma QuietKeepsStdout(c: Server, s: System, a: Action)
    requires LockOk(s) && StdoutOk(c, s) && Enabled(c, s, a) && !a.Write? && !a.WriteNewline?
    ensures StdoutOk(c, Apply(c, s, a))
  {
    hide Lines, Rendered, HandleMessage;
    var s' := Apply(c, s, a);
    assert s'.stdout == s.stdout && s'.emitted == s.emitted;
    assert Partial(c, s') == Partial(c, s);
  }

  lemma StepKeepsStdout(c: Server, s: System, a: Action)
    requires LockOk(s) && StdoutOk(c, s) && Enabled(c, s, a)
    ensures StdoutOk(c, Apply(c, s, a))
  {
    hide *;
    if a.Write? {
      WriteKeepsStdout(c, s, a.task, a.count);
    } else if a.WriteNewline? {
      NewlineKeepsStdout(c, s, a.task);
    } else {
      QuietKeepsStdout(c, s, a);
    }
  }

  lemma StepKeepsInv(c: Server, s: System, a: Action)
    requires Inv(c, s) && Enabled(c, s, a)
    ensures Inv(c, Apply(c, s, a))
  {
    hide PermitsConserved, LockOk, TasksOk, EmittedOk, StdoutOk, Enabled, Apply;
    StepConserves(c, s, a);
    StepKeepsLock(c, s, a);
    StepKeepsTasks(c, s, a);
    StepKeepsEmitted(c, s, a);
    StepKeepsStdout(c, s, a);
  }

  lemma {:induction false} RunsKeepInv(c: Server, actions: seq<Action>)
    requires IsRun(c, actions)
    ensures Inv(c, After(c, actions))
    decreases |actions|
  {
    if actions == [] {
      assert Active([]) == {};
    } else {
      var n := |actions| - 1;
      RunsKeepInv(c, actions[..n]);
      hide Inv, Apply, Enabled;
      StepKeepsInv(c, After(c, actions[..n]), actions[n]);
    }
  }

  // ---- what holds of every run ----

  /** Stdout is whole response lines and at most the start of one more, of the task that holds it. */
  lemma StdoutIsWholeLines(c: Server, actions: seq<Action>)
    requires IsRun(c, actions)
    ensures var s := After(c, actions);
            && s.stdout == Lines(Rendered(c, s.emitted)) + Partial(c, s)
            && (Partial(c, s) != [] ==> s.lock.Some? && s.lock.value < |s.tasks| && s.tasks[s.lock.value].Writing?)
  {
    RunsKeepInv(c, actions);
    hide After, IsRun, Lines, Rendered;
  }

  /** A client reading a line at a time sees the responses themselves, in the order they were finished. */
  lemma ClientReadsResponses(c: Server, actions: seq<Action>)
    requires IsRun(c, actions) && RendersOneLine(c)
    ensures var s := After(c, actions); CompleteLines(s.stdout) == Rendered(c, s.emitted)
  {
    RunsKeepInv(c, actions);
    var s := After(c, actions);
    hide After, IsRun, Lines, CompleteLines;
    var ls := Rendered(c, s.emitted);
    PartialIsInLine(c, s);
    LinesReadBack(ls, Partial(c, s));
  }

  lemma PartialIsInLine(c: Server, s: System)
    requires RendersOneLine(c)
    ensures NEWLINE !in Partial(c, s)
  {
  }

  /** At most one response a message, each with its own message's id, and none to a notification. */
  lemma OneResponseEach(c: Server, actions: seq<Action>, j: nat, k: nat)
    requires IsRun(c, actions) && j < |After(c, actions).emitted| && k < |After(c, actions).emitted|
    ensures var e := After(c, actions).emitted;
            && (e[j].task == e[k].task ==> j == k)
            && e[k].task < |c.messages|
            && var m := c.parse(c.messages[e[k].task]);
            && !IsNotification(m)
            && IsAnswer(m, e[k].response)
            && e[k].response.id == OwnId(m)
            && (m.Malformed? ==> e[k].response.body == Error(-32700))
            && (m.Request? && m.rpcMethod !in {"initialize", "tools/list", "tools/call"} ==>
                  e[k].response.body == Error(-32601))
  {
    RunsKeepInv(c, actions);
    hide After, IsRun, Lines, Rendered;
    assert IsAnswer(MessageOf(c, After(c, actions).emitted[k].task), After(c, actions).emitted[k].response);
  }

  /** Handlers at work or waiting to write never exceed the permits; tasks spawned may. */
  lemma AtMost32Active(c: Server, actions: seq<Action>)
    requires IsRun(c, actions)
    ensures |Active(After(c, actions).tasks)| <= 32
    ensures After(c, actions).free + |Active(After(c, actions).tasks)| == 32
  {
    RunsKeepInv(c, actions);
    hide After, IsRun, Active;
  }

  /** Responses wait for one another, never for good: the holder of stdout can always go on. */
  lemma HolderCanProceed(c: Server, actions: seq<Action>) returns (next: Action)
    requires IsRun(c, actions) && After(c, actions).lock.Some?
    ensures Enabled(c, After(c, actions), next)
    ensures next.Write? || next.WriteNewline? || next.Flush?
  {
    RunsKeepInv(c, actions);
    var s := After(c, actions);
    hide After, IsRun, PermitsConserved, TasksOk, EmittedOk;
    var t := s.lock.value;
    if s.tasks[t].Flushing? {
      next := Flush(t);
    } else {
      var left := |c.render(s.tasks[t].response)| - s.tasks[t].sent;
      next := if left == 0 then WriteNewline(t) else Write(t, left);
    }
  }

  /** What a known method's handler makes is what its task goes on to write. */
  lemma HandlerResultIsWritten(c: Server, s: System, t: nat, id: ByteString, name: string, body: Body)
    requires Enabled(c, s, Handle(t, body)) && MessageOf(c, t) == Request(name, Given(id))
    requires name in {"initialize", "tools/list", "tools/call"}
    ensures Apply(c, s, Handle(t, body)).tasks == s.tasks[t := Waiting(Response(Some(id), body))]
  {
    WhoIsAnsweredHow(name, id, body);
    hide HandleMessage, MessageOf;
  }

  // ---- more tasks than permits ----

  function Spawns(n: nat): seq<Action> {
    if n == 0 then [] else Spawns(n - 1) + [Spawn]
  }

  /** The permit is taken inside the task, so nothing bounds the tasks spawned but the input. */
  lemma {:induction false} SpawningIsUnbounded(c: Server, n: nat)
    requires n <= |c.messages|
    ensures IsRun(c, Spawns(n)) && |After(c, Spawns(n)).tasks| == n
  {
    if n > 0 {
      SpawningIsUnbounded(c, n - 1);
      SpawnOnce(c, Spawns(n - 1));
    }
  }

  lemma SpawnOnce(c: Server, actions: seq<Action>)
    requires IsRun(c, actions) && |After(c, actions).tasks| < |c.messages|
    ensures IsRun(c, actions + [Spawn])
    ensures |After(c, actions + [Spawn]).tasks| == |After(c, actions).tasks| + 1
  {
    assert (actions + [Spawn])[..|actions|] == actions;
    hide HandleMessage;
  }

  /** In every run at most `n` tasks are spawned exactly if the input has at most `n` messages. */
  lemma SpawnedAtMostIff(c: Server, n: nat)
    ensures (forall actions :: IsRun(c, actions) ==> |After(c, actions).tasks| <= n) <==> |c.messages| <= n
  {
    if |c.messages| <= n {
      forall actions | IsRun(c, actions) ensures |After(c, actions).tasks| <= n {
        RunsKeepInv(c, actions);
        hide After, IsRun, PermitsConserved, LockOk, EmittedOk, StdoutOk;
      }
    } else {
      SpawningIsUnbounded(c, n + 1);
      hide After, IsRun, Spawns;
    }
  }
}
