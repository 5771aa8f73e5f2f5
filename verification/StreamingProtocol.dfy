/** The streaming response: calls posted to the event base by one thread and run there by another. */
module StreamingProtocol {
  import opened FileChunks
  import opened Wrappers

  /** A call on the response builder. */
  datatype BuilderCall = Headers(status: nat, body: Data) | Body(data: Data) | Eom

  /** A closure in the event base's queue. */
  datatype Closure = Respond(call: BuilderCall) | DeleteSelf

  /** The part of a handler that both threads touch. */
  datatype Handler = Handler(sentHeaders: bool, queue: seq<Closure>, log: seq<BuilderCall>, deleted: bool)

  // ----- The handler's operations

  function SendResponseHeaders(h: Handler, status: nat, body: Data): Handler {
    h.(sentHeaders := true, queue := h.queue + [Respond(Headers(status, body))])
  }

  /** Empty data is dropped: the response builder does not allow it. */
  function SendBody(h: Handler, data: Data): Handler {
    if data == [] then h else h.(queue := h.queue + [Respond(Body(data))])
  }

  function SendEOF(h: Handler): Handler {
    h.(queue := h.queue + [Respond(Eom)])
  }

  function RequestComplete(h: Handler): Handler {
    h.(queue := h.queue + [DeleteSelf])
  }

  /** The event base runs the oldest closure. */
  function RunNext(h: Handler): Handler
    requires h.queue != []
  {
    match h.queue[0]
    case Respond(call) => h.(queue := h.queue[1..], log := h.log + [call])
    case DeleteSelf => h.(queue := h.queue[1..], deleted := true)
  }

  // ----- The two threads as steps

  /** What the request for a file meets. */
  datatype Request = NotRegularFile | NotModified | OpenFails | Opens(file: Data)

  /** A request, the read buffer size, and the extra bytes each fresh buffer holds beyond that size. */
  datatype Env = Env(request: Request, size: nat, slack: Slack)

  /** Where the serving thread stands in onEOM. */
  datatype Worker = Starting | Reading(pos: nat, eof: bool) | Finishing | Finished

  /** `done` lists the reads made so far; the faults record what was thrown. */
  datatype State = State(worker: Worker, h: Handler, completed: bool, done: seq<Data>, faulted: bool, earlyFault: bool)

  datatype Action = Work | Fault | RunClosure | Complete

  function Init(): State {
    State(Starting, Handler(false, [], [], false), false, [], false, false)
  }

  function FileOf(env: Env): Data { if env.request.Opens? then env.request.file else [] }

  function StatusOf(env: Env): nat {
    match env.request
    case NotRegularFile => 404
    case NotModified => 304
    case OpenFails => 404
    case Opens(_) => 200
  }

  /** The proxy reports completion once the end of the message has gone out; a fault is thrown only on the executor. */
  predicate Enabled(env: Env, s: State, a: Action) {
    match a
    case Work => !s.worker.Finished?
    case Fault => s.worker.Reading? || (s.worker.Starting? && (env.request.OpenFails? || env.request.Opens?))
    case RunClosure => s.h.queue != []
    case Complete => Eom in s.h.log && !s.completed
  }

  function Step(env: Env, s: State, a: Action): State
    requires Enabled(env, s, a)
  {
    match a
    case Work => WorkStep(env, s)
    case Fault => s.(worker := Finishing, faulted := true, earlyFault := s.earlyFault || s.worker.Starting?)
    case RunClosure => s.(h := RunNext(s.h))
    case Complete => s.(h := RequestComplete(s.h), completed := true)
  }

  /** One call of onEOM or of its read loop. */
  function WorkStep(env: Env, s: State): State
    requires !s.worker.Finished?
  {
    match s.worker
    case Starting =>
      s.(h := SendResponseHeaders(s.h, StatusOf(env), []),
         worker := if env.request.Opens? then Reading(0, false) else Finishing)
    case Reading(pos, eof) =>
      if eof then s.(worker := Finishing)
      else
        var data := ReadAt(FileOf(env), pos, env.size);
        s.(h := SendBody(s.h, data + env.slack(|s.done|)),
           done := s.done + [data],
           worker := Reading(pos + |data|, |data| < env.size))
    case Finishing =>
      s.(h := SendEOF(s.h), worker := Finished)
  }

  /** At most `size` bytes of the file from `pos` on. */
  function ReadAt(file: Data, pos: nat, size: nat): Data {
    if pos >= |file| then [] else if |file| - pos < size then file[pos..] else file[pos..pos + size]
  }

  /** The run-time checks of the handler that the next step would trip. */
  predicate CheckFails(env: Env, s: State, a: Action) {
    a.Work? && match s.worker
               case Starting => s.h.sentHeaders
               case Reading(_, eof) => !eof && !s.h.sentHeaders
               case Finishing => !s.h.sentHeaders
               case Finished => false
  }

  /** The state after a sequence of steps of either thread, in any interleaving; None if a step is not enabled. */
  function After(env: Env, actions: seq<Action>): Option<State> {
    if actions == [] then Some(Init())
    else
      match After(env, actions[..|actions| - 1])
      case None => None
      case Some(t) =>
        if Enabled(env, t, actions[|actions| - 1]) then Some(Step(env, t, actions[|actions| - 1])) else None
  }

  // ----- The invariant

  function Bodies(chunks: seq<Data>): seq<BuilderCall> {
    if chunks == [] then [] else [Body(chunks[0])] + Bodies(chunks[1..])
  }

  lemma {:induction false} BodiesAppend(a: seq<Data>, b: seq<Data>)
    ensures Bodies(a + b) == Bodies(a) + Bodies(b)
  {
    if a == [] {
      assert a + b == b;
    } else {
      assert (a + b)[1..] == a[1..] + b;
      BodiesAppend(a[1..], b);
    }
  }

  /** The calls of a response whose body is what the reads deliver, without its end. */
  function Opened(env: Env, parts: seq<Data>): seq<BuilderCall> {
    [Headers(StatusOf(env), [])] + Bodies(Deliver(parts, env.slack))
  }

  function AllReads(env: Env): seq<Data>
    requires env.size > 0
  {
    if env.request.Opens? then Reads(env.request.file, env.size) else []
  }

  /** The calls waiting in the queue. */
  function Pending(queue: seq<Closure>): seq<BuilderCall> {
    if queue == [] then []
    else (if queue[0].Respond? then [queue[0].call] else []) + Pending(queue[1..])
  }

  lemma {:induction false} PendingAppend(queue: seq<Closure>, c: Closure)
    ensures Pending(queue + [c]) == Pending(queue) + if c.Respond? then [c.call] else []
  {
    if queue == [] {
      assert queue + [c] == [c] && [c][1..] == [];
    } else {
      assert (queue + [c])[1..] == queue[1..] + [c] && (queue + [c])[0] == queue[0];
      PendingAppend(queue[1..], c);
      var head := if queue[0].Respond? then [queue[0].call] else [];
      var last := if c.Respond? then [c.call] else [];
      assert head + (Pending(queue[1..]) + last) == (head + Pending(queue[1..])) + last;
    }
  }

  /** The builder calls posted so far. */
  function Issued(env: Env, s: State): seq<BuilderCall> {
    match s.worker
    case Starting => []
    case Reading(_, _) => Opened(env, s.done)
    case Finishing => if s.earlyFault then [] else Opened(env, s.done)
    case Finished => (if s.earlyFault then [] else Opened(env, s.done)) + [Eom]
  }

  /** The reads done, together with those still to come, are all the reads of the file. */
  ghost predicate WorkerInv(env: Env, s: State)
    requires env.size > 0
  {
    && (s.h.sentHeaders <==> !s.worker.Starting? && !s.earlyFault)
    && (s.earlyFault ==> s.faulted && s.done == [])
    && match s.worker
       case Starting => !s.faulted && s.done == []
       case Reading(pos, eof) =>
         && env.request.Opens? && !s.faulted && pos <= |FileOf(env)|
         && AllReads(env) == s.done + if eof then [] else Reads(FileOf(env)[pos..], env.size)
       case Finishing => s.done <= AllReads(env) && (!s.faulted ==> s.done == AllReads(env))
       case Finished => s.done <= AllReads(env) && (!s.faulted ==> s.done == AllReads(env))
  }

  /** What is logged and what is queued together are what was issued; deletion comes last of all. */
  ghost predicate QueueInv(env: Env, s: State) {
    && s.h.log + Pending(s.h.queue) == Issued(env, s)
    && (!s.completed ==> DeleteSelf !in s.h.queue && !s.h.deleted)
    && (s.completed ==> s.worker.Finished? && s.h.log == Issued(env, s))
    && (s.completed ==> s.h.queue == if s.h.deleted then [] else [DeleteSelf])
  }

  ghost predicate Inv(env: Env, s: State)
    requires env.size > 0
  {
    WorkerInv(env, s) && QueueInv(env, s)
  }

  lemma {:induction false} NoEomInBodies(chunks: seq<Data>)
    ensures Eom !in Bodies(chunks) && forall c :: c in Bodies(chunks) ==> c.Body?
  {
    if chunks != [] { NoEomInBodies(chunks[1..]); }
  }

  lemma EomIsLast(env: Env, s: State)
    ensures Eom in Issued(env, s) <==> s.worker.Finished?
    ensures !s.worker.Finished? ==> Eom !in Issued(env, s)
  {
    NoEomInBodies(Deliver(s.done, env.slack));
  }

  /** Posting a call adds it to what is issued. */
  lemma Posted(env: Env, s: State, t: State, call: BuilderCall)
    requires QueueInv(env, s) && !s.completed && !t.completed
    requires t.h.queue == s.h.queue + [Respond(call)] && t.h.log == s.h.log && t.h.deleted == s.h.deleted
    requires Issued(env, t) == Issued(env, s) + [call]
    ensures QueueInv(env, t)
  {
    hide Issued, Pending;
    PendingAppend(s.h.queue, Respond(call));
    assert s.h.log + (Pending(s.h.queue) + [call]) == (s.h.log + Pending(s.h.queue)) + [call];
  }

  lemma BodiesStep(done: seq<Data>, data: Data, slack: Slack)
    ensures var buffer := data + slack(|done|);
      Bodies(Deliver(done + [data], slack)) ==
        Bodies(Deliver(done, slack)) + if buffer == [] then [] else [Body(buffer)]
  {
    var buffer := data + slack(|done|);
    DeliverSnoc(done, data, slack);
    BodiesAppend(Deliver(done, slack), if buffer == [] then [] else [buffer]);
    OneBody(buffer);
    hide Deliver, Bodies;
  }

  lemma OneBody(buffer: Data)
    ensures Bodies([buffer]) == [Body(buffer)] && Bodies([]) == []
  {
    assert [buffer][1..] == [];
  }

  lemma OpenedStep(env: Env, done: seq<Data>, data: Data)
    ensures var buffer := data + env.slack(|done|);
      Opened(env, done + [data]) == Opened(env, done) + if buffer == [] then [] else [Body(buffer)]
  {
    BodiesStep(done, data, env.slack);
    hide Deliver, Bodies;
  }

  lemma ReadAtSplits(file: Data, pos: nat, size: nat)
    requires size > 0 && pos <= |file|
    ensures var data := ReadAt(file, pos, size);
      && pos + |data| <= |file|
      && (|data| == size || pos + |data| == |file|) && |data| <= size
      && Reads(file[pos..], size) == [data] + if |data| < size then [] else Reads(file[pos + |data|..], size)
  {
    var data := ReadAt(file, pos, size);
    ReadsStep(file[pos..], size);
    if |file| - pos < size {
      assert data == file[pos..];
    } else {
      assert file[pos..][..size] == data && file[pos..][size..] == file[pos + size..];
    }
  }

  lemma ReadKeepsInv(env: Env, s: State)
    requires env.size > 0 && Inv(env, s) && s.worker.Reading? && !s.worker.eof
    ensures Inv(env, WorkStep(env, s))
  {
    hide Issued, Opened, Reads, ReadAt, Pending;
    var t, file, pos := WorkStep(env, s), FileOf(env), s.worker.pos;
    var data := ReadAt(file, pos, env.size);
    ReadAtSplits(file, pos, env.size);
    OpenedStep(env, s.done, data);
    IssuedWhileReading(env, s);
    IssuedWhileReading(env, t);
    var buffer := data + env.slack(|s.done|);
    if buffer == [] {
      assert t.h == s.h && Opened(env, t.done) == Opened(env, s.done) + [];
    } else {
      Posted(env, s, t, Body(buffer));
    }
    assert s.done + ([data] + if |data| < env.size then [] else Reads(file[pos + |data|..], env.size)) ==
           (s.done + [data]) + if |data| < env.size then [] else Reads(file[pos + |data|..], env.size);
  }

  lemma IssuedWhileReading(env: Env, s: State)
    requires s.worker.Reading?
    ensures Issued(env, s) == Opened(env, s.done)
  {
  }

  lemma WorkKeepsInv(env: Env, s: State)
    requires env.size > 0 && Inv(env, s) && !s.worker.Finished?
    ensures Inv(env, WorkStep(env, s))
  {
    hide Pending;
    var t := WorkStep(env, s);
    match s.worker
    case Starting =>
      assert Opened(env, []) == [Headers(StatusOf(env), [])];
      assert Issued(env, t) == Issued(env, s) + [Headers(StatusOf(env), [])];
      Posted(env, s, t, Headers(StatusOf(env), []));
      if env.request.Opens? {
        assert env.request.file[0..] == env.request.file && [] + AllReads(env) == AllReads(env);
      }
    case Reading(pos, eof) =>
      if eof { assert s.done + [] == s.done; } else { ReadKeepsInv(env, s); }
    case Finishing =>
      Posted(env, s, t, Eom);
  }

  lemma RunKeepsInv(env: Env, s: State)
    requires env.size > 0 && Inv(env, s) && s.h.queue != []
    ensures Inv(env, s.(h := RunNext(s.h)))
  {
    hide Opened;
    var q := s.h.queue;
    match q[0]
    case Respond(call) =>
      assert Pending(q) == [call] + Pending(q[1..]);
      assert s.h.log + ([call] + Pending(q[1..])) == (s.h.log + [call]) + Pending(q[1..]);
    case DeleteSelf =>
      assert DeleteSelf in q;
  }

  lemma CompleteKeepsInv(env: Env, s: State)
    requires env.size > 0 && Inv(env, s) && Eom in s.h.log && !s.completed
    ensures Inv(env, s.(h := RequestComplete(s.h), completed := true))
  {
    EomIsLast(env, s);
    EomEndsLog(env, s);
    hide Issued;
    PendingAppend(s.h.queue, DeleteSelf);
  }

  lemma {:induction false} PendingLength(queue: seq<Closure>)
    requires DeleteSelf !in queue
    ensures |Pending(queue)| == |queue|
  {
    if queue != [] {
      assert queue[0] in queue;
      PendingLength(queue[1..]);
    }
  }

  /** Once the end of the message is logged, nothing is left in the queue. */
  lemma EomEndsLog(env: Env, s: State)
    requires QueueInv(env, s) && Eom in s.h.log && !s.completed
    ensures s.worker.Finished? && s.h.log == Issued(env, s) && s.h.queue == []
  {
    EomIsLast(env, s);
    var before := if s.earlyFault then [] else Opened(env, s.done);
    NoEomInBodies(Deliver(s.done, env.slack));
    assert s.h.log + Pending(s.h.queue) == Issued(env, s);
    assert s.worker.Finished?;
    assert Issued(env, s) == before + [Eom] && Eom !in before;
    var i :| 0 <= i < |s.h.log| && s.h.log[i] == Eom;
    assert (before + [Eom])[i] == Eom && i == |before|;
    PendingLength(s.h.queue);
    assert s.h.log + [] == s.h.log;
  }

  lemma StepKeepsInv(env: Env, s: State, a: Action)
    requires env.size > 0 && Inv(env, s) && Enabled(env, s, a)
    ensures Inv(env, Step(env, s, a))
  {
    match a
    case Work => WorkKeepsInv(env, s);
    case Fault =>
      assert s.worker.Starting? ==> Issued(env, s) == [];
    case RunClosure => RunKeepsInv(env, s);
    case Complete => CompleteKeepsInv(env, s);
  }

  /** The invariant holds in every state of every interleaving. */
  lemma {:induction false} InvAlways(env: Env, actions: seq<Action>)
    requires env.size > 0 && After(env, actions).Some?
    ensures Inv(env, After(env, actions).value)
    decreases |actions|
  {
    if actions != [] {
      var before := actions[..|actions| - 1];
      InvAlways(env, before);
      StepKeepsInv(env, After(env, before).value, actions[|actions| - 1]);
    }
  }

  // ----- What every run shows

  /** One header first, then bodies, then possibly one end of message, and nothing after it. */
  predicate WellFormedLog(log: seq<BuilderCall>) {
    forall i :: 0 <= i < |log| ==>
      if i == 0 then log[i].Headers? else log[i].Body? || (log[i].Eom? && i == |log| - 1)
  }

  predicate Terminal(env: Env, s: State) {
    forall a :: !Enabled(env, s, a)
  }

  function BodyData(log: seq<BuilderCall>): Data {
    if log == [] then [] else (if log[0].Body? then log[0].data else []) + BodyData(log[1..])
  }

  lemma {:induction false} BodyDataOfBodies(chunks: seq<Data>)
    ensures BodyData(Bodies(chunks) + [Eom]) == Concat(chunks)
  {
    if chunks == [] {
      assert [] + [Eom] == [Eom] && [Eom][1..] == [];
    } else {
      var calls := Bodies(chunks) + [Eom];
      assert calls[1..] == Bodies(chunks[1..]) + [Eom] && calls[0] == Body(chunks[0]);
      BodyDataOfBodies(chunks[1..]);
    }
  }

  lemma IssuedIsWellFormed(env: Env, s: State)
    ensures !s.earlyFault ==> WellFormedLog(Issued(env, s))
    ensures s.earlyFault && s.worker.Finished? ==> Issued(env, s) == [Eom]
  {
    var bodies := Bodies(Deliver(s.done, env.slack));
    NoEomInBodies(Deliver(s.done, env.slack));
    hide Deliver, Bodies, StatusOf;
    var calls := Opened(env, s.done);
    assert calls == [Headers(StatusOf(env), [])] + bodies;
    forall i | 0 < i < |calls| ensures calls[i].Body? {
      assert calls[i] == bodies[i - 1] && bodies[i - 1] in bodies;
    }
    assert [] + [Eom] == [Eom];
  }

  /** In every interleaving with no exception before the headers, the builder sees one header, then bodies,
      then at most one end of message, and no run-time check fails. */
  lemma ResponseIsWellFormed(env: Env, actions: seq<Action>)
    requires env.size > 0 && After(env, actions).Some? && !After(env, actions).value.earlyFault
    ensures var s := After(env, actions).value;
      WellFormedLog(s.h.log) && forall a :: Enabled(env, s, a) ==> !CheckFails(env, s, a)
  {
    var s := After(env, actions).value;
    InvAlways(env, actions);
    IssuedIsWellFormed(env, s);
    hide Issued, Pending, After;
    assert s.h.log <= Issued(env, s);
    PrefixIsWellFormed(s.h.log, Issued(env, s));
  }

  lemma PrefixIsWellFormed(a: seq<BuilderCall>, b: seq<BuilderCall>)
    requires a <= b && WellFormedLog(b)
    ensures WellFormedLog(a)
  {
    forall i | 0 <= i < |a| ensures if i == 0 then a[i].Headers? else a[i].Body? || (a[i].Eom? && i == |a| - 1) {
      assert a[i] == b[i];
    }
  }

  /** A failing run-time check means exactly that something was thrown before the headers. */
  lemma CheckFailsIff(env: Env, actions: seq<Action>, a: Action)
    requires env.size > 0 && After(env, actions).Some? && Enabled(env, After(env, actions).value, a)
    ensures var s := After(env, actions).value;
      CheckFails(env, s, a) <==> a.Work? && s.worker.Finishing? && s.earlyFault
  {
    InvAlways(env, actions);
  }

  /** Deletion is the last thing that happens: no closure is left and no thread takes another step. */
  lemma NothingAfterDeletion(env: Env, actions: seq<Action>)
    requires env.size > 0 && After(env, actions).Some? && After(env, actions).value.h.deleted
    ensures Terminal(env, After(env, actions).value) && Eom in After(env, actions).value.h.log
  {
    InvAlways(env, actions);
    EomIsLast(env, After(env, actions).value);
  }

  /** How a response starts, and all of it where no file is opened. */
  lemma OpenedIs(env: Env, done: seq<Data>)
    requires env.size > 0 && done <= AllReads(env)
    ensures var log := Opened(env, done) + [Eom];
      match env.request
      case NotRegularFile => log == [Headers(404, []), Eom]
      case NotModified => log == [Headers(304, []), Eom]
      case OpenFails => log == [Headers(404, []), Eom]
      case Opens(_) => log[0] == Headers(200, [])
  {
    hide Reads;
    if !env.request.Opens? { assert done == [] && Bodies(Deliver(done, env.slack)) == []; }
  }

  /** A run that can go no further has sent the whole response, ended it, and deleted the handler. */
  lemma TerminalIsComplete(env: Env, actions: seq<Action>)
    requires env.size > 0 && After(env, actions).Some? && Terminal(env, After(env, actions).value)
    ensures var s := After(env, actions).value;
      && s.h.deleted
      && (WellFormedLog(s.h.log) <==> !s.earlyFault)
      && (!s.earlyFault ==> s.h.log == Opened(env, s.done) + [Eom] && s.done <= AllReads(env))
      && (!s.faulted ==> s.done == AllReads(env))
    ensures var s := After(env, actions).value;
      !s.earlyFault ==>
        && s.h.log != []
        && match env.request
           case NotRegularFile => s.h.log == [Headers(404, []), Eom]
           case NotModified => s.h.log == [Headers(304, []), Eom]
           case OpenFails => s.h.log == [Headers(404, []), Eom]
           case Opens(_) => s.h.log[0] == Headers(200, [])
  {
    var s := After(env, actions).value;
    InvAlways(env, actions);
    IssuedIsWellFormed(env, s);
    assert !Enabled(env, s, Work) && !Enabled(env, s, RunClosure) && !Enabled(env, s, Complete);
    EomIsLast(env, s);
    if !s.earlyFault { OpenedIs(env, s.done); }
    hide Opened, AllReads;
    assert s.h.log + [] == s.h.log;
  }

  /** An undisturbed response to a readable file carries the file, exactly when buffers have no slack. */
  lemma FileIsConserved(env: Env, actions: seq<Action>)
    requires env.size > 0 && env.request.Opens? && After(env, actions).Some?
    requires Terminal(env, After(env, actions).value) && !After(env, actions).value.faulted
    ensures BodyData(After(env, actions).value.h.log) == env.request.file <==> NoSlack(env.slack, |AllReads(env)|)
  {
    var s := After(env, actions).value;
    TerminalIsComplete(env, actions);
    InvAlways(env, actions);
    hide After, Terminal, Deliver, Bodies, BodyData, Concat, NoSlack, Reads, Issued, Pending;
    var chunks := Deliver(AllReads(env), env.slack);
    ConservesIff(env.request.file, env.size, env.slack);
    LogData(env, chunks, s.h.log);
  }

  lemma LogData(env: Env, chunks: seq<Data>, log: seq<BuilderCall>)
    requires log == [Headers(StatusOf(env), [])] + Bodies(chunks) + [Eom]
    ensures BodyData(log) == Concat(chunks)
  {
    BodyDataOfBodies(chunks);
    hide Bodies;
    assert log[1..] == Bodies(chunks) + [Eom];
  }

  // ----- Every run is finite

  function WorkLeft(env: Env, w: Worker): nat {
    match w
    case Starting => |FileOf(env)| + 4
    case Reading(pos, eof) => 2 + if eof || pos > |FileOf(env)| then 0 else |FileOf(env)| - pos + 1
    case Finishing => 1
    case Finished => 0
  }

  /** Bounds the steps still to come. */
  function Rank(env: Env, s: State): nat {
    3 * WorkLeft(env, s.worker) + |s.h.queue| + if s.completed then 0 else 2
  }

  lemma StepDecreasesRank(env: Env, s: State, a: Action)
    requires env.size > 0 && Inv(env, s) && Enabled(env, s, a)
    ensures Rank(env, Step(env, s, a)) < Rank(env, s)
  {
    hide Issued, Opened, Pending, Reads, ReadAt, AllReads;
    if a.Work? && s.worker.Reading? { ReadAtSplits(FileOf(env), s.worker.pos, env.size); }
  }

  /** No interleaving takes more than Rank(Init) steps, so every run reaches a terminal state. */
  lemma {:induction false} RunsAreBounded(env: Env, actions: seq<Action>)
    requires env.size > 0 && After(env, actions).Some?
    ensures |actions| + Rank(env, After(env, actions).value) <= Rank(env, Init())
    decreases |actions|
  {
    if actions != [] {
      var before := actions[..|actions| - 1];
      RunsAreBounded(env, before);
      InvAlways(env, before);
      StepDecreasesRank(env, After(env, before).value, actions[|actions| - 1]);
    }
  }

  /** An exception before the headers ends the message without any: the one way a response goes wrong. */
  lemma EarlyFaultExample(size: nat, file: Data, slack: Slack)
    requires size > 0
    ensures var env := Env(Opens(file), size, slack);
      && After(env, [Fault, Work, RunClosure]).Some?
      && After(env, [Fault, Work, RunClosure]).value.h.log == [Eom]
  {
    var env := Env(Opens(file), size, slack);
    var s1 := Step(env, Init(), Fault);
    var s2 := Step(env, s1, Work);
    assert [Fault][..0] == [] && After(env, [Fault]) == Some(s1);
    assert [Fault, Work][..1] == [Fault] && After(env, [Fault, Work]) == Some(s2);
    assert [Fault, Work, RunClosure][..2] == [Fault, Work];
  }

  lemma AfterStep(env: Env, actions: seq<Action>, a: Action)
    requires After(env, actions).Some? && Enabled(env, After(env, actions).value, a)
    ensures After(env, actions + [a]) == Some(Step(env, After(env, actions).value, a))
  {
    assert (actions + [a])[..|actions|] == actions;
  }

  /** One byte of slack: a complete, undisturbed response to an empty file carries that byte. */
  lemma SlackExample(size: nat, b: bv8) returns (actions: seq<Action>)
    requires size > 0
    ensures var env := Env(Opens([]), size, i => [b]);
      && After(env, actions).Some?
      && var s := After(env, actions).value;
         Terminal(env, s) && !s.faulted && s.h.log == [Headers(200, []), Body([b]), Eom]
  {
    hide After;
    var env := Env(Opens([]), size, i => [b]);
    var none: Data := [];
    assert none + [b] == [b];
    actions := [];
    AfterNothing(env);
    AfterStep(env, actions, Work);
    actions := actions + [Work];
    assert After(env, actions).value.worker == Reading(0, false);
    AfterStep(env, actions, Work);
    actions := actions + [Work];
    assert After(env, actions).value.worker == Reading(0, true);
    assert After(env, actions).value.h.queue == [Respond(Headers(200, [])), Respond(Body([b]))];
    AfterStep(env, actions, Work);
    actions := actions + [Work];
    AfterStep(env, actions, Work);
    actions := actions + [Work];
    assert After(env, actions).value.h ==
           Handler(true, [Respond(Headers(200, [])), Respond(Body([b])), Respond(Eom)], [], false);
    AfterStep(env, actions, RunClosure);
    actions := actions + [RunClosure];
    AfterStep(env, actions, RunClosure);
    actions := actions + [RunClosure];
    AfterStep(env, actions, RunClosure);
    actions := actions + [RunClosure];
    assert After(env, actions).value.h == Handler(true, [], [Headers(200, []), Body([b]), Eom], false);
    AfterStep(env, actions, Complete);
    actions := actions + [Complete];
    AfterStep(env, actions, RunClosure);
    actions := actions + [RunClosure];
    assert After(env, actions).value.h == Handler(true, [], [Headers(200, []), Body([b]), Eom], true);
  }

  lemma AfterNothing(env: Env)
    ensures After(env, []) == Some(Init())
  {
  }
}
