/** The streaming handler in place, and the file handler's read loop on top of it. */
module StreamingHandler {
  import opened FileChunks
  import opened P = StreamingProtocol

  class StreamingHTTPHandler {
    var sentHeaders: bool
    var queue: seq<Closure>
    var log: seq<BuilderCall>
    var deleted: bool

    ghost function Value(): Handler
      reads this
    {
      Handler(sentHeaders, queue, log, deleted)
    }

    constructor ()
      ensures Value() == Init().h
    {
      sentHeaders, queue, log, deleted := false, [], [], false;
    }

    method SendResponseHeaders(status: nat, body: Data)
      requires !sentHeaders
      modifies this
      ensures Value() == P.SendResponseHeaders(old(Value()), status, body)
    {
      sentHeaders := true;
      queue := queue + [Respond(Headers(status, body))];
    }

    method SendBody(data: Data)
      requires sentHeaders
      modifies this
      ensures Value() == P.SendBody(old(Value()), data)
    {
      if |data| == 0 {
        return;
      }
      queue := queue + [Respond(Body(data))];
    }

    method SendEOF()
      requires sentHeaders
      modifies this
      ensures Value() == P.SendEOF(old(Value()))
    {
      queue := queue + [Respond(Eom)];
    }

    method RequestComplete()
      modifies this
      ensures Value() == P.RequestComplete(old(Value()))
    {
      queue := queue + [DeleteSelf];
    }

    method RunNext()
      requires queue != []
      modifies this
      ensures Value() == P.RunNext(old(Value()))
    {
      match queue[0]
      case Respond(call) => queue, log := queue[1..], log + [call];
      case DeleteSelf => queue, deleted := queue[1..], true;
    }

    /** StreamingFileHandler's read loop: read, trim to what was read, send, until the end of the file. */
    method StreamFile(file: Data, size: nat, slack: Slack)
      requires size > 0 && sentHeaders
      modifies this
      ensures Value() == old(Value()).(queue := old(queue) + Posts(Bodies(Deliver(Reads(file, size), slack))))
    {
      hide ReadAt, Streamed, ReadSoFar, Reads, Deliver, Bodies, Posts;
      var pos: nat, eof, n: nat := 0, false, 0;
      ghost var done: seq<Data> := [];
      ghost var start := Value();
      NothingStreamed(start, file, size, slack);
      while !eof
        invariant pos <= |file| && sentHeaders && n == |done|
        invariant ReadSoFar(file, size, done, pos, eof)
        invariant Streamed(start, Value(), done, slack)
        decreases if eof then 0 else 1, |file| - pos
      {
        ReadOn(file, size, done, pos);
        var data := ReadAt(file, pos, size);
        StreamOn(start, Value(), done, data, slack);
        SendBody(data + slack(n));
        done := done + [data];
        pos, eof, n := pos + |data|, |data| < size, n + 1;
      }
      AllStreamed(start, Value(), file, size, done, pos, slack);
    }

    /** StreamingFileHandler::onEOM, with nothing thrown. */
    method OnEOM(request: Request, size: nat, slack: Slack)
      requires size > 0 && !sentHeaders
      modifies this
      ensures var env := Env(request, size, slack);
        Value() == old(Value()).(sentHeaders := true, queue := old(queue) + Posts(Opened(env, AllReads(env)) + [Eom]))
      ensures |queue| > |old(queue)| && match request
              case NotRegularFile => queue == old(queue) + [Respond(Headers(404, [])), Respond(Eom)]
              case NotModified => queue == old(queue) + [Respond(Headers(304, [])), Respond(Eom)]
              case OpenFails => queue == old(queue) + [Respond(Headers(404, [])), Respond(Eom)]
              case Opens(_) => queue[|old(queue)|] == Respond(Headers(200, []))
    {
      hide Reads, Deliver, Bodies, Posts;
      ghost var env, start := Env(request, size, slack), queue;
      match request {
        case NotRegularFile => SendResponseHeaders(404, []);
        case NotModified => SendResponseHeaders(304, []);
        case OpenFails => SendResponseHeaders(404, []);
        case Opens(file) => SendResponseHeaders(200, []);
      }
      assert queue == start + [Respond(Headers(StatusOf(env), []))];
      ghost var bodies := Posts(Bodies(Deliver(AllReads(env), slack)));
      if request.Opens? {
        StreamFile(request.file, size, slack);
      } else {
        NothingPosted(slack);
        assert queue + [] == queue;
      }
      SendEOF();
      AllPosts(env);
      assert start + ([Respond(Headers(StatusOf(env), []))] + bodies + [Respond(Eom)]) ==
             start + [Respond(Headers(StatusOf(env), []))] + bodies + [Respond(Eom)];
    }
  }

  /** The reads done, and those still to come unless the end was met, are all the reads of the file. */
  ghost predicate ReadSoFar(file: Data, size: nat, done: seq<Data>, pos: nat, eof: bool)
    requires size > 0 && pos <= |file|
  {
    Reads(file, size) == done + if eof then [] else Reads(file[pos..], size)
  }

  /** Exactly what the reads done deliver has been posted. */
  ghost predicate Streamed(start: Handler, now: Handler, done: seq<Data>, slack: Slack) {
    now == start.(queue := start.queue + Posts(Bodies(Deliver(done, slack))))
  }

  lemma NothingStreamed(start: Handler, file: Data, size: nat, slack: Slack)
    requires size > 0
    ensures ReadSoFar(file, size, [], 0, false) && Streamed(start, start, [], slack)
  {
    NothingPosted(slack);
    hide Reads, Posts, Bodies, Deliver;
    assert file[0..] == file && [] + Reads(file, size) == Reads(file, size);
    assert start.queue + [] == start.queue;
  }

  lemma ReadOn(file: Data, size: nat, done: seq<Data>, pos: nat)
    requires size > 0 && pos <= |file| && ReadSoFar(file, size, done, pos, false)
    ensures var data := ReadAt(file, pos, size);
      && pos + |data| <= |file| && (|data| >= size ==> pos + size <= |file|)
      && ReadSoFar(file, size, done + [data], pos + |data|, |data| < size)
  {
    hide Reads, ReadAt;
    ReadAtSplits(file, pos, size);
    var data := ReadAt(file, pos, size);
    var more := if |data| < size then [] else Reads(file[pos + |data|..], size);
    assert done + ([data] + more) == (done + [data]) + more;
  }

  lemma StreamOn(start: Handler, now: Handler, done: seq<Data>, data: Data, slack: Slack)
    requires Streamed(start, now, done, slack)
    ensures Streamed(start, P.SendBody(now, data + slack(|done|)), done + [data], slack)
  {
    PostsStep(done, data, slack);
    hide Posts, Bodies, Deliver;
    var posted, last := Posts(Bodies(Deliver(done, slack))), [Respond(Body(data + slack(|done|)))];
    assert start.queue + (posted + last) == (start.queue + posted) + last;
    assert posted + [] == posted;
  }

  lemma AllStreamed(start: Handler, now: Handler, file: Data, size: nat, done: seq<Data>, pos: nat, slack: Slack)
    requires size > 0 && pos <= |file| && ReadSoFar(file, size, done, pos, true) && Streamed(start, now, done, slack)
    ensures now == start.(queue := start.queue + Posts(Bodies(Deliver(Reads(file, size), slack))))
  {
    hide Reads, Posts, Bodies, Deliver;
    assert done + [] == done;
  }

  lemma NothingPosted(slack: Slack)
    ensures Posts(Bodies(Deliver([], slack))) == []
  {
  }

  lemma AllPosts(env: Env)
    requires env.size > 0
    ensures Posts(Opened(env, AllReads(env)) + [Eom]) ==
              [Respond(Headers(StatusOf(env), []))] + Posts(Bodies(Deliver(AllReads(env), env.slack))) + [Respond(Eom)]
  {
    PostsAppend([Headers(StatusOf(env), [])], Bodies(Deliver(AllReads(env), env.slack)));
    PostsAppend(Opened(env, AllReads(env)), [Eom]);
  }

  function Posts(calls: seq<BuilderCall>): (cs: seq<Closure>)
    ensures |cs| == |calls| && forall i :: 0 <= i < |cs| ==> cs[i] == Respond(calls[i])
  {
    seq(|calls|, i requires 0 <= i < |calls| => Respond(calls[i]))
  }

  lemma PostsAppend(a: seq<BuilderCall>, b: seq<BuilderCall>)
    ensures Posts(a + b) == Posts(a) + Posts(b)
  {
  }

  lemma PostsStep(done: seq<Data>, data: Data, slack: Slack)
    ensures var buffer := data + slack(|done|);
      Posts(Bodies(Deliver(done + [data], slack))) ==
        Posts(Bodies(Deliver(done, slack))) + if buffer == [] then [] else [Respond(Body(buffer))]
  {
    BodiesStep(done, data, slack);
    var buffer := data + slack(|done|);
    OnePost(Body(buffer));
    PostsAppend(Bodies(Deliver(done, slack)), if buffer == [] then [] else [Body(buffer)]);
    hide Deliver, Bodies, Posts;
  }

  lemma OnePost(call: BuilderCall)
    ensures Posts([call]) == [Respond(call)] && Posts([]) == []
  {
  }
}
