/** Client and helper together: callers, the two pipes, the helper's request queue
    and its eight workers, each taking, applying and answering requests in its own
    time. The pipes carry bytes, which each reader parses for itself; a writer that
    fails may leave part of a frame behind. Only the order in which workers touch the store is an order at all, and
    the proofs say what that order guarantees to callers. */
module EndToEnd {
  import opened Arith
  import opened Records
  import opened Store
  import opened Wire
  import opened Payloads
  import opened Mux

  datatype Worker = Idle | Took(req: Frame) | Answering(resp: Resp)

  /** Where a request is. */
  datatype Stage = Unsent | InPipe | Queued | AtWorker(w: nat) | Applied

  /** What each id asked for, and where it is. */
  type Asked = map<nat, Frame>
  type Stages = map<nat, Stage>

  /** One application of a request to the store. */
  datatype Entry = Entry(req: Frame, before: Contents, after: Contents, resp: Resp)

  /** asked, issued, stage and log are history: what each id asked for, how many
      requests had been applied when it was issued, where it is, and every
      application in order. */
  datatype Sys = Sys(mux: Mux.State,
                     toHelper: Bytes, writeErr: bool, queue: seq<Frame>, workers: seq<Worker>,
                     toClient: Bytes, respErr: bool, store: Contents,
                     asked: Asked, issued: map<nat, nat>, stage: Stages, log: seq<Entry>)

  function RespOf(f: Frame): Resp
  {
    Resp(f.id, f.code, f.body)
  }

  function FrameOf(r: Resp): Frame
  {
    Frame(r.status, r.id, r.body)
  }

  const WORKERS: nat := 8

  datatype Event =
    | DoCall(c: nat, op: byte, payload: Bytes)
    | DoWrite(c: nat, ok: bool, n: nat)   // n bytes of the frame reach the pipe
    | DoMux(step: Mux.Step)               // Receive, Lookup, Send or Fail
    | DoReadFrame                         // the client reader takes the next response
    | HelperRead                          // the helper's reader loop queues the next request
    | WorkerTake(w: nat)
    | WorkerApply(w: nat)
    | WorkerRespond(w: nat, n: nat)       // n bytes of the frame reach the pipe

  predicate Start(s: Sys, m: Contents)
  {
    && Mux.Init(s.mux) && s.toHelper == [] && s.queue == [] && s.toClient == [] && s.store == m
    && !s.writeErr && !s.respErr
    && s.workers == seq(WORKERS, _ => Idle)
    && s.asked == map[] && s.issued == map[] && s.stage == map[] && s.log == []
  }

  ghost predicate Calls(s: Sys, c: nat, op: byte, payload: Bytes, s': Sys)
  {
    var id := s.mux.core.nextID;
    && Mux.Next(s.mux, Mux.Call(c), s'.mux)
    && if s.mux.core.readErr then s' == s.(mux := s'.mux)
       else s' == s.(mux := s'.mux,
                     asked := s.asked[id := Frame(op, id, payload)],
                     issued := s.issued[id := |s.log|],
                     stage := s.stage[id := Unsent])
  }

  /** A failed write has put a proper prefix of the frame on the pipe, and every later
      write fails too. */
  ghost predicate Writes(s: Sys, c: nat, ok: bool, n: nat, s': Sys)
  {
    && Mux.Next(s.mux, Mux.Write(c, ok), s'.mux)
    && var id := s.mux.callers[c].id;
    && id in s.asked
    && var bytes := Encode(Requests, s.asked[id]);
    && if s.writeErr then !ok && s' == s.(mux := s'.mux)
       else
         && n <= |bytes| && (ok <==> n == |bytes|)
         && s' == s.(mux := s'.mux, toHelper := s.toHelper + bytes[..n], writeErr := !ok,
                     stage := if ok then s.stage[id := InPipe] else s.stage)
  }

  ghost predicate Reads(s: Sys, s': Sys)
  {
    && FirstFrame(Responses, s.toClient).Some?
    && var (f, n) := FirstFrame(Responses, s.toClient).value;
    && Mux.Next(s.mux, Mux.ReadFrame(RespOf(f)), s'.mux)
    && s' == s.(mux := s'.mux, toClient := s.toClient[n..])
  }

  ghost predicate Queues(s: Sys, s': Sys)
  {
    && FirstFrame(Requests, s.toHelper).Some?
    && var (f, n) := FirstFrame(Requests, s.toHelper).value;
    && s' == s.(toHelper := s.toHelper[n..], queue := s.queue + [f], stage := s.stage[f.id := Queued])
  }

  ghost predicate Takes(s: Sys, w: nat, s': Sys)
  {
    && w < |s.workers| && s.workers[w].Idle? && s.queue != []
    && s' == s.(queue := s.queue[1..], workers := s.workers[w := Took(s.queue[0])],
                stage := s.stage[s.queue[0].id := AtWorker(w)])
  }

  ghost predicate Applies(s: Sys, w: nat, s': Sys, scan: Scan)
  {
    && w < |s.workers| && s.workers[w].Took?
    && var req := s.workers[w].req;
    && Handle(s.store, scan, req.code, req.body).Some?
    && var (m, status, body) := Handle(s.store, scan, req.code, req.body).value;
    && var resp := Resp(req.id, status, body);
    && s' == s.(store := m, workers := s.workers[w := Answering(resp)],
                stage := s.stage[req.id := Applied], log := s.log + [Entry(req, s.store, m, resp)])
  }

  /** A response may be cut short too, if the helper is stopped; nothing follows it. */
  ghost predicate Responds(s: Sys, w: nat, n: nat, s': Sys)
  {
    && w < |s.workers| && s.workers[w].Answering? && !s.respErr
    && var bytes := Encode(Responses, FrameOf(s.workers[w].resp));
    && n <= |bytes|
    && s' == s.(workers := s.workers[w := Idle], toClient := s.toClient + bytes[..n], respErr := n < |bytes|)
  }

  ghost predicate Move(s: Sys, e: Event, s': Sys, scan: Scan)
  {
    match e
    case DoCall(c, op, payload) => Calls(s, c, op, payload, s')
    case DoWrite(c, ok, n) => Writes(s, c, ok, n, s')
    case DoMux(step) =>
      && (step.Receive? || step.Lookup? || step.Send? || step.Fail?)
      && Mux.Next(s.mux, step, s'.mux) && s' == s.(mux := s'.mux)
    case DoReadFrame => Reads(s, s')
    case HelperRead => Queues(s, s')
    case WorkerTake(w) => Takes(s, w, s')
    case WorkerApply(w) => Applies(s, w, s', scan)
    case WorkerRespond(w, n) => Responds(s, w, n, s')
  }

  ghost predicate Run(states: seq<Sys>, events: seq<Event>, m: Contents, scan: Scan)
  {
    && |states| == |events| + 1 && Start(states[0], m)
    && forall i | 0 <= i < |events| :: Move(states[i], events[i], states[i + 1], scan)
  }

  /** The bodies that go into frames are under 2^32 bytes. */
  predicate Small(s: Sys, e: Event)
  {
    && (e.DoCall? ==> Short(e.payload))
    && (e.WorkerRespond? && e.w < |s.workers| && s.workers[e.w].Answering? ==> Short(s.workers[e.w].resp.body))
  }

  ghost predicate SmallRun(states: seq<Sys>, events: seq<Event>, m: Contents, scan: Scan)
  {
    && Run(states, events, m, scan)
    && forall i | 0 <= i < |events| :: Small(states[i], events[i])
  }

  // ---- the invariant ----

  /** Every id handed out has its history. */
  ghost predicate AskedOk(asked: Asked, issued: map<nat, nat>, stage: Stages, nextID: nat, applied: nat)
  {
    && asked.Keys == issued.Keys == stage.Keys
    && forall id | id in asked :: id < nextID && asked[id].id == id && Fits(asked[id]) && issued[id] <= applied
  }

  /** Callers have ids with a history; one that has not written is Unsent. */
  ghost predicate CallersOk(asked: Asked, stage: Stages, callers: map<nat, Caller>)
  {
    && (forall c | c in callers && HasId(callers[c]) :: callers[c].id in asked)
    && (forall c | c in callers && callers[c].Writing? :: callers[c].id in stage && stage[callers[c].id] == Unsent)
  }

  ghost predicate HistoryOk(s: Sys)
  {
    && AskedOk(s.asked, s.issued, s.stage, s.mux.core.nextID, |s.log|)
    && CallersOk(s.asked, s.stage, s.mux.callers)
  }

  /** The frames of a pipe or queue are the requests at that stage, each once. */
  ghost predicate LineOk(asked: Asked, stage: Stages, line: seq<Frame>, at: Stage)
  {
    && (forall i | 0 <= i < |line| :: IsAt(asked, stage, line[i], at))
    && (forall i, j | 0 <= i < |line| && 0 <= j < |line| && line[i].id == line[j].id :: i == j)
  }

  ghost predicate IsAt(asked: Asked, stage: Stages, req: Frame, at: Stage)
  {
    req.id in asked && req == asked[req.id] && req.id in stage && stage[req.id] == at
  }

  ghost predicate WorkersOk(asked: Asked, stage: Stages, workers: seq<Worker>)
  {
    && |workers| == WORKERS
    && forall w | 0 <= w < WORKERS && workers[w].Took? :: IsAt(asked, stage, workers[w].req, AtWorker(w))
  }

  /** The entry is the result of its request on the store it found, applied after
      it was issued. */
  ghost predicate EntryOk(asked: Asked, issued: map<nat, nat>, stage: Stages, e: Entry, j: nat, scan: Scan)
  {
    && IsAt(asked, stage, e.req, Applied)
    && e.req.id in issued && issued[e.req.id] <= j
    && Handle(e.before, scan, e.req.code, e.req.body) == Some((e.after, e.resp.status, e.resp.body))
    && e.resp.id == e.req.id
  }

  /** Entries chain from the first store to the current one, one per request. */
  ghost predicate Chained(log: seq<Entry>, m: Contents, store: Contents)
  {
    && (forall j | 0 < j < |log| :: log[j].before == log[j - 1].after)
    && (log == [] ==> store == m)
    && (log != [] ==> log[0].before == m && log[|log| - 1].after == store)
  }

  ghost predicate Once(log: seq<Entry>)
  {
    forall i, j | 0 <= i < |log| && 0 <= j < |log| && log[i].req.id == log[j].req.id :: i == j
  }

  ghost predicate LogOk(s: Sys, m: Contents, scan: Scan)
  {
    && (forall j | 0 <= j < |s.log| :: EntryOk(s.asked, s.issued, s.stage, s.log[j], j, scan))
    && Once(s.log) && Chained(s.log, m, s.store)
  }

  ghost predicate Logged(log: seq<Entry>, resp: Resp)
  {
    exists j :: 0 <= j < |log| && log[j].resp == resp
  }

  /** Every response on the helper's side came out of an application. */
  ghost predicate HelperRespsOk(log: seq<Entry>, workers: seq<Worker>, toClient: seq<Frame>)
  {
    && (forall w | 0 <= w < |workers| && workers[w].Answering? :: Logged(log, workers[w].resp))
    && (forall i | 0 <= i < |toClient| :: Logged(log, RespOf(toClient[i])))
  }

  /** So did every response on the client's side. */
  ghost predicate ClientRespsOk(log: seq<Entry>, mux: Mux.State)
  {
    && (mux.pump.Got? || mux.pump.Holding? ==> Logged(log, mux.pump.resp))
    && (forall ch | ch in mux.core.chans && mux.core.chans[ch].slot.Some? :: Logged(log, mux.core.chans[ch].slot.value))
    && (forall c | c in mux.callers && mux.callers[c].Done? && mux.callers[c].outcome.Answer? ::
          Logged(log, mux.callers[c].outcome.resp))
  }

  ghost predicate SysInv(s: Sys, m: Contents, scan: Scan)
  {
    && Mux.Inv(s.mux) && HistoryOk(s) && InStep(s)
    && LineOk(s.asked, s.stage, Parse(Requests, s.toHelper), InPipe) && LineOk(s.asked, s.stage, s.queue, Queued)
    && WorkersOk(s.asked, s.stage, s.workers) && LogOk(s, m, scan)
    && HelperRespsOk(s.log, s.workers, Parse(Responses, s.toClient)) && ClientRespsOk(s.log, s.mux)
  }

  /** Until a writer fails its pipe holds whole frames only. */
  ghost predicate InStep(s: Sys)
  {
    && (!s.writeErr ==> Rest(Requests, s.toHelper) == [])
    && (!s.respErr ==> Rest(Responses, s.toClient) == [])
  }

  // ---- what a change of stage leaves alone ----

  /** Requests at stage `at` keep their place and their history. */
  ghost predicate Keeps(asked: Asked, stage: Stages, asked': Asked, stage': Stages, at: Stage)
  {
    forall id | id in asked && id in stage && stage[id] == at ::
      id in asked' && asked'[id] == asked[id] && id in stage' && stage'[id] == at
  }

  lemma LineKept(asked: Asked, stage: Stages, asked': Asked, stage': Stages, line: seq<Frame>, at: Stage)
    requires LineOk(asked, stage, line, at) && Keeps(asked, stage, asked', stage', at)
    ensures LineOk(asked', stage', line, at)
  {
  }

  lemma WorkersKept(asked: Asked, stage: Stages, asked': Asked, stage': Stages, workers: seq<Worker>)
    requires WorkersOk(asked, stage, workers)
    requires forall w | 0 <= w < WORKERS && workers[w].Took? :: Keeps(asked, stage, asked', stage', AtWorker(w))
    ensures WorkersOk(asked', stage', workers)
  {
  }

  lemma LogKept(s: Sys, s': Sys, m: Contents, scan: Scan)
    requires LogOk(s, m, scan) && s'.log == s.log && s'.store == s.store
    requires Keeps(s.asked, s.stage, s'.asked, s'.stage, Applied)
    requires forall id | id in s.issued :: id in s'.issued && s'.issued[id] == s.issued[id]
    ensures LogOk(s', m, scan)
  {
  }

  lemma LoggedGrows(log: seq<Entry>, e: Entry)
    ensures Logged(log + [e], e.resp)
    ensures forall resp | Logged(log, resp) :: Logged(log + [e], resp)
  {
    assert (log + [e])[|log|] == e;
    forall resp | Logged(log, resp)
      ensures Logged(log + [e], resp)
    {
      var j :| 0 <= j < |log| && log[j].resp == resp;
      assert (log + [e])[j].resp == resp;
    }
  }

  // ---- the client's moves ----

  /** Client steps move responses around and make none up. */
  lemma ClientRespsKept(log: seq<Entry>, mux: Mux.State, step: Mux.Step, mux': Mux.State)
    requires ClientRespsOk(log, mux) && Mux.Next(mux, step, mux')
    requires step.ReadFrame? ==> Logged(log, step.resp)
    ensures ClientRespsOk(log, mux')
  {
  }

  lemma FreshKeeps(asked: Asked, stage: Stages, id: nat, f: Frame, at: Stage)
    requires id !in asked
    ensures Keeps(asked, stage, asked[id := f], stage[id := Unsent], at)
    ensures Keeps(asked, stage, asked, stage, at)
  {
  }

  lemma CallMove(s: Sys, c: nat, op: byte, payload: Bytes, s': Sys, m: Contents, scan: Scan)
    requires SysInv(s, m, scan) && Calls(s, c, op, payload, s') && Short(payload)
    ensures SysInv(s', m, scan)
  {
    hide Parse, Rest, Mux.Inv, LineOk, WorkersOk, LogOk, ClientRespsOk, HelperRespsOk, Keeps, HistoryOk;
    var id := s.mux.core.nextID;
    CallHistory(s, c, op, payload, s');
    IdFresh(s);
    Mux.InvNext(s.mux, Mux.Call(c), s'.mux);
    ClientRespsKept(s.log, s.mux, Mux.Call(c), s'.mux);
    forall at: Stage
      ensures Keeps(s.asked, s.stage, s'.asked, s'.stage, at)
    {
      FreshKeeps(s.asked, s.stage, id, Frame(op, id, payload), at);
    }
    LineKept(s.asked, s.stage, s'.asked, s'.stage, Parse(Requests, s.toHelper), InPipe);
    LineKept(s.asked, s.stage, s'.asked, s'.stage, s.queue, Queued);
    WorkersKept(s.asked, s.stage, s'.asked, s'.stage, s.workers);
    LogKept(s, s', m, scan);
  }

  lemma IdFresh(s: Sys)
    requires HistoryOk(s)
    ensures s.mux.core.nextID !in s.asked && s.mux.core.nextID !in s.issued && s.mux.core.nextID !in s.stage
  {
  }

  lemma CallHistory(s: Sys, c: nat, op: byte, payload: Bytes, s': Sys)
    requires HistoryOk(s) && Calls(s, c, op, payload, s') && Short(payload)
    ensures HistoryOk(s')
    ensures forall id | id in s.issued :: id in s'.issued && s'.issued[id] == s.issued[id]
  {
    hide Mux.Next, AskedOk, CallersOk;
    CallCallers(s.mux, c, s'.mux);
    var id := s.mux.core.nextID;
    AskedOne(s.asked, s.issued, s.stage, id, |s.log|, Frame(op, id, payload));
    CallersOne(s.asked, s.stage, s.mux.callers, c, id, Frame(op, id, payload));
  }

  lemma AskedOne(asked: Asked, issued: map<nat, nat>, stage: Stages, id: nat, applied: nat, f: Frame)
    requires AskedOk(asked, issued, stage, id, applied)
    ensures f.id == id && Fits(f) ==>
              AskedOk(asked[id := f], issued[id := applied], stage[id := Unsent], id + 1, applied)
    ensures id !in issued && id !in asked && id !in stage
  {
  }

  lemma CallersOne(asked: Asked, stage: Stages, callers: map<nat, Caller>, c: nat, id: nat, f: Frame)
    requires CallersOk(asked, stage, callers) && c !in callers
    ensures CallersOk(asked, stage, callers[c := Refused])
    ensures CallersOk(asked[id := f], stage[id := Unsent], callers[c := Writing(id)])
  {
  }

  lemma CallCallers(mux: Mux.State, c: nat, mux': Mux.State)
    requires Mux.Next(mux, Mux.Call(c), mux')
    ensures mux.core.nextID < U64 && c !in mux.callers
    ensures mux'.core.nextID == mux.core.nextID + (if mux.core.readErr then 0 else 1)
    ensures mux'.callers == mux.callers[c := if mux.core.readErr then Refused else Writing(mux.core.nextID)]
  {
  }

  lemma WriteMove(s: Sys, c: nat, ok: bool, n: nat, s': Sys, m: Contents, scan: Scan)
    requires SysInv(s, m, scan) && Writes(s, c, ok, n, s')
    ensures SysInv(s', m, scan)
  {
    hide Parse, Rest, Encode, WorkersOk, LogOk, ClientRespsOk, HelperRespsOk, WaitOk, PumpOk, ChansOk, CallerOk;
    var id := s.mux.callers[c].id;
    assert s.stage[id] == Unsent;
    Mux.InvNext(s.mux, Mux.Write(c, ok), s'.mux);
    ClientRespsKept(s.log, s.mux, Mux.Write(c, ok), s'.mux);
    LineKept(s.asked, s.stage, s'.asked, s'.stage, Parse(Requests, s.toHelper), InPipe);
    LineKept(s.asked, s.stage, s'.asked, s'.stage, s.queue, Queued);
    WorkersKept(s.asked, s.stage, s'.asked, s'.stage, s.workers);
    LogKept(s, s', m, scan);
    WritePipe(s, c, ok, n, s');
    WriteLine(s, c, ok, s', Parse(Requests, s.toHelper), Parse(Requests, s'.toHelper));
  }

  lemma WritePipe(s: Sys, c: nat, ok: bool, n: nat, s': Sys)
    requires HistoryOk(s) && Writes(s, c, ok, n, s') && (!s.writeErr ==> Rest(Requests, s.toHelper) == [])
    ensures !s'.writeErr ==> Rest(Requests, s'.toHelper) == []
    ensures var line, req := Parse(Requests, s.toHelper), s.asked[s.mux.callers[c].id];
            Parse(Requests, s'.toHelper) == if ok then line + [req] else line
  {
    hide Parse, Rest, Encode;
    if !s.writeErr {
      WriteBytes(Requests, s.toHelper, s.asked[s.mux.callers[c].id], n);
    }
  }

  /** Writing n bytes of a frame behind whole frames adds the frame or nothing. */
  lemma WriteBytes(d: Direction, pipe: Bytes, f: Frame, n: nat)
    requires Rest(d, pipe) == [] && Fits(f) && n <= |Encode(d, f)|
    ensures var pipe' := pipe + Encode(d, f)[..n];
            if n == |Encode(d, f)| then Parse(d, pipe') == Parse(d, pipe) + [f] && Rest(d, pipe') == []
            else Parse(d, pipe') == Parse(d, pipe)
  {
    hide Parse, Rest, Encode;
    WholeOrCut(d, f, n);
    ParseAppend(d, pipe, Encode(d, f)[..n]);
  }

  lemma WriteLine(s: Sys, c: nat, ok: bool, s': Sys, line: seq<Frame>, line': seq<Frame>)
    requires Mux.Inv(s.mux) && HistoryOk(s) && LineOk(s.asked, s.stage, line, InPipe)
    requires Mux.Next(s.mux, Mux.Write(c, ok), s'.mux)
    requires LineOk(s'.asked, s'.stage, line, InPipe)
    requires s'.asked == s.asked && s'.issued == s.issued && s'.log == s.log
    requires var id := s.mux.callers[c].id;
             && id in s.asked
             && if ok then line' == line + [s.asked[id]] && s'.stage == s.stage[id := InPipe]
                else line' == line && s'.stage == s.stage
    ensures LineOk(s'.asked, s'.stage, line', InPipe) && HistoryOk(s')
  {
    hide WaitOk, PumpOk, ChansOk, CallerOk;
    var id := s.mux.callers[c].id;
    forall i | 0 <= i < |line|
      ensures line[i].id != id
    {
      assert IsAt(s.asked, s.stage, line[i], InPipe);
    }
    forall i | 0 <= i < |line'|
      ensures IsAt(s'.asked, s'.stage, line'[i], InPipe)
    {
      assert i < |line| ==> IsAt(s'.asked, s'.stage, line[i], InPipe);
    }
  }

  lemma MuxMove(s: Sys, step: Mux.Step, s': Sys, m: Contents, scan: Scan)
    requires SysInv(s, m, scan) && Mux.Next(s.mux, step, s'.mux)
    requires step.Receive? || step.Lookup? || step.Send? || step.Fail? || step.ReadFrame?
    requires step.ReadFrame? ==> Logged(s.log, step.resp)
    requires s' == s.(mux := s'.mux, toClient := s'.toClient)
    requires HelperRespsOk(s'.log, s'.workers, Parse(Responses, s'.toClient)) && InStep(s')
    ensures SysInv(s', m, scan)
  {
    hide Parse, Mux.Inv, LineOk, WorkersOk, Logged, EntryOk, Chained, Once, HelperRespsOk, InStep;
    Mux.InvNext(s.mux, step, s'.mux);
    ClientRespsKept(s.log, s.mux, step, s'.mux);
    assert HistoryOk(s');
    assert LogOk(s', m, scan);
  }

  lemma ReadMove(s: Sys, s': Sys, m: Contents, scan: Scan)
    requires SysInv(s, m, scan) && Reads(s, s')
    ensures SysInv(s', m, scan)
  {
    hide Parse, Rest, FirstFrame, Mux.Inv, LineOk, WorkersOk, LogOk, HistoryOk, ClientRespsOk, Logged;
    ParseStep(Responses, s.toClient);
    var line := Parse(Responses, s.toClient);
    var f := FirstFrame(Responses, s.toClient).value.0;
    assert line[0] == f && line[1..] == Parse(Responses, s'.toClient);
    MuxMove(s, Mux.ReadFrame(RespOf(f)), s', m, scan);
  }

  // ---- the helper's moves ----

  lemma QueueMove(s: Sys, s': Sys, m: Contents, scan: Scan)
    requires SysInv(s, m, scan) && Queues(s, s')
    ensures SysInv(s', m, scan)
  {
    hide Parse, Rest, Encode, FirstFrame, Mux.Inv, WorkersOk, LogOk, ClientRespsOk, HelperRespsOk;
    var line := Parse(Requests, s.toHelper);
    ParseStep(Requests, s.toHelper);
    var req := line[0];
    assert line[1..] == Parse(Requests, s'.toHelper) && IsAt(s.asked, s.stage, req, InPipe);
    LineKept(s.asked, s.stage, s'.asked, s'.stage, s.queue, Queued);
    WorkersKept(s.asked, s.stage, s'.asked, s'.stage, s.workers);
    LogKept(s, s', m, scan);
    LineMoved(s.asked, s.stage, line, InPipe, Queued);
    LineJoined(s.asked, s'.stage, s.queue, req, Queued, s.stage);
  }

  /** Taking the head off a line leaves the rest in place. */
  lemma LineMoved(asked: Asked, stage: Stages, line: seq<Frame>, at: Stage, next: Stage)
    requires line != [] && LineOk(asked, stage, line, at) && next != at
    ensures LineOk(asked, stage[line[0].id := next], line[1..], at)
  {
  }

  /** A request joins a line it was not in. */
  lemma LineJoined(asked: Asked, stage': Stages, line: seq<Frame>, req: Frame, at: Stage, stage: Stages)
    requires LineOk(asked, stage, line, at) && LineOk(asked, stage', line, at) && IsAt(asked, stage', req, at)
    requires req.id in stage && stage[req.id] != at
    ensures LineOk(asked, stage', line + [req], at)
  {
  }

  lemma TakeMove(s: Sys, w: nat, s': Sys, m: Contents, scan: Scan)
    requires SysInv(s, m, scan) && Takes(s, w, s')
    ensures SysInv(s', m, scan)
  {
    hide Parse, Rest, Encode, FirstFrame, Mux.Inv, LogOk, ClientRespsOk, Logged, LineOk;
    HeadIsAt(s.asked, s.stage, s.queue, Queued);
    LineKept(s.asked, s.stage, s'.asked, s'.stage, Parse(Requests, s.toHelper), InPipe);
    LineMoved(s.asked, s.stage, s.queue, Queued, AtWorker(w));
    TakeWorkers(s, w, s'.stage);
    LogKept(s, s', m, scan);
  }

  lemma HeadIsAt(asked: Asked, stage: Stages, line: seq<Frame>, at: Stage)
    requires line != [] && LineOk(asked, stage, line, at)
    ensures IsAt(asked, stage, line[0], at)
  {
  }

  lemma TakeWorkers(s: Sys, w: nat, stage': Stages)
    requires WorkersOk(s.asked, s.stage, s.workers) && w < WORKERS && s.workers[w].Idle?
    requires s.queue != [] && IsAt(s.asked, s.stage, s.queue[0], Queued)
    requires stage' == s.stage[s.queue[0].id := AtWorker(w)]
    ensures WorkersOk(s.asked, stage', s.workers[w := Took(s.queue[0])])
  {
  }

  lemma ApplyMove(s: Sys, w: nat, s': Sys, m: Contents, scan: Scan)
    requires SysInv(s, m, scan) && Applies(s, w, s', scan)
    ensures SysInv(s', m, scan)
  {
    hide Parse, Rest, Encode, FirstFrame, Mux.Inv, Handle, Logged, LineOk, LogOk;
    var req := s.workers[w].req;
    assert IsAt(s.asked, s.stage, req, AtWorker(w));
    LineKept(s.asked, s.stage, s'.asked, s'.stage, Parse(Requests, s.toHelper), InPipe);
    LineKept(s.asked, s.stage, s'.asked, s'.stage, s.queue, Queued);
    ApplyWorkers(s, w, s'.stage, s'.workers);
    ApplyLog(s, w, s', m, scan);
    LoggedGrows(s.log, s'.log[|s.log|]);
  }

  lemma ApplyWorkers(s: Sys, w: nat, stage': Stages, workers': seq<Worker>)
    requires WorkersOk(s.asked, s.stage, s.workers) && w < WORKERS && s.workers[w].Took?
    requires stage' == s.stage[s.workers[w].req.id := Applied] && |workers'| == WORKERS && workers'[w].Answering?
    requires forall v | 0 <= v < WORKERS && v != w :: workers'[v] == s.workers[v]
    ensures WorkersOk(s.asked, stage', workers')
  {
  }

  lemma ApplyLog(s: Sys, w: nat, s': Sys, m: Contents, scan: Scan)
    requires SysInv(s, m, scan) && Applies(s, w, s', scan)
    ensures LogOk(s', m, scan)
  {
    hide Parse, Rest, Encode, FirstFrame, Mux.Inv, Handle, LineOk, HelperRespsOk, ClientRespsOk;
    var req, n := s.workers[w].req, |s.log|;
    assert IsAt(s.asked, s.stage, req, AtWorker(w));
    forall j | 0 <= j < |s'.log|
      ensures EntryOk(s'.asked, s'.issued, s'.stage, s'.log[j], j, scan) && (j < n ==> s'.log[j].req.id != req.id)
    {
      if j < n {
        assert s'.log[j] == s.log[j] && EntryOk(s.asked, s.issued, s.stage, s.log[j], j, scan);
      } else {
        var en := s'.log[n];
        assert en.req == req && en.before == s.store;
        assert IsAt(s'.asked, s'.stage, req, Applied);
        assert req.id in s'.issued && s'.issued[req.id] <= n;
        var r := Handle(s.store, scan, req.code, req.body);
        assert en == Entry(req, s.store, r.value.0, Resp(req.id, r.value.1, r.value.2));
        assert r.value == (r.value.0, r.value.1, r.value.2);
      }
    }
  }

  lemma RespondMove(s: Sys, w: nat, n: nat, s': Sys, m: Contents, scan: Scan)
    requires SysInv(s, m, scan) && Responds(s, w, n, s') && Short(s.workers[w].resp.body)
    ensures SysInv(s', m, scan)
  {
    hide Parse, Rest, Encode, FirstFrame, Handle, Logged, Mux.Inv, LineOk, Chained, Once, EntryOk;
    var f := FrameOf(s.workers[w].resp);
    LoggedFits(s, m, scan, s.workers[w].resp);
    WriteBytes(Responses, s.toClient, f, n);
    assert RespOf(f) == s.workers[w].resp;
  }

  lemma LoggedFits(s: Sys, m: Contents, scan: Scan, resp: Resp)
    requires HistoryOk(s) && LogOk(s, m, scan) && Logged(s.log, resp)
    ensures resp.id < U64
  {
    var j :| 0 <= j < |s.log| && s.log[j].resp == resp;
    assert EntryOk(s.asked, s.issued, s.stage, s.log[j], j, scan);
  }

  lemma SysInvMove(s: Sys, e: Event, s': Sys, m: Contents, scan: Scan)
    requires SysInv(s, m, scan) && Move(s, e, s', scan) && Small(s, e)
    ensures SysInv(s', m, scan)
  {
    hide SysInv, Calls, Writes, Reads, Queues, Takes, Applies, Mux.Next;
    match e
    case DoCall(c, op, payload) => CallMove(s, c, op, payload, s', m, scan);
    case DoWrite(c, ok, n) => WriteMove(s, c, ok, n, s', m, scan);
    case DoMux(step) => ClientMove(s, step, s', m, scan);
    case DoReadFrame => ReadMove(s, s', m, scan);
    case HelperRead => QueueMove(s, s', m, scan);
    case WorkerTake(w) => TakeMove(s, w, s', m, scan);
    case WorkerApply(w) => ApplyMove(s, w, s', m, scan);
    case WorkerRespond(w, n) => RespondMove(s, w, n, s', m, scan);
  }

  lemma ClientMove(s: Sys, step: Mux.Step, s': Sys, m: Contents, scan: Scan)
    requires SysInv(s, m, scan) && Move(s, DoMux(step), s', scan)
    ensures SysInv(s', m, scan)
  {
    hide Parse, Rest, Mux.Inv, LineOk, WorkersOk, LogOk, HistoryOk, ClientRespsOk, Logged, Mux.Next;
    MuxMove(s, step, s', m, scan);
  }

  lemma {:induction false} RunInv(states: seq<Sys>, events: seq<Event>, m: Contents, scan: Scan, i: nat)
    requires SmallRun(states, events, m, scan) && i < |states|
    ensures SysInv(states[i], m, scan)
  {
    hide Move, Small;
    if i == 0 {
      assert Mux.Inv(states[0].mux);
    } else {
      RunInv(states, events, m, scan, i - 1);
      SysInvMove(states[i - 1], events[i - 1], states[i], m, scan);
    }
  }

  // ---- what whole runs guarantee ----

  /** History is only added to: log entries, what an id asked, when it was issued,
      and which id a caller has. */
  ghost predicate Later(s: Sys, s': Sys)
  {
    && s.log <= s'.log
    && (forall id | id in s.asked :: id in s'.asked && s'.asked[id] == s.asked[id])
    && (forall id | id in s.issued :: id in s'.issued && s'.issued[id] == s.issued[id])
    && CallersLater(s.mux.callers, s'.mux.callers)
  }

  ghost predicate CallersLater(callers: map<nat, Caller>, callers': map<nat, Caller>)
  {
    forall c | c in callers ::
      && c in callers' && (callers[c].Refused? <==> callers'[c].Refused?)
      && (HasId(callers[c]) ==> callers'[c].id == callers[c].id)
  }

  lemma MuxLater(mux: Mux.State, step: Mux.Step, mux': Mux.State)
    requires Mux.Next(mux, step, mux')
    ensures CallersLater(mux.callers, mux'.callers)
    ensures forall c | c in mux'.callers && c !in mux.callers ::
              && step == Mux.Call(c)
              && (HasId(mux'.callers[c]) ==> !mux.core.readErr && mux'.callers[c].id == mux.core.nextID)
  {
  }

  lemma MoveLater(s: Sys, e: Event, s': Sys, m: Contents, scan: Scan)
    requires SysInv(s, m, scan) && Move(s, e, s', scan)
    ensures Later(s, s')
    ensures forall c | c in s'.mux.callers && c !in s.mux.callers ::
              && e.DoCall? && e.c == c
              && var k := s'.mux.callers[c];
              && (HasId(k) ==> k.id in s'.issued && s'.issued[k.id] == |s.log|)
  {
    hide Parse, Rest, Mux.Inv, HistoryOk, LineOk, WorkersOk, LogOk, ClientRespsOk, HelperRespsOk, InStep;
    hide Handle, CallersLater, Mux.Next, Calls, Writes;
    match e
    case DoCall(c, op, payload) => CallLater(s, c, op, payload, s');
    case DoWrite(c, ok, n) => WriteLater(s, c, ok, n, s');
    case DoMux(step) => MuxLater(s.mux, step, s'.mux);
    case DoReadFrame => MuxLater(s.mux, Mux.ReadFrame(RespOf(FirstFrame(Responses, s.toClient).value.0)), s'.mux);
    case _ => CallersSame(s.mux.callers);
  }

  lemma CallLater(s: Sys, c: nat, op: byte, payload: Bytes, s': Sys)
    requires HistoryOk(s) && Calls(s, c, op, payload, s')
    ensures Later(s, s')
    ensures forall d | d in s'.mux.callers && d !in s.mux.callers ::
              && d == c
              && var k := s'.mux.callers[d];
              && (HasId(k) ==> k.id in s'.issued && s'.issued[k.id] == |s.log|)
  {
    hide HistoryOk, CallersLater, Mux.Next;
    IdFresh(s);
    MuxLater(s.mux, Mux.Call(c), s'.mux);
  }

  lemma WriteLater(s: Sys, c: nat, ok: bool, n: nat, s': Sys)
    requires Writes(s, c, ok, n, s')
    ensures Later(s, s') && s'.mux.callers.Keys == s.mux.callers.Keys
  {
    hide CallersLater, Encode;
    MuxLater(s.mux, Mux.Write(c, ok), s'.mux);
  }

  lemma CallersSame(callers: map<nat, Caller>)
    ensures CallersLater(callers, callers)
  {
  }

  lemma LaterTrans(s: Sys, t: Sys, u: Sys)
    requires Later(s, t) && Later(t, u)
    ensures Later(s, u)
  {
  }

  lemma LaterSelf(s: Sys)
    ensures Later(s, s)
  {
  }

  lemma {:induction false} RunLater(states: seq<Sys>, events: seq<Event>, m: Contents, scan: Scan, i: nat, k: nat)
    requires SmallRun(states, events, m, scan) && i <= k < |states|
    ensures Later(states[i], states[k])
    decreases k
  {
    hide Move, SysInv, Later;
    if i == k {
      LaterSelf(states[i]);
    } else {
      RunLater(states, events, m, scan, i, k - 1);
      RunInv(states, events, m, scan, k - 1);
      MoveLater(states[k - 1], events[k - 1], states[k], m, scan);
      LaterTrans(states[i], states[k - 1], states[k]);
    }
  }

  /** Every request is applied at most once, and the store is the log replayed: each
      entry starts from the store its predecessor left. */
  lemma AppliedOnceInOrder(states: seq<Sys>, events: seq<Event>, m: Contents, scan: Scan, i: nat)
    requires SmallRun(states, events, m, scan) && i < |states|
    ensures Once(states[i].log) && Chained(states[i].log, m, states[i].store)
  {
    RunInv(states, events, m, scan, i);
  }

  /** An answered call holds the result of its own operation, as the helper computed
      it at the one moment the operation was applied, whichever of the eight workers
      did it and in whatever order the answers came back. */
  lemma AnswerIsOwn(states: seq<Sys>, events: seq<Event>, m: Contents, scan: Scan, i: nat, k: nat) returns (j: nat)
    requires SmallRun(states, events, m, scan) && i < k < |states| && events[i].DoCall?
    requires var c := events[i].c;
             && c in states[k].mux.callers && states[k].mux.callers[c].Done? && states[k].mux.callers[c].outcome.Answer?
    ensures j < |states[k].log|
    ensures var resp, en := states[k].mux.callers[events[i].c].outcome.resp, states[k].log[j];
            && en.req.code == events[i].op && en.req.body == events[i].payload
            && en.req.id == states[k].mux.callers[events[i].c].id
            && Handle(en.before, scan, events[i].op, events[i].payload) == Some((en.after, resp.status, resp.body))
  {
    hide Handle, LineOk, WorkersOk, Mux.Inv, Chained, Once;
    var c, s := events[i].c, states[k];
    var id := states[i].mux.core.nextID;
    RunLater(states, events, m, scan, i + 1, k);
    assert Move(states[i], events[i], states[i + 1], scan);
    assert states[i + 1].mux.callers[c] == Writing(id);
    assert states[i + 1].asked[id] == Frame(events[i].op, id, events[i].payload);
    RunInv(states, events, m, scan, k);
    var resp := s.mux.callers[c].outcome.resp;
    AnswerId(s.mux, c);
    j :| 0 <= j < |s.log| && s.log[j].resp == resp;
    assert EntryOk(s.asked, s.issued, s.stage, s.log[j], j, scan);
  }

  lemma AnswerId(mux: Mux.State, c: nat)
    requires Mux.Inv(mux) && c in mux.callers && mux.callers[c].Done? && mux.callers[c].outcome.Answer?
    ensures mux.callers[c].outcome.resp.id == mux.callers[c].id
  {
  }

  lemma SettledMove(s: Sys, e: Event, s': Sys, m: Contents, scan: Scan, c: nat)
    requires SysInv(s, m, scan) && Move(s, e, s', scan)
    requires Settled(s.mux, c) || (e.DoWrite? && e.c == c && e.ok)
    ensures Settled(s'.mux, c)
  {
    hide Parse, Rest, Encode, FirstFrame, Mux.Inv, LineOk, WorkersOk, LogOk, ClientRespsOk, HelperRespsOk, InStep;
    hide Handle, Mux.Next, HistoryOk, Settled;
    match e
    case DoCall(d, _, _) => SettledNext(s.mux, Mux.Call(d), s'.mux, c);
    case DoWrite(d, ok, _) => SettledNext(s.mux, Mux.Write(d, ok), s'.mux, c);
    case DoMux(step) => SettledNext(s.mux, step, s'.mux, c);
    case DoReadFrame =>
      SettledNext(s.mux, Mux.ReadFrame(RespOf(FirstFrame(Responses, s.toClient).value.0)), s'.mux, c);
    case _ =>
  }

  lemma {:induction false} SettledRun(states: seq<Sys>, events: seq<Event>, m: Contents, scan: Scan, j: nat, k: nat)
    requires SmallRun(states, events, m, scan) && j < k < |states| && events[j].DoWrite? && events[j].ok
    ensures Settled(states[k].mux, events[j].c)
    decreases k
  {
    hide Move, Small, SysInv, Settled;
    RunInv(states, events, m, scan, k - 1);
    if j < k - 1 {
      SettledRun(states, events, m, scan, j, k - 1);
    }
    SettledMove(states[k - 1], events[k - 1], states[k], m, scan, events[j].c);
  }

  /** A call whose request was written and which has returned, the reader being alive,
      holds the result of its own operation. */
  lemma WrittenCallIsAnswered(states: seq<Sys>, events: seq<Event>, m: Contents, scan: Scan, i: nat, j: nat, k: nat)
      returns (resp: Resp, at: nat)
    requires SmallRun(states, events, m, scan) && i < j < k < |states| && events[i].DoCall?
    requires events[j].DoWrite? && events[j].c == events[i].c && events[j].ok
    requires var s, c := states[k], events[i].c;
             c in s.mux.callers && s.mux.callers[c].Done? && !s.mux.core.readErr
    ensures var s := states[k];
            && s.mux.callers[events[i].c].outcome == Answer(resp) && at < |s.log|
            && s.log[at].req == Frame(events[i].op, s.mux.callers[events[i].c].id, events[i].payload)
            && Handle(s.log[at].before, scan, events[i].op, events[i].payload)
               == Some((s.log[at].after, resp.status, resp.body))
  {
    hide Handle;
    SettledRun(states, events, m, scan, j, k);
    resp := states[k].mux.callers[events[i].c].outcome.resp;
    at := AnswerIsOwn(states, events, m, scan, i, k);
  }

  /** A call issued after state i sees at least the applications of state i. */
  lemma {:induction false} IssuedLate(states: seq<Sys>, events: seq<Event>, m: Contents, scan: Scan,
                                      i: nat, k: nat, b: nat)
    requires SmallRun(states, events, m, scan) && i <= k < |states|
    requires b !in states[i].mux.callers && b in states[k].mux.callers && HasId(states[k].mux.callers[b])
    ensures var id := states[k].mux.callers[b].id; id in states[k].issued && states[k].issued[id] >= |states[i].log|
    decreases k
  {
    hide Move, SysInv;
    var s := states[k - 1];
    RunInv(states, events, m, scan, k - 1);
    MoveLater(s, events[k - 1], states[k], m, scan);
    if b in s.mux.callers {
      IssuedLate(states, events, m, scan, i, k - 1, b);
    } else {
      RunLater(states, events, m, scan, i, k - 1);
    }
  }

  /** If call a had returned its answer before call b was issued, then a was applied
      to the store before b. */
  lemma RealTimeOrder(states: seq<Sys>, events: seq<Event>, m: Contents, scan: Scan,
                      i: nat, k: nat, a: nat, b: nat, ja: nat, jb: nat)
    requires SmallRun(states, events, m, scan) && i <= k < |states|
    requires a in states[i].mux.callers && states[i].mux.callers[a].Done? && states[i].mux.callers[a].outcome.Answer?
    requires b !in states[i].mux.callers && b in states[k].mux.callers && HasId(states[k].mux.callers[b])
    requires ja < |states[k].log| && states[k].log[ja].req.id == states[i].mux.callers[a].id
    requires jb < |states[k].log| && states[k].log[jb].req.id == states[k].mux.callers[b].id
    ensures ja < jb
  {
    hide Handle, LineOk, WorkersOk, Mux.Inv, Chained, Move;
    var s, t := states[i], states[k];
    RunInv(states, events, m, scan, i);
    RunInv(states, events, m, scan, k);
    RunLater(states, events, m, scan, i, k);
    IssuedLate(states, events, m, scan, i, k, b);
    AnswerId(s.mux, a);
    var j0 :| 0 <= j0 < |s.log| && s.log[j0].resp == s.mux.callers[a].outcome.resp;
    assert EntryOk(s.asked, s.issued, s.stage, s.log[j0], j0, scan);
    assert t.log[j0] == s.log[j0];
    assert EntryOk(t.asked, t.issued, t.stage, t.log[jb], jb, scan);
  }

  // ---- the 32-bit limit is exact ----

  /** A request written whole behind whole requests is what the helper will read behind
      them exactly when its payload is under 2^32 bytes. */
  lemma RequestReadBackIff(s: Sys, c: nat, n: nat, s': Sys)
    requires Writes(s, c, true, n, s') && Rest(Requests, s.toHelper) == []
    requires s.asked[s.mux.callers[c].id].id < U64
    ensures var req := s.asked[s.mux.callers[c].id];
            Parse(Requests, s'.toHelper) == Parse(Requests, s.toHelper) + [req] <==> Short(req.body)
  {
    hide Parse, Rest, Encode;
    var bytes := Encode(Requests, s.asked[s.mux.callers[c].id]);
    assert bytes[..n] == bytes;
    FrameSurvivesIff(Requests, s.toHelper, s.asked[s.mux.callers[c].id]);
  }

  /** Likewise a response and its body. */
  lemma ResponseReadBackIff(s: Sys, w: nat, n: nat, s': Sys)
    requires Responds(s, w, n, s') && !s'.respErr && Rest(Responses, s.toClient) == []
    requires s.workers[w].resp.id < U64
    ensures var resp := s.workers[w].resp;
            Parse(Responses, s'.toClient) == Parse(Responses, s.toClient) + [FrameOf(resp)] <==> Short(resp.body)
  {
    hide Parse, Rest, Encode;
    var bytes := Encode(Responses, FrameOf(s.workers[w].resp));
    assert bytes[..n] == bytes;
    FrameSurvivesIff(Responses, s.toClient, FrameOf(s.workers[w].resp));
  }

  function Zeros(n: nat): (b: Bytes)
    ensures |b| == n && forall i | 0 <= i < n :: b[i] == 0
  {
    seq(n, _ => 0)
  }

  /** The payload of a Get whose key is 2^32 zero bytes. */
  function HugeGet(): Bytes
  {
    Field(Zeros(U32))
  }

  /** Its length fields say 4 and 0: the helper reads a Get of the empty key, and then
      thirteen zero bytes of the key as a second request under the same id. */
  lemma HugeGetSplits()
    ensures var s := Encode(Requests, Frame(OP_GET, 0, HugeGet()));
            && FirstFrame(Requests, s) == Some((Frame(OP_GET, 0, Zeros(4)), 17))
            && FirstFrame(Requests, s[17..]) == Some((Frame(0, 0, []), 13))
  {
    hide LE, FromLE;
    var z, s := Zeros(U32), Encode(Requests, Frame(OP_GET, 0, HugeGet()));
    ZeroLE(8);
    ZeroLE(4);
    HugeLengths();
    var hdr := s[..HEADER];
    assert hdr == [OP_GET] + Zeros(8) + [4, 0, 0, 0];
    assert hdr[9..13] == [4, 0, 0, 0] && hdr[1..9] == Zeros(8);
    assert s[13..17] == Zeros(4) && s[17..] == z;
    ZeroFrame(z);
  }

  lemma ZeroFrame(z: Bytes)
    requires |z| >= HEADER && forall i | 0 <= i < |z| :: z[i] == 0
    ensures FirstFrame(Requests, z) == Some((Frame(0, 0, []), 13))
  {
    hide LE, FromLE;
    ZeroLE(8);
    ZeroLE(4);
    var hdr := z[..HEADER];
    assert hdr[9..13] == Zeros(4) && hdr[1..9] == Zeros(8) && z[13..13] == [];
  }

  lemma {:induction false} ZeroLE(w: nat)
    ensures LE(0, w) == Zeros(w) && FromLE(Zeros(w)) == 0
  {
    if w > 0 {
      ZeroLE(w - 1);
      assert Zeros(w)[1..] == Zeros(w - 1);
      assert Zeros(w) == [0] + Zeros(w - 1);
    }
  }

  lemma HugeLengths()
    ensures LE(U32 + 4, 4) == [4, 0, 0, 0] && LE(U32, 4) == Zeros(4) && FromLE([4, 0, 0, 0]) == 4
  {
    assert LE(U32 + 4, 4) == [4] + LE(0x100_0000, 3) && LE(0x100_0000, 3) == [0] + LE(0x1_0000, 2);
    assert LE(0x1_0000, 2) == [0] + LE(0x100, 1) && LE(0x100, 1) == [0];
    assert LE(U32, 4) == [0] + LE(0x100_0000, 3);
    ZeroLE(3);
    assert [4, 0, 0, 0][1..] == Zeros(3);
  }

  ghost predicate OneHugeGet(events: seq<Event>)
  {
    |events| > 0 && events[0] == DoCall(0, OP_GET, HugeGet()) && forall i | 0 < i < |events| :: !events[i].DoCall?
  }

  lemma Extend(states: seq<Sys>, events: seq<Event>, e: Event, s: Sys, m: Contents, scan: Scan)
    requires Run(states, events, m, scan) && OneHugeGet(events) && Move(states[|events|], e, s, scan) && !e.DoCall?
    ensures Run(states + [s], events + [e], m, scan) && OneHugeGet(events + [e])
  {
    hide Move, HugeGet;
  }

  lemma HugeGetArrives(m: Contents, scan: Scan) returns (states: seq<Sys>, events: seq<Event>)
    ensures Run(states, events, m, scan) && OneHugeGet(events)
    ensures var s := states[|events|];
            && s.queue == [Frame(OP_GET, 0, Zeros(4)), Frame(0, 0, [])]
            && s.workers == seq(WORKERS, _ => Idle) && s.log == [] && s.store == m
  {
    hide Encode, FirstFrame, HugeGet, Zeros, Reads, Takes, Applies, Responds;
    HugeGetSplits();
    var req := Frame(OP_GET, 0, HugeGet());
    var bytes := Encode(Requests, req);
    var core := Core(0, map[], false, map[]);
    var s0 := Sys(Mux.State(core, map[], Mux.Reading), [], false, [], seq(WORKERS, _ => Idle), [], false, m,
                  map[], map[], map[], []);
    var s1 := s0.(mux := Mux.State(Registered(core), map[0 := Mux.Writing(0)], Mux.Reading),
                  asked := map[0 := req], issued := map[0 := 0], stage := map[0 := Unsent]);
    var s2 := s1.(mux := s1.mux.(callers := s1.mux.callers[0 := Mux.Blocked(0)]),
                  toHelper := bytes, stage := s1.stage[0 := InPipe]);
    var s3 := s2.(toHelper := bytes[17..], queue := [Frame(OP_GET, 0, Zeros(4))], stage := s2.stage[0 := Queued]);
    var s4 := s3.(toHelper := bytes[17..][13..], queue := s3.queue + [Frame(0, 0, [])], stage := s3.stage[0 := Queued]);
    assert bytes[..|bytes|] == bytes && [] + bytes == bytes;
    states, events := [s0, s1], [DoCall(0, OP_GET, HugeGet())];
    assert Move(s0, events[0], s1, scan);
    Extend(states, events, DoWrite(0, true, |bytes|), s2, m, scan);
    states, events := states + [s2], events + [DoWrite(0, true, |bytes|)];
    Extend(states, events, HelperRead, s3, m, scan);
    states, events := states + [s3], events + [HelperRead];
    Extend(states, events, HelperRead, s4, m, scan);
    states, events := states + [s4], events + [HelperRead];
  }

  /** One Get with such a key, and nothing else, is applied twice: without the limit
      the guarantees fail. */
  lemma OversizeBreaks(m: Contents, scan: Scan) returns (states: seq<Sys>, events: seq<Event>)
    ensures Run(states, events, m, scan) && OneHugeGet(events)
    ensures !Once(states[|events|].log)
  {
    hide Zeros, Handle, Calls, Writes, Queues, HugeGet;
    states, events := HugeGetArrives(m, scan);
    HandlesBoth(m, scan);
    states, events := ServeHead(states, events, 0, m, scan);
    states, events := ServeHead(states, events, 1, m, scan);
    var log := states[|events|].log;
    assert log[0].req.id == log[1].req.id;
  }

  /** Worker w takes the head of the queue and applies it. */
  lemma ServeHead(states: seq<Sys>, events: seq<Event>, w: nat, m: Contents, scan: Scan)
      returns (states': seq<Sys>, events': seq<Event>)
    requires Run(states, events, m, scan) && OneHugeGet(events)
    requires var s := states[|events|];
             && w < |s.workers| && s.workers[w].Idle? && s.queue != []
             && Handle(s.store, scan, s.queue[0].code, s.queue[0].body).Some?
    ensures Run(states', events', m, scan) && OneHugeGet(events')
    ensures var s, s' := states[|events|], states'[|events'|];
            && s'.queue == s.queue[1..] && |s'.workers| == |s.workers|
            && (forall v | 0 <= v < |s.workers| && v != w :: s'.workers[v] == s.workers[v])
            && |s'.log| == |s.log| + 1 && s'.log[..|s.log|] == s.log && s'.log[|s.log|].req == s.queue[0]
            && s'.store == Handle(s.store, scan, s.queue[0].code, s.queue[0].body).value.0
  {
    assert |states| == |events| + 1;
    hide Run, OneHugeGet, Handle, Calls, Writes, Queues, Reads, Responds;
    var s := states[|events|];
    var req := s.queue[0];
    var (store, status, body) := Handle(s.store, scan, req.code, req.body).value;
    var resp := Resp(req.id, status, body);
    var s1 := s.(queue := s.queue[1..], workers := s.workers[w := Took(req)], stage := s.stage[req.id := AtWorker(w)]);
    var s2 := s1.(store := store, workers := s1.workers[w := Answering(resp)], stage := s1.stage[req.id := Applied],
                  log := s.log + [Entry(req, s.store, store, resp)]);
    Extend(states, events, WorkerTake(w), s1, m, scan);
    Extend(states + [s1], events + [WorkerTake(w)], WorkerApply(w), s2, m, scan);
    states', events' := states + [s1] + [s2], events + [WorkerTake(w)] + [WorkerApply(w)];
  }

  lemma HandlesBoth(m: Contents, scan: Scan)
    ensures Handle(m, scan, OP_GET, Zeros(4)).Some? && Handle(m, scan, OP_GET, Zeros(4)).value.0 == m
    ensures Handle(m, scan, 0, []) == Some((m, 255, []))
  {
    ZeroLE(4);
    assert Zeros(4)[0..4] == Zeros(4);
  }
}
