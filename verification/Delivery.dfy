/** Nothing is lost between client and helper: at every moment of a run each call whose
    request was written can be pointed at, somewhere between the request pipe and its
    caller's channel; some move takes it further; and every move uses up work, so that
    calls return. */
module Delivery {
  import opened Arith
  import opened Records
  import opened Store
  import opened Wire
  import opened Payloads
  import opened Mux
  import opened EndToEnd

  // ---- where a call is ----

  ghost predicate InLine(line: seq<Frame>, id: nat)
  {
    exists i :: 0 <= i < |line| && line[i].id == id
  }

  ghost predicate Replying(workers: seq<Worker>, id: nat)
  {
    exists w :: 0 <= w < |workers| && workers[w].Answering? && workers[w].resp.id == id
  }

  /** The response is at a worker, on the pipe or with the client's reader, unless the
      response pipe broke. */
  ghost predicate ReplyPending(s: Sys, id: nat)
  {
    || s.respErr
    || Replying(s.workers, id)
    || InLine(Parse(Responses, s.toClient), id)
    || (s.mux.pump.Got? && s.mux.pump.resp.id == id)
  }

  /** The request, or the response to it, is where its stage says. */
  ghost predicate Placed(s: Sys, id: nat)
    requires id in s.stage
  {
    match s.stage[id]
    case Unsent => true
    case InPipe => InLine(Parse(Requests, s.toHelper), id)
    case Queued => InLine(s.queue, id)
    case AtWorker(w) => w < |s.workers| && s.workers[w].Took? && s.workers[w].req.id == id
    case Applied => id in s.mux.core.wait ==> ReplyPending(s, id)
  }

  ghost predicate Sent(s: Sys, c: nat)
    requires c in s.mux.callers && s.mux.callers[c].Blocked?
  {
    s.mux.callers[c].id in s.stage && s.stage[s.mux.callers[c].id] != Unsent
  }

  ghost predicate Complete(s: Sys)
  {
    && (forall id | id in s.stage :: Placed(s, id))
    && (forall c | c in s.mux.callers && s.mux.callers[c].Blocked? :: Sent(s, c))
  }

  lemma LineGrows(line: seq<Frame>, f: Frame)
    ensures InLine(line + [f], f.id)
    ensures forall id | InLine(line, id) :: InLine(line + [f], id)
  {
    assert (line + [f])[|line|] == f;
    forall id | InLine(line, id)
      ensures InLine(line + [f], id)
    {
      var i :| 0 <= i < |line| && line[i].id == id;
      assert (line + [f])[i].id == id;
    }
  }

  lemma LineShrinks(line: seq<Frame>)
    requires line != []
    ensures forall id | InLine(line, id) :: id == line[0].id || InLine(line[1..], id)
  {
    forall id | InLine(line, id)
      ensures id == line[0].id || InLine(line[1..], id)
    {
      var i :| 0 <= i < |line| && line[i].id == id;
      assert i > 0 ==> line[1..][i - 1].id == id;
    }
  }

  /** Another worker's answer stays. */
  lemma ReplyStays(workers: seq<Worker>, w: nat, next: Worker)
    requires w < |workers|
    ensures forall id | Replying(workers, id) ::
              || Replying(workers[w := next], id)
              || (workers[w].Answering? && workers[w].resp.id == id)
    ensures next.Answering? ==> Replying(workers[w := next], next.resp.id)
  {
    var workers' := workers[w := next];
    assert workers'[w] == next;
    forall id | Replying(workers, id)
      ensures Replying(workers', id) || (workers[w].Answering? && workers[w].resp.id == id)
    {
      var v :| 0 <= v < |workers| && workers[v].Answering? && workers[v].resp.id == id;
      assert v != w ==> workers'[v] == workers[v];
    }
  }

  // ---- every move keeps it ----

  lemma CallComplete(s: Sys, c: nat, op: byte, payload: Bytes, s': Sys)
    requires HistoryOk(s) && Complete(s) && Calls(s, c, op, payload, s')
    ensures Complete(s')
  {
    hide Parse, InLine, Replying, AskedOk, Mux.Next;
    IdFresh(s);
    CallCallers(s.mux, c, s'.mux);
    CallWaits(s.mux, c, s'.mux);
    var next := s.mux.core.nextID;
    forall id | id in s'.stage
      ensures Placed(s', id)
    {
      assert id != next || s.mux.core.readErr ==> id in s.stage && s'.stage[id] == s.stage[id] && Placed(s, id);
    }
    forall d | d in s'.mux.callers && s'.mux.callers[d].Blocked?
      ensures Sent(s', d)
    {
      assert d != c && Sent(s, d);
    }
  }

  lemma CallWaits(mux: Mux.State, c: nat, mux': Mux.State)
    requires Mux.Next(mux, Mux.Call(c), mux')
    ensures mux'.pump == mux.pump && forall id | id in mux'.core.wait :: id in mux.core.wait || id == mux.core.nextID
  {
  }

  lemma WriteComplete(s: Sys, c: nat, ok: bool, n: nat, s': Sys)
    requires HistoryOk(s) && InStep(s) && Complete(s) && Writes(s, c, ok, n, s')
    ensures Complete(s')
  {
    hide Parse, Rest, Encode, InLine, Replying, Fits, DistinctIds;
    var id := s.mux.callers[c].id;
    WritePipe(s, c, ok, n, s');
    LineGrows(Parse(Requests, s.toHelper), s.asked[id]);
    assert forall i | i in s.stage :: Placed(s, i);
  }

  /** The reader and receiving callers take nothing from a call that still waits. */
  lemma MuxComplete(s: Sys, step: Mux.Step, s': Sys, scan: Scan)
    requires Complete(s) && Move(s, DoMux(step), s', scan)
    ensures Complete(s')
  {
    hide Parse, InLine, Replying;
    assert forall id | id in s.stage :: Placed(s, id);
  }

  lemma ReadComplete(s: Sys, s': Sys)
    requires Complete(s) && Reads(s, s')
    ensures Complete(s')
  {
    hide Parse, FirstFrame, InLine, Replying;
    ParseStep(Responses, s.toClient);
    var line := Parse(Responses, s.toClient);
    assert line[1..] == Parse(Responses, s'.toClient);
    LineShrinks(line);
    assert forall id | id in s.stage :: Placed(s, id);
  }

  lemma QueueComplete(s: Sys, s': Sys)
    requires Complete(s) && Queues(s, s')
    ensures Complete(s')
  {
    hide Parse, FirstFrame, InLine, Replying;
    ParseStep(Requests, s.toHelper);
    var line := Parse(Requests, s.toHelper);
    assert line[1..] == Parse(Requests, s'.toHelper);
    LineShrinks(line);
    LineGrows(s.queue, line[0]);
    assert forall id | id in s.stage :: Placed(s, id);
  }

  lemma TakeComplete(s: Sys, w: nat, s': Sys)
    requires Complete(s) && Takes(s, w, s')
    ensures Complete(s')
  {
    hide Parse, InLine, Replying;
    LineShrinks(s.queue);
    ReplyStays(s.workers, w, s'.workers[w]);
    assert forall id | id in s.stage :: Placed(s, id);
  }

  lemma ApplyComplete(s: Sys, w: nat, s': Sys, scan: Scan)
    requires Complete(s) && Applies(s, w, s', scan)
    ensures Complete(s')
  {
    hide Parse, InLine, Replying, Handle;
    ReplyStays(s.workers, w, s'.workers[w]);
    assert forall id | id in s.stage :: Placed(s, id);
  }

  lemma RespondComplete(s: Sys, w: nat, n: nat, s': Sys)
    requires Complete(s) && Responds(s, w, n, s') && Fits(FrameOf(s.workers[w].resp))
    requires Rest(Responses, s.toClient) == []
    ensures Complete(s')
  {
    hide Parse, Rest, Encode, InLine, Replying, Fits;
    var f := FrameOf(s.workers[w].resp);
    WriteBytes(Responses, s.toClient, f, n);
    LineGrows(Parse(Responses, s.toClient), f);
    ReplyStays(s.workers, w, Idle);
    assert forall id | id in s.stage :: Placed(s, id);
  }

  lemma CompleteMove(s: Sys, e: Event, s': Sys, m: Contents, scan: Scan)
    requires SysInv(s, m, scan) && Complete(s) && Move(s, e, s', scan) && Small(s, e)
    ensures Complete(s')
  {
    hide Complete, HistoryOk, LineOk, WorkersOk, ClientRespsOk, Mux.Inv, LogOk, Rest, Parse, Encode, Logged;
    match e
    case DoCall(c, op, payload) => CallComplete(s, c, op, payload, s');
    case DoWrite(c, ok, n) => WriteComplete(s, c, ok, n, s');
    case DoMux(step) => MuxComplete(s, step, s', scan);
    case DoReadFrame => ReadComplete(s, s');
    case HelperRead => QueueComplete(s, s');
    case WorkerTake(w) => TakeComplete(s, w, s');
    case WorkerApply(w) => ApplyComplete(s, w, s', scan);
    case WorkerRespond(w, n) =>
      LoggedFits(s, m, scan, s.workers[w].resp);
      RespondComplete(s, w, n, s');
  }

  lemma {:induction false} RunComplete(states: seq<Sys>, events: seq<Event>, m: Contents, scan: Scan, i: nat)
    requires SmallRun(states, events, m, scan) && i < |states|
    ensures SysInv(states[i], m, scan) && Complete(states[i])
  {
    hide Move, Small, SysInv;
    EndToEnd.RunInv(states, events, m, scan, i);
    if i > 0 {
      RunComplete(states, events, m, scan, i - 1);
      CompleteMove(states[i - 1], events[i - 1], states[i], m, scan);
    }
  }

  /** In every run within the frame limit a blocked caller's call is somewhere: its
      request on the pipe, in the queue or at a worker, its response at a worker, on
      the pipe or with the reader, or its channel has a value or is closed. */
  lemma NothingLost(states: seq<Sys>, events: seq<Event>, m: Contents, scan: Scan, i: nat, c: nat)
    requires SmallRun(states, events, m, scan) && i < |states| && !states[i].respErr
    requires c in states[i].mux.callers && states[i].mux.callers[c].Blocked?
    ensures var s := states[i];
            var id := s.mux.callers[c].id;
            || InLine(Parse(Requests, s.toHelper), id) || InLine(s.queue, id)
            || (exists w :: 0 <= w < |s.workers| && s.workers[w].Took? && s.workers[w].req.id == id)
            || Replying(s.workers, id) || InLine(Parse(Responses, s.toClient), id)
            || ((s.mux.pump.Got? || s.mux.pump.Holding?) && s.mux.pump.resp.id == id)
            || CanReceive(s.mux, c)
  {
    hide Parse, InLine, Replying, LineOk, WorkersOk, LogOk, ClientRespsOk, HelperRespsOk, HistoryOk, InStep;
    RunComplete(states, events, m, scan, i);
    var s := states[i];
    assert Sent(s, c) && Placed(s, s.mux.callers[c].id);
    assert CallerOk(s.mux, s.mux.callers[c]);
  }

  // ---- calls go on ----

  /** A move of the calls already made: not a new call, and no failure of a pipe. */
  predicate Advances(s: Sys, e: Event)
  {
    match e
    case DoCall(_, _, _) => false
    case DoWrite(_, ok, _) => ok
    case DoMux(step) => !step.Fail?
    case WorkerRespond(w, n) =>
      w < |s.workers| && s.workers[w].Answering? && n == |Encode(Responses, FrameOf(s.workers[w].resp))|
    case _ => true
  }

  /** No worker holds a request on which the helper panics. */
  ghost predicate NoPanic(s: Sys, scan: Scan)
  {
    forall w | 0 <= w < |s.workers| && s.workers[w].Took? ::
      Handle(s.store, scan, s.workers[w].req.code, s.workers[w].req.body).Some?
  }

  /** The client's own next move, if it has one. */
  lemma ClientCanMove(mux: Mux.State, c: nat) returns (step: Mux.Step, mux': Mux.State)
    requires Mux.Inv(mux) && c in mux.callers && mux.callers[c].Blocked?
    requires !mux.pump.Reading? || mux.callers[c].id !in mux.core.wait
    ensures Mux.Next(mux, step, mux') && (step.Receive? || step.Lookup? || step.Send?)
  {
    hide DistinctIds;
    var core := mux.core;
    assert CallerOk(mux, mux.callers[c]);
    if mux.pump.Got? {
      var id := mux.pump.resp.id;
      step := Mux.Lookup;
      mux' := mux.(core := Claimed(core, id),
                   pump := if id in core.wait then Holding(core.wait[id], mux.pump.resp) else Reading);
    } else if mux.pump.Holding? {
      step := Mux.Send;
      mux' := mux.(core := Delivered(core, mux.pump.ch, mux.pump.resp), pump := Reading);
    } else {
      var id := mux.callers[c].id;
      step := Mux.Receive(c);
      assert CanReceive(mux, c);
      var slot := core.chans[id].slot;
      mux' := if slot.Some?
              then mux.(core := Taken(core, id), callers := mux.callers[c := Done(id, Answer(slot.value))])
              else mux.(callers := mux.callers[c := Done(id, Error)]);
    }
  }

  /** The helper's next move, if it holds any request or response at all. */
  lemma HelperCanMove(s: Sys, scan: Scan) returns (e: Event, s': Sys)
    requires |s.workers| == WORKERS && NoPanic(s, scan) && !s.respErr
    requires || Parse(Requests, s.toHelper) != [] || s.queue != []
             || exists w :: 0 <= w < |s.workers| && !s.workers[w].Idle?
    ensures Move(s, e, s', scan) && Advances(s, e)
  {
    hide Encode, Handle;
    if w :| 0 <= w < |s.workers| && s.workers[w].Answering? {
      var bytes := Encode(Responses, FrameOf(s.workers[w].resp));
      e := WorkerRespond(w, |bytes|);
      s' := s.(workers := s.workers[w := Idle], toClient := s.toClient + bytes[..|bytes|], respErr := false);
    } else if w :| 0 <= w < |s.workers| && s.workers[w].Took? {
      var req := s.workers[w].req;
      var (m, status, body) := Handle(s.store, scan, req.code, req.body).value;
      var resp := Resp(req.id, status, body);
      e := WorkerApply(w);
      s' := s.(store := m, workers := s.workers[w := Answering(resp)],
               stage := s.stage[req.id := Applied], log := s.log + [Entry(req, s.store, m, resp)]);
    } else if s.queue != [] {
      e := WorkerTake(0);
      s' := s.(queue := s.queue[1..], workers := s.workers[0 := Took(s.queue[0])],
               stage := s.stage[s.queue[0].id := AtWorker(0)]);
    } else {
      var (f, n) := FirstFrame(Requests, s.toHelper).value;
      e := HelperRead;
      s' := s.(toHelper := s.toHelper[n..], queue := s.queue + [f], stage := s.stage[f.id := Queued]);
    }
  }

  /** In every run within the frame limit, while a caller is blocked and neither the
      response pipe nor a worker has failed, a move of the calls already made is
      possible. */
  lemma BlockedCanMove(states: seq<Sys>, events: seq<Event>, m: Contents, scan: Scan, i: nat, c: nat)
      returns (e: Event, s': Sys)
    requires SmallRun(states, events, m, scan) && i < |states|
    requires c in states[i].mux.callers && states[i].mux.callers[c].Blocked?
    requires !states[i].respErr && NoPanic(states[i], scan)
    ensures Move(states[i], e, s', scan) && Advances(states[i], e)
  {
    hide Parse, Mux.Next, Mux.Inv, LineOk, LogOk, ClientRespsOk, HelperRespsOk, HistoryOk, InStep, Move, Small, NoPanic;
    RunComplete(states, events, m, scan, i);
    var s := states[i];
    var id := s.mux.callers[c].id;
    assert Sent(s, c) && Placed(s, id);
    if !s.mux.pump.Reading? || id !in s.mux.core.wait {
      var step, mux' := ClientCanMove(s.mux, c);
      e, s' := DoMux(step), s.(mux := mux');
      ClientMoves(s, step, s', scan);
    } else if Parse(Responses, s.toClient) != [] {
      e, s' := ReaderCanMove(s, scan);
    } else {
      e, s' := HelperCanMove(s, scan);
    }
  }

  lemma ClientMoves(s: Sys, step: Mux.Step, s': Sys, scan: Scan)
    requires Mux.Next(s.mux, step, s'.mux) && s' == s.(mux := s'.mux)
    requires step.Receive? || step.Lookup? || step.Send?
    ensures Move(s, DoMux(step), s', scan)
  {
    hide Mux.Next;
  }

  lemma ReaderCanMove(s: Sys, scan: Scan) returns (e: Event, s': Sys)
    requires s.mux.pump.Reading? && Parse(Responses, s.toClient) != []
    ensures Move(s, e, s', scan) && Advances(s, e)
  {
    hide FromHeader, FromLE;
    var (f, n) := FirstFrame(Responses, s.toClient).value;
    e := DoReadFrame;
    s' := s.(mux := s.mux.(pump := Got(RespOf(f))), toClient := s.toClient[n..]);
  }

  // ---- and end ----

  ghost function Writers(callers: map<nat, Caller>): set<nat>
  {
    set c | c in callers && callers[c].Writing?
  }

  ghost function Waiters(callers: map<nat, Caller>): set<nat>
  {
    set c | c in callers && callers[c].Blocked?
  }

  function WorkerWork(w: Worker): nat
  {
    match w
    case Idle => 0
    case Took(_) => 5
    case Answering(_) => 4
  }

  ghost function WorkersWork(workers: seq<Worker>): nat
  {
    if workers == [] then 0 else WorkersWork(workers[..|workers| - 1]) + WorkerWork(workers[|workers| - 1])
  }

  function PumpWork(pump: Pump): nat
  {
    match pump
    case Dead => 0
    case Reading => 1
    case Holding(_, _) => 2
    case Got(_) => 3
  }

  /** An upper bound on the moves that can still happen without a new call. */
  ghost function Work(s: Sys): nat
  {
    9 * |Writers(s.mux.callers)| + |Waiters(s.mux.callers)| + PumpWork(s.mux.pump)
    + 7 * |Parse(Requests, s.toHelper)| + 6 * |s.queue| + WorkersWork(s.workers)
    + 3 * |Parse(Responses, s.toClient)|
  }

  lemma {:induction false} WorkersUpdate(workers: seq<Worker>, w: nat, next: Worker)
    requires w < |workers|
    ensures WorkersWork(workers[w := next]) == WorkersWork(workers) - WorkerWork(workers[w]) + WorkerWork(next)
  {
    var n := |workers| - 1;
    if w == n {
      assert workers[w := next][..n] == workers[..n];
    } else {
      WorkersUpdate(workers[..n], w, next);
      assert workers[w := next][..n] == workers[..n][w := next];
    }
  }

  /** What a client step does to the number of writing and blocked callers. */
  lemma CallerCounts(mux: Mux.State, step: Mux.Step, mux': Mux.State)
    requires Mux.Next(mux, step, mux') && !step.Call?
    ensures var ws, bs, ws', bs' :=
              |Writers(mux.callers)|, |Waiters(mux.callers)|, |Writers(mux'.callers)|, |Waiters(mux'.callers)|;
            match step
            case Write(_, ok) => ws' == ws - 1 && bs' == (if ok then bs + 1 else bs)
            case Receive(_) => ws' == ws && bs' == bs - 1
            case _ => ws' == ws && bs' == bs
  {
    var ws, bs := Writers(mux.callers), Waiters(mux.callers);
    if step.Write? {
      assert step.c in ws && Writers(mux'.callers) == ws - {step.c};
      assert Waiters(mux'.callers) == if step.ok then bs + {step.c} else bs;
    } else if step.Receive? {
      assert step.c in bs && Waiters(mux'.callers) == bs - {step.c} && Writers(mux'.callers) == ws;
    }
  }

  lemma WorkShrinks(s: Sys, e: Event, s': Sys, m: Contents, scan: Scan)
    requires SysInv(s, m, scan) && Move(s, e, s', scan) && Small(s, e) && !e.DoCall?
    ensures Work(s') < Work(s)
  {
    hide Parse, Rest, Encode, FirstFrame, Handle, Writers, Waiters, WorkersWork;
    hide Mux.Inv, LineOk, WorkersOk, LogOk, ClientRespsOk, HelperRespsOk, HistoryOk;
    match e
    case DoCall(_, _, _) =>
    case DoWrite(c, ok, n) =>
      CallerCounts(s.mux, Mux.Write(c, ok), s'.mux);
      WritePipe(s, c, ok, n, s');
    case DoMux(step) => CallerCounts(s.mux, step, s'.mux);
    case DoReadFrame =>
      CallerCounts(s.mux, Mux.ReadFrame(RespOf(FirstFrame(Responses, s.toClient).value.0)), s'.mux);
      ParseStep(Responses, s.toClient);
    case HelperRead => ParseStep(Requests, s.toHelper);
    case WorkerTake(w) => WorkersUpdate(s.workers, w, s'.workers[w]);
    case WorkerApply(w) => WorkersUpdate(s.workers, w, s'.workers[w]);
    case WorkerRespond(w, n) =>
      WorkersUpdate(s.workers, w, Idle);
      RespondPipe(s, w, n, s', m, scan);
  }

  lemma RespondPipe(s: Sys, w: nat, n: nat, s': Sys, m: Contents, scan: Scan)
    requires SysInv(s, m, scan) && Responds(s, w, n, s') && Short(s.workers[w].resp.body)
    ensures |Parse(Responses, s'.toClient)| <= |Parse(Responses, s.toClient)| + 1
  {
    hide Parse, Rest, Encode, LogOk, HistoryOk, Logged;
    LoggedFits(s, m, scan, s.workers[w].resp);
    WriteBytes(Responses, s.toClient, FrameOf(s.workers[w].resp), n);
  }

  /** In every run within the frame limit, the moves after any moment at which calls
      stop being made number at most the work outstanding then. With BlockedCanMove,
      every written call returns. */
  lemma {:induction false} CallsReturn(states: seq<Sys>, events: seq<Event>, m: Contents, scan: Scan, i: nat, k: nat)
    requires SmallRun(states, events, m, scan) && i <= k < |states|
    requires forall j | i <= j < k :: !events[j].DoCall?
    ensures k - i <= Work(states[i]) - Work(states[k])
    decreases k
  {
    hide Move, Small, SysInv, Work;
    if i < k {
      CallsReturn(states, events, m, scan, i, k - 1);
      EndToEnd.RunInv(states, events, m, scan, k - 1);
      WorkShrinks(states[k - 1], events[k - 1], states[k], m, scan);
    }
  }
}
