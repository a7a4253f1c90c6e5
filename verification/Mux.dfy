/** The Go side of the rustkv pipe: callers share one connection, each registers a
    one-slot channel under a fresh id, and a single reader goroutine fans responses
    back by id or, when the pipe ends, closes every channel still waiting. */
module Mux {
  import opened Arith
  import opened Records

  /** A response frame as the reader decoded it. */
  datatype Resp = Resp(id: nat, status: byte, body: Bytes)

  /** A Go channel of capacity one. */
  datatype Chan = Chan(slot: Option<Resp>, closed: bool)

  /** The fields under idmu, and the channels ever made, named by the id of the call
      that made them. */
  datatype Core = Core(nextID: nat, wait: map<nat, nat>, readErr: bool, chans: map<nat, Chan>)

  // ---- what each critical section does to the fields ----

  function Registered(c: Core): Core
  {
    c.(nextID := c.nextID + 1,
       wait := c.wait[c.nextID := c.nextID],
       chans := c.chans[c.nextID := Chan(None, false)])
  }

  function Claimed(c: Core, id: nat): Core
  {
    c.(wait := c.wait - {id})
  }

  function Failed(c: Core): Core
  {
    c.(readErr := true, wait := map[],
       chans := map ch | ch in c.chans :: if ch in c.wait.Values then c.chans[ch].(closed := true) else c.chans[ch])
  }

  function Delivered(c: Core, ch: nat, resp: Resp): Core
    requires ch in c.chans
  {
    c.(chans := c.chans[ch := c.chans[ch].(slot := Some(resp))])
  }

  function Taken(c: Core, ch: nat): Core
    requires ch in c.chans
  {
    c.(chans := c.chans[ch := c.chans[ch].(slot := None)])
  }

  /** The same sections as the code runs them, on the shared fields. */
  class Client {
    var nextID: nat
    var wait: map<nat, nat>
    var readErr: bool
    var chans: map<nat, Chan>

    ghost function Value(): Core
      reads this
    {
      Core(nextID, wait, readErr, chans)
    }

    constructor ()
      ensures Value() == Core(0, map[], false, map[])
    {
      nextID, wait, readErr, chans := 0, map[], false, map[];
    }

    /** The head of call: refuse after a read error, else take an id and wait. */
    method Register() returns (id: Option<nat>)
      modifies this
      ensures old(readErr) ==> id == None && Value() == old(Value())
      ensures !old(readErr) ==> id == Some(old(nextID)) && Value() == Registered(old(Value()))
    {
      if readErr {
        return None;
      }
      var mine := nextID;
      nextID := nextID + 1;
      chans := chans[mine := Chan(None, false)];
      wait := wait[mine := mine];
      return Some(mine);
    }

    /** The reader's lookup: whoever waits for id is claimed; an unknown id is dropped. */
    method Claim(id: nat) returns (ch: Option<nat>)
      modifies this
      ensures ch == if id in old(wait) then Some(old(wait)[id]) else None
      ensures Value() == Claimed(old(Value()), id)
    {
      ch := if id in wait then Some(wait[id]) else None;
      wait := wait - {id};
    }

    /** failAll: close and forget every waiting channel, in whatever order the map
        yields them. No channel is closed twice. */
    method FailAll()
      requires forall id | id in wait :: wait[id] == id && id in chans && !chans[id].closed
      modifies this
      ensures Value() == Failed(old(Value()))
    {
      readErr := true;
      while wait.Keys != {}
        invariant readErr && nextID == old(nextID) && chans.Keys == old(chans).Keys
        invariant wait.Keys <= old(wait).Keys
        invariant forall id | id in wait :: wait[id] == id && id in chans && !chans[id].closed
        invariant forall ch | ch in chans ::
                    chans[ch] == if ch in old(wait) && ch !in wait then old(chans)[ch].(closed := true)
                                 else old(chans)[ch]
        decreases wait.Keys
      {
        var id :| id in wait;
        assert !chans[wait[id]].closed;
        chans := chans[wait[id] := chans[wait[id]].(closed := true)];
        wait := wait - {id};
      }
      assert old(wait).Values == old(wait).Keys by {
        assert forall id | id in old(wait).Keys :: old(wait)[id] == id;
      }
      assert wait == map[];
    }
  }

  // ---- the whole client as a transition system ----

  datatype Outcome = Answer(resp: Resp) | Error

  datatype Caller =
    | Writing(id: nat)               // registered, not yet on the pipe
    | Blocked(id: nat)               // request written, receiving on its channel
    | Done(id: nat, outcome: Outcome)
    | Refused                        // call found readErr set

  datatype Pump = Reading | Got(resp: Resp) | Holding(ch: nat, resp: Resp) | Dead

  datatype State = State(core: Core, callers: map<nat, Caller>, pump: Pump)

  /** Frames off the pipe are arbitrary here: nothing is assumed of the helper. */
  datatype Step =
    | Call(c: nat) | Write(c: nat, ok: bool) | Receive(c: nat)
    | ReadFrame(resp: Resp) | Lookup | Send | Fail

  predicate Init(s: State)
  {
    s == State(Core(0, map[], false, map[]), map[], Reading)
  }

  predicate HasId(k: Caller)
  {
    !k.Refused?
  }

  ghost predicate Next(s: State, step: Step, s': State)
  {
    var core := s.core;
    match step
    case Call(c) =>
      && c !in s.callers && core.nextID < U64
      && s' == if core.readErr then s.(callers := s.callers[c := Refused])
               else s.(core := Registered(core), callers := s.callers[c := Writing(core.nextID)])
    case Write(c, ok) =>
      && c in s.callers && s.callers[c].Writing?
      && var id := s.callers[c].id;
      && s' == s.(callers := s.callers[c := if ok then Blocked(id) else Done(id, Error)])
    case Receive(c) =>
      && CanReceive(s, c)
      && var id := s.callers[c].id;
      && var slot := core.chans[id].slot;
      && s' == if slot.Some? then s.(core := Taken(core, id), callers := s.callers[c := Done(id, Answer(slot.value))])
               else s.(callers := s.callers[c := Done(id, Error)])
    case ReadFrame(resp) =>
      s.pump.Reading? && s' == s.(pump := Got(resp))
    case Lookup =>
      && s.pump.Got?
      && var id := s.pump.resp.id;
      && s' == s.(core := Claimed(core, id),
                  pump := if id in core.wait then Holding(core.wait[id], s.pump.resp) else Reading)
    case Send =>
      && s.pump.Holding? && s.pump.ch in core.chans && CanSend(core.chans[s.pump.ch])
      && s' == s.(core := Delivered(core, s.pump.ch, s.pump.resp), pump := Reading)
    case Fail =>
      s.pump.Reading? && s' == s.(core := Failed(core), pump := Dead)
  }

  /** A send completes at once: the channel is open and its slot is free. */
  predicate CanSend(ch: Chan)
  {
    !ch.closed && ch.slot.None?
  }

  /** A blocked caller can return: a value is there, or the channel is closed. */
  predicate CanReceive(s: State, c: nat)
  {
    && c in s.callers && s.callers[c].Blocked? && s.callers[c].id in s.core.chans
    && (s.core.chans[s.callers[c].id].slot.Some? || s.core.chans[s.callers[c].id].closed)
  }

  // ---- the invariant ----

  ghost predicate WaitOk(s: State)
  {
    forall id | id in s.core.wait ::
      s.core.wait[id] == id && id < s.core.nextID && id in s.core.chans && CanSend(s.core.chans[id])
  }

  ghost predicate PumpOk(s: State)
  {
    && (s.core.readErr <==> s.pump.Dead?)
    && (s.pump.Dead? ==> s.core.wait == map[])
    && (s.pump.Holding? ==>
          && s.pump.ch !in s.core.wait && s.pump.ch in s.core.chans
          && CanSend(s.core.chans[s.pump.ch]) && s.pump.resp.id == s.pump.ch)
  }

  /** A value in a channel answers the call that made it; only failAll closes one. */
  ghost predicate ChansOk(s: State)
  {
    forall ch | ch in s.core.chans ::
      && ch < s.core.nextID && (s.core.chans[ch].slot.Some? ==> s.core.chans[ch].slot.value.id == ch)
      && (s.core.chans[ch].closed ==> s.core.readErr)
  }

  ghost predicate CallerOk(s: State, k: Caller)
  {
    match k
    case Refused => s.core.readErr
    case Done(id, outcome) =>
      id < s.core.nextID && (outcome.Answer? ==> outcome.resp.id == id)
    case Writing(id) => id < s.core.nextID && Served(s, id)
    case Blocked(id) => id < s.core.nextID && Served(s, id)
  }

  /** The call is still expected: it waits, or its response is being delivered, or
      its channel already holds a value or has been closed. */
  ghost predicate Served(s: State, id: nat)
  {
    && id in s.core.chans
    && (id in s.core.wait || (s.pump.Holding? && s.pump.ch == id)
        || s.core.chans[id].slot.Some? || s.core.chans[id].closed)
  }

  ghost predicate DistinctIds(s: State)
  {
    forall c, d | c in s.callers && d in s.callers && HasId(s.callers[c]) && HasId(s.callers[d]) ::
      s.callers[c].id == s.callers[d].id ==> c == d
  }

  ghost predicate Inv(s: State)
  {
    && WaitOk(s) && PumpOk(s) && ChansOk(s) && DistinctIds(s)
    && forall c | c in s.callers :: CallerOk(s, s.callers[c])
  }

  lemma CallStep(s: State, c: nat, s': State)
    requires Inv(s) && Next(s, Call(c), s')
    ensures Inv(s')
  {
    forall d | d in s'.callers
      ensures CallerOk(s', s'.callers[d])
    {
      assert d != c ==> CallerOk(s, s.callers[d]);
    }
  }

  lemma WriteStep(s: State, c: nat, ok: bool, s': State)
    requires Inv(s) && Next(s, Write(c, ok), s')
    ensures Inv(s')
  {
  }

  lemma ReceiveStep(s: State, c: nat, s': State)
    requires Inv(s) && Next(s, Receive(c), s')
    ensures Inv(s')
  {
    forall d | d in s'.callers
      ensures CallerOk(s', s'.callers[d])
    {
      assert CallerOk(s, s.callers[d]) && CallerOk(s, s.callers[c]);
    }
  }

  lemma ReaderSteps(s: State, step: Step, s': State)
    requires Inv(s) && Next(s, step, s') && (step.ReadFrame? || step.Lookup? || step.Send?)
    ensures Inv(s')
  {
    forall d | d in s'.callers
      ensures CallerOk(s', s'.callers[d])
    {
      assert CallerOk(s, s.callers[d]);
    }
  }

  lemma FailStep(s: State, s': State)
    requires Inv(s) && Next(s, Fail, s')
    ensures Inv(s')
  {
  }

  lemma InvNext(s: State, step: Step, s': State)
    requires Inv(s) && Next(s, step, s')
    ensures Inv(s')
  {
    hide Inv, Next;
    match step
    case Call(c) => CallStep(s, c, s');
    case Write(c, ok) => WriteStep(s, c, ok, s');
    case Receive(c) => ReceiveStep(s, c, s');
    case ReadFrame(_) => ReaderSteps(s, step, s');
    case Lookup => ReaderSteps(s, step, s');
    case Send => ReaderSteps(s, step, s');
    case Fail => FailStep(s, s');
  }

  ghost predicate Run(states: seq<State>, steps: seq<Step>)
  {
    && |states| == |steps| + 1 && Init(states[0])
    && forall i | 0 <= i < |steps| :: Next(states[i], steps[i], states[i + 1])
  }

  lemma {:induction false} RunInv(states: seq<State>, steps: seq<Step>, i: nat)
    requires Run(states, steps) && i < |states|
    ensures Inv(states[i])
  {
    if i > 0 {
      RunInv(states, steps, i - 1);
      InvNext(states[i - 1], steps[i - 1], states[i]);
    }
  }

  /** Whatever the helper sends, the reader never blocks on a delivery, never sends
      on a closed channel and never closes one twice. */
  lemma ReaderNeverBlocks(states: seq<State>, steps: seq<Step>, i: nat)
    requires Run(states, steps) && i < |states|
    ensures var s := states[i];
            && (s.pump.Holding? ==> s.pump.ch in s.core.chans && CanSend(s.core.chans[s.pump.ch]))
            && (forall id | id in s.core.wait ::
                  s.core.wait[id] in s.core.chans && CanSend(s.core.chans[s.core.wait[id]]))
            && (forall a, b | a in s.core.wait && b in s.core.wait && s.core.wait[a] == s.core.wait[b] :: a == b)
  {
    RunInv(states, steps, i);
  }

  /** No caller whose request was written is stranded: it is registered with a live
      reader, or about to be answered, or free to return. Once the reader is gone
      every blocked caller is free to return. */
  lemma NoneStranded(states: seq<State>, steps: seq<Step>, i: nat, c: nat)
    requires Run(states, steps) && i < |states| && c in states[i].callers && states[i].callers[c].Blocked?
    ensures var s := states[i];
            var id := s.callers[c].id;
            || (id in s.core.wait && !s.pump.Dead?)
            || (s.pump.Holding? && s.pump.ch == id)
            || CanReceive(s, c)
    ensures states[i].pump.Dead? ==> CanReceive(states[i], c)
  {
    RunInv(states, steps, i);
    assert CallerOk(states[i], states[i].callers[c]);
  }

  /** Once a read error is recorded nothing waits, and nothing ever will. */
  lemma {:induction false} DeadStaysEmpty(states: seq<State>, steps: seq<Step>, i: nat, j: nat)
    requires Run(states, steps) && i <= j < |states| && states[i].core.readErr
    ensures states[j].core.readErr && states[j].core.wait == map[]
    decreases j
  {
    RunInv(states, steps, j);
    if i < j {
      DeadStaysEmpty(states, steps, i, j - 1);
      RunInv(states, steps, j - 1);
    }
  }

  /** A caller is answered only with a frame that carries its own id, and no two
      callers share an id. */
  lemma AnswersMatchIds(states: seq<State>, steps: seq<Step>, i: nat, c: nat, d: nat)
    requires Run(states, steps) && i < |states| && c in states[i].callers
    requires states[i].callers[c].Done? && states[i].callers[c].outcome.Answer?
    ensures states[i].callers[c].outcome.resp.id == states[i].callers[c].id
    ensures d in states[i].callers && d != c && HasId(states[i].callers[d]) ==>
              states[i].callers[d].id != states[i].callers[c].id
  {
    RunInv(states, steps, i);
    assert CallerOk(states[i], states[i].callers[c]);
  }

  // ---- what a call returns ----

  /** The caller waits or has returned, with an error only if the reader is gone. */
  ghost predicate Settled(s: State, c: nat)
  {
    && c in s.callers && (s.callers[c].Blocked? || s.callers[c].Done?)
    && (s.callers[c].Done? && s.callers[c].outcome.Error? ==> s.core.readErr)
  }

  lemma SettledNext(s: State, step: Step, s': State, c: nat)
    requires Inv(s) && Next(s, step, s') && (Settled(s, c) || step == Write(c, true))
    ensures Settled(s', c)
  {
    hide WaitOk, CallerOk, DistinctIds;
  }

  /** A call whose request was written returns an error only if the reader has failed;
      while the reader lives it waits or holds an answer. */
  lemma {:induction false} ErrorMeansReaderGone(states: seq<State>, steps: seq<Step>, j: nat, k: nat, c: nat)
    requires Run(states, steps) && j < k < |states| && steps[j] == Write(c, true)
    ensures Settled(states[k], c)
    decreases k
  {
    hide Next, Inv, Settled;
    RunInv(states, steps, k - 1);
    if j < k - 1 {
      ErrorMeansReaderGone(states, steps, j, k - 1, c);
    }
    SettledNext(states[k - 1], steps[k - 1], states[k], c);
  }

  /** The response is with the reader, in a channel, or has been returned. */
  ghost predicate Holds(s: State, resp: Resp)
  {
    || ((s.pump.Got? || s.pump.Holding?) && s.pump.resp == resp)
    || (exists ch :: ch in s.core.chans && s.core.chans[ch].slot == Some(resp))
    || (exists c :: c in s.callers && s.callers[c].Done? && s.callers[c].outcome == Answer(resp))
  }

  lemma HoldsNext(s: State, step: Step, s': State, resp: Resp)
    requires Next(s, step, s') && Holds(s', resp)
    ensures Holds(s, resp) || step == ReadFrame(resp)
  {
  }

  /** Every answer is a frame that was read off the pipe, exactly as it was read. */
  lemma {:induction false} AnswersWereRead(states: seq<State>, steps: seq<Step>, i: nat, resp: Resp) returns (j: nat)
    requires Run(states, steps) && i < |states| && Holds(states[i], resp)
    ensures j < i && steps[j] == ReadFrame(resp)
  {
    hide Next;
    assert i > 0;
    HoldsNext(states[i - 1], steps[i - 1], states[i], resp);
    if steps[i - 1] == ReadFrame(resp) {
      j := i - 1;
    } else {
      j := AnswersWereRead(states, steps, i - 1, resp);
    }
  }
}
