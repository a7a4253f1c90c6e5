/** What callers of the client see: the shared store as one map, each call taking effect
    once, on that map, between its issue and its return. */
module Session {
  import opened Arith
  import opened Records
  import opened Store
  import opened Wire
  import opened Payloads
  import opened Mux
  import opened EndToEnd

  /** Caller c issued req at event i, its request was written at event j, and it has
      returned by state k with the reader alive. */
  ghost predicate Returned(states: seq<Sys>, events: seq<Event>, c: nat, req: Request, i: nat, j: nat, k: nat)
  {
    && |states| == |events| + 1 && i < j < k < |states|
    && events[i] == DoCall(c, CodeOf(req), PayloadOf(req))
    && events[j].DoWrite? && events[j].c == c && events[j].ok
    && c in states[k].mux.callers && states[k].mux.callers[c].Done? && !states[k].mux.core.readErr
  }

  /** What the client method of caller c returns. */
  ghost function ReplyTo(s: Sys, c: nat, req: Request): Option<Reply>
    requires c in s.mux.callers && s.mux.callers[c].Done?
  {
    match s.mux.callers[c].outcome
    case Answer(resp) => Some(ReplyOf(req, resp.status, resp.body))
    case Error => None
  }

  /** The entry applies req, as the operation on the map it found. */
  ghost predicate Serves(e: Entry, req: Request)
  {
    e.req.code == CodeOf(req) && e.req.body == PayloadOf(req) && e.after == Effect(e.before, req)
  }

  /** In every run within the frame limit, a returned call has taken effect at exactly
      one point of the log, is the operation on the map found there, and its caller
      got what that map says. */
  lemma CallIsOperation(states: seq<Sys>, events: seq<Event>, m: Contents, scan: Scan,
                        c: nat, req: Request, i: nat, j: nat, k: nat) returns (at: nat)
    requires SmallRun(states, events, m, scan) && Returned(states, events, c, req, i, j, k)
    requires forall l | 0 <= l < |states[k].log| :: ShortRequest(states[k].log[l].before, scan, req)
    ensures at < |states[k].log| && Serves(states[k].log[at], req)
    ensures states[k].log[at].req.id == states[k].mux.callers[c].id
    ensures forall l | 0 <= l < |states[k].log| && states[k].log[l].req.id == states[k].log[at].req.id :: l == at
    ensures ReplyTo(states[k], c, req) == Some(Expected(states[k].log[at].before, scan, req))
  {
    hide SmallRun, Handle, PayloadOf, CodeOf, Effect, Expected, ReplyOf, ShortRequest, Chained;
    var resp;
    resp, at := WrittenCallIsAnswered(states, events, m, scan, i, j, k);
    RequestIsOperation(states[k].log[at].before, scan, req);
    AppliedOnceInOrder(states, events, m, scan, k);
  }

  /** No entry from lo up to hi changes what key maps to. */
  ghost predicate Undisturbed(log: seq<Entry>, key: Bytes, lo: nat, hi: nat)
    requires hi <= |log|
  {
    forall l | lo <= l < hi ::
      && (key in log[l].before <==> key in log[l].after)
      && (key in log[l].before ==> log[l].before[key] == log[l].after[key])
  }

  lemma {:induction false} ValueCarried(log: seq<Entry>, m: Contents, store: Contents, key: Bytes, a: nat, b: nat)
    requires Chained(log, m, store) && a < b < |log| && Undisturbed(log, key, a + 1, b)
    ensures key in log[b].before <==> key in log[a].after
    ensures key in log[a].after ==> log[b].before[key] == log[a].after[key]
    decreases b
  {
    if a + 1 < b {
      ValueCarried(log, m, store, key, a, b - 1);
    }
  }

  /** A Get issued after a Put of the key had returned finds the value put, unless some
      application in between changed the key. */
  lemma ReadsOwnWrites(states: seq<Sys>, events: seq<Event>, m: Contents, scan: Scan, a: nat, b: nat,
                       key: Bytes, val: Bytes, ia: nat, ja: nat, ka: nat, ib: nat, jb: nat, kb: nat)
      returns (p: nat, g: nat)
    requires SmallRun(states, events, m, scan) && Short(key) && Short(val)
    requires Returned(states, events, a, PutReq(key, val), ia, ja, ka)
    requires Returned(states, events, b, GetReq(key), ib, jb, kb) && ka <= ib
    ensures p < g < |states[kb].log|
    ensures Serves(states[kb].log[p], PutReq(key, val)) && Serves(states[kb].log[g], GetReq(key))
    ensures Undisturbed(states[kb].log, key, p + 1, g) ==>
              ReplyTo(states[kb], b, GetReq(key)) == Some(Found(Some(val)))
  {
    hide Move, Small, Handle, PayloadOf, CodeOf, ReplyOf, Undisturbed, Chained, Once;
    p := CallIsOperation(states, events, m, scan, a, PutReq(key, val), ia, ja, ka);
    g := CallIsOperation(states, events, m, scan, b, GetReq(key), ib, jb, kb);
    RunLater(states, events, m, scan, ka, kb);
    NotYetIssued(states, events, m, scan, ka, ib);
    RealTimeOrder(states, events, m, scan, ka, kb, a, b, p, g);
    AppliedOnceInOrder(states, events, m, scan, kb);
    if Undisturbed(states[kb].log, key, p + 1, g) {
      ValueCarried(states[kb].log, m, states[kb].store, key, p, g);
    }
  }

  lemma NotYetIssued(states: seq<Sys>, events: seq<Event>, m: Contents, scan: Scan, k: nat, i: nat)
    requires SmallRun(states, events, m, scan) && k <= i < |events| && events[i].DoCall?
    ensures events[i].c !in states[k].mux.callers
  {
    hide Small;
    RunLater(states, events, m, scan, k, i);
    assert Move(states[i], events[i], states[i + 1], scan);
  }
}
