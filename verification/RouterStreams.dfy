/**
 The router: two calls that present the same stream name are joined, and two pipes carry frames between
 them. A run interleaves arriving calls, the steps of all pipes, leaving clients and returning calls.
 */
module RouterStreams {
  import opened Options
  import opened Runs
  import opened Histories

  datatype Frame = Frame(payload: seq<bv8>, frameType: int)

  datatype Link = Link(from: nat, to: nat)

  datatype End = Running | CleanEof | Failed

  /** A goroutine that receives from one call and sends to another, and the frame between the two. */
  datatype Pipe = Pipe(carrying: Option<Frame>, end: End)

  /** The pending map, the calls by stream name, the pipes, the calls whose client left or that another
      call cancelled, the calls that returned, and all frames received from and sent to each call, with
      the call at the other end of the pipe. */
  datatype Router = Router(
    pending: map<string, nat>,
    calls: map<nat, string>,
    pipes: map<Link, Pipe>,
    left: set<nat>,
    cancelled: map<nat, nat>,
    returned: set<nat>,
    received: map<nat, seq<Tagged<Frame>>>,
    sent: map<nat, seq<Tagged<Frame>>>)

  datatype Event =
    | Arrive(id: nat, name: string)
    | Recv(link: Link, frame: Frame)
    | RecvEof(link: Link)
    | RecvError(link: Link)
    | Send(link: Link)
    | SendError(link: Link)
    | Disconnect(id: nat)              // the client of a call goes away
    | Return(id: nat)

  /** A pipe about to receive, and one about to send. */
  predicate Receiving(s: Router, l: Link) {
    l in s.pipes && s.pipes[l] == Pipe(None, Running)
  }

  predicate Sending(s: Router, l: Link) {
    l in s.pipes && s.pipes[l].end == Running && s.pipes[l].carrying.Some?
  }

  predicate Ended(s: Router, l: Link) {
    l in s.pipes && s.pipes[l].end != Running
  }

  predicate BothEnded(s: Router, a: nat, b: nat) {
    Ended(s, Link(a, b)) && Ended(s, Link(b, a))
  }

  /** A pipe may meet any outcome of a receive or a send at any time. A call that found another one waiting
      returns when both pipes have ended, the one that waits when its context is done. */
  predicate Enabled(s: Router, e: Event) {
    match e
    case Arrive(id, _) => id !in s.calls
    case Recv(l, _) => Receiving(s, l)
    case RecvEof(l) => Receiving(s, l)
    case RecvError(l) => Receiving(s, l)
    case Send(l) => Sending(s, l)
    case SendError(l) => Sending(s, l)
    case Disconnect(id) => id in s.calls
    case Return(id) =>
      && id in s.calls && id !in s.returned && s.calls[id] in s.pending
      && var first := s.pending[s.calls[id]];
         if first == id then id in s.left || id in s.cancelled else BothEnded(s, id, first)
  }

  function After(s: Router, e: Event): Router
    requires Enabled(s, e)
  {
    match e
    case Arrive(id, name) =>
      var t := s.(calls := s.calls[id := name]);
      if name in s.pending then t.(pipes := Joined(s.pipes, id, s.pending[name]))
      else t.(pending := s.pending[name := id])
    case Recv(l, frame) =>
      s.(pipes := s.pipes[l := Pipe(Some(frame), Running)],
         received := s.received[l.from := At(s.received, l.from) + [Tagged(l.to, frame)]])
    case RecvEof(l) => s.(pipes := s.pipes[l := Pipe(None, CleanEof)])
    case RecvError(l) => s.(pipes := s.pipes[l := Pipe(None, Failed)])
    case Send(l) =>
      var frame := s.pipes[l].carrying.value;
      s.(pipes := s.pipes[l := Pipe(None, Running)],
         sent := s.sent[l.to := At(s.sent, l.to) + [Tagged(l.from, Frame(frame.payload, frame.frameType))]])
    case SendError(l) => s.(pipes := s.pipes[l := s.pipes[l].(end := Failed)])
    case Disconnect(id) => s.(left := s.left + {id})
    case Return(id) =>
      var first := s.pending[s.calls[id]];
      s.(returned := s.returned + {id}, cancelled := if first == id then s.cancelled else s.cancelled[first := id])
  }

  function Joined(pipes: map<Link, Pipe>, id: nat, first: nat): map<Link, Pipe> {
    pipes[Link(id, first) := Pipe(None, Running)][Link(first, id) := Pipe(None, Running)]
  }

  predicate Next(s: Router, e: Event, t: Router) {
    Enabled(s, e) && t == After(s, e)
  }

  const EMPTY := Router(map[], map[], map[], {}, map[], {}, map[], map[])

  // ---------------------------------------------------------------- the invariant

  /** What the pipe `l` has received, and what it has sent. */
  function Got(s: Router, l: Link): seq<Frame> {
    Share(At(s.received, l.from), l.to)
  }

  function Handed(s: Router, l: Link): seq<Frame> {
    Share(At(s.sent, l.to), l.from)
  }

  function Carried(p: Pipe): seq<Frame> {
    if p.carrying.Some? then [p.carrying.value] else []
  }

  /** Every name belongs to its first call for good. */
  ghost predicate PendingOk(s: Router) {
    && (forall n | n in s.pending :: s.pending[n] in s.calls && s.calls[s.pending[n]] == n)
    && (forall id | id in s.calls :: s.calls[id] in s.pending)
  }

  /** Two calls are linked when their names agree and one of them was the first of that name. */
  predicate Paired(s: Router, l: Link) {
    && l.from in s.calls && l.to in s.calls && l.from != l.to
    && s.calls[l.from] == s.calls[l.to]
    && s.calls[l.from] in s.pending && s.pending[s.calls[l.from]] in {l.from, l.to}
  }

  ghost predicate LinksExact(s: Router) {
    forall l: Link :: l in s.pipes <==> Paired(s, l)
  }

  /** A pipe has sent all it received, in order, but for the frame it still carries. */
  predicate FlowOk(s: Router, l: Link)
    requires l in s.pipes
  {
    && Got(s, l) == Handed(s, l) + Carried(s.pipes[l])
    && (s.pipes[l].end == CleanEof ==> s.pipes[l].carrying == None)
  }

  ghost predicate PeersOk(s: Router, id: nat) {
    && (forall m | m in At(s.received, id) :: Link(id, m.who) in s.pipes)
    && (forall m | m in At(s.sent, id) :: Link(m.who, id) in s.pipes)
  }

  predicate ReturnedOk(s: Router, id: nat) {
    && id in s.calls && s.calls[id] in s.pending
    && var first := s.pending[s.calls[id]];
       if first == id then id in s.left || id in s.cancelled else BothEnded(s, id, first)
  }

  /** A waiting call is cancelled by one that was joined with it and has returned. */
  predicate CancelOk(s: Router, first: nat)
    requires first in s.cancelled
  {
    var id := s.cancelled[first];
    id in s.returned && BothEnded(s, id, first)
  }

  ghost predicate Inv(s: Router) {
    && PendingOk(s)
    && LinksExact(s)
    && (forall l | l in s.pipes :: FlowOk(s, l))
    && (forall id :: PeersOk(s, id))
    && (forall id | id in s.returned :: ReturnedOk(s, id))
    && (forall id | id in s.cancelled :: CancelOk(s, id))
  }

  lemma ArriveKeepsLink(s: Router, id: nat, name: string, l: Link)
    requires PendingOk(s) && id !in s.calls && (l in s.pipes <==> Paired(s, l))
    ensures var t := After(s, Arrive(id, name)); l in t.pipes <==> Paired(t, l)
  {
    if name in s.pending {
      var first := s.pending[name];
      assert first in s.calls && s.calls[first] == name;
      if l.from == id || l.to == id {
        assert l !in s.pipes;
      }
    }
  }

  lemma ArriveKeepsLinks(s: Router, id: nat, name: string)
    requires PendingOk(s) && LinksExact(s) && id !in s.calls
    ensures PendingOk(After(s, Arrive(id, name))) && LinksExact(After(s, Arrive(id, name)))
  {
    var t := After(s, Arrive(id, name));
    assert PendingOk(t);
    forall l: Link ensures l in t.pipes <==> Paired(t, l) {
      assert l in s.pipes <==> Paired(s, l);
      ArriveKeepsLink(s, id, name, l);
    }
  }

  lemma NewLinkFlows(s: Router, l: Link)
    requires l !in s.pipes && PeersOk(s, l.from) && PeersOk(s, l.to)
    ensures Share(At(s.received, l.from), l.to) == [] == Share(At(s.sent, l.to), l.from)
  {
    NoShare(At(s.received, l.from), l.to);
    NoShare(At(s.sent, l.to), l.from);
  }

  lemma ArriveKeepsPipes(s: Router, id: nat, name: string, l: Link)
    requires LinksExact(s) && id !in s.calls && l in s.pipes
    ensures var t := After(s, Arrive(id, name)); l in t.pipes && t.pipes[l] == s.pipes[l]
  {
    assert Paired(s, l);
  }

  lemma OldLinkFlows(s: Router, t: Router, l: Link)
    requires l in s.pipes && FlowOk(s, l)
    requires l in t.pipes && t.pipes[l] == s.pipes[l] && t.received == s.received && t.sent == s.sent
    ensures FlowOk(t, l)
  {
  }

  lemma ArriveKeepsFlow(s: Router, id: nat, name: string, l: Link)
    requires id !in s.calls && l in After(s, Arrive(id, name)).pipes && LinksExact(s)
    requires l in s.pipes ==> FlowOk(s, l)
    requires PeersOk(s, l.from) && PeersOk(s, l.to)
    ensures FlowOk(After(s, Arrive(id, name)), l)
  {
    var t := After(s, Arrive(id, name));
    if l in s.pipes {
      ArriveKeepsPipes(s, id, name, l);
      OldLinkFlows(s, t, l);
    } else {
      NewLinkFlows(s, l);
    }
  }

  lemma MorePipesKeepPeers(s: Router, t: Router, i: nat)
    requires PeersOk(s, i) && t.received == s.received && t.sent == s.sent
    requires forall l | l in s.pipes :: l in t.pipes
    ensures PeersOk(t, i)
  {
  }

  /** What the returned and the cancelled calls rest on stays true while pipes stay ended. */
  lemma EndsKept(s: Router, t: Router)
    requires forall i | i in s.returned :: ReturnedOk(s, i)
    requires forall i | i in s.cancelled :: CancelOk(s, i)
    requires t.left == s.left && t.cancelled == s.cancelled && t.returned == s.returned
    requires forall i | i in s.calls :: i in t.calls && t.calls[i] == s.calls[i]
    requires forall n | n in s.pending :: n in t.pending && t.pending[n] == s.pending[n]
    requires forall l | Ended(s, l) :: Ended(t, l)
    ensures forall i | i in t.returned :: ReturnedOk(t, i)
    ensures forall i | i in t.cancelled :: CancelOk(t, i)
  {
    forall i | i in t.returned ensures ReturnedOk(t, i) {
      assert ReturnedOk(s, i);
    }
    forall i | i in t.cancelled ensures CancelOk(t, i) {
      assert CancelOk(s, i);
    }
  }

  lemma ArriveKeeps(s: Router, id: nat, name: string)
    requires Inv(s) && id !in s.calls
    ensures Inv(After(s, Arrive(id, name)))
  {
    var t := After(s, Arrive(id, name));
    ArriveKeepsLinks(s, id, name);
    ArriveKeepsAllPipes(s, id, name);
    ArriveKeepsTables(s, id, name);
    assert forall l | l in t.pipes :: FlowOk(t, l) by {
      forall l | l in t.pipes ensures FlowOk(t, l) {
        assert PeersOk(s, l.from) && PeersOk(s, l.to);
        assert l in s.pipes ==> FlowOk(s, l);
        ArriveKeepsFlow(s, id, name, l);
      }
    }
    assert forall i :: PeersOk(t, i) by {
      forall i ensures PeersOk(t, i) {
        assert PeersOk(s, i);
        MorePipesKeepPeers(s, t, i);
      }
    }
    EndsKept(s, t);
  }

  lemma ArriveKeepsAllPipes(s: Router, id: nat, name: string)
    requires LinksExact(s) && id !in s.calls
    ensures var t := After(s, Arrive(id, name));
            && (forall l | l in s.pipes :: l in t.pipes)
            && (forall l | Ended(s, l) :: Ended(t, l))
  {
    var t := After(s, Arrive(id, name));
    forall l | l in s.pipes ensures l in t.pipes {
      ArriveKeepsPipes(s, id, name, l);
    }
    forall l | Ended(s, l) ensures Ended(t, l) {
      ArriveKeepsPipes(s, id, name, l);
    }
  }

  lemma ArriveKeepsTables(s: Router, id: nat, name: string)
    requires id !in s.calls
    ensures var t := After(s, Arrive(id, name));
            && t.left == s.left && t.cancelled == s.cancelled && t.returned == s.returned
            && t.received == s.received && t.sent == s.sent
            && (forall i | i in s.calls :: i in t.calls && t.calls[i] == s.calls[i])
            && (forall n | n in s.pending :: n in t.pending && t.pending[n] == s.pending[n])
  {
  }

  predicate IsPipeStep(e: Event) {
    e.Recv? || e.RecvEof? || e.RecvError? || e.Send? || e.SendError?
  }

  lemma RecvKeepsFlow(s: Router, k: Link, frame: Frame, l: Link)
    requires l in s.pipes && FlowOk(s, l) && Enabled(s, Recv(k, frame))
    ensures FlowOk(After(s, Recv(k, frame)), l)
  {
    var t := After(s, Recv(k, frame));
    if k == l {
      ShareAppend(At(s.received, k.from), Tagged(k.to, frame), l.to);
      assert t.pipes[l] == Pipe(Some(frame), Running);
    } else {
      assert t.pipes[l] == s.pipes[l];
      if k.from == l.from {
        ShareAppend(At(s.received, k.from), Tagged(k.to, frame), l.to);
      } else {
        assert At(t.received, l.from) == At(s.received, l.from);
      }
    }
  }

  lemma SendKeepsFlow(s: Router, k: Link, l: Link)
    requires l in s.pipes && FlowOk(s, l) && Enabled(s, Send(k))
    ensures FlowOk(After(s, Send(k)), l)
  {
    var t := After(s, Send(k));
    if k == l {
      ShareAppend(At(s.sent, k.to), Tagged(k.from, s.pipes[k].carrying.value), l.from);
      assert t.pipes[l] == Pipe(None, Running);
    } else {
      assert t.pipes[l] == s.pipes[l];
      if k.to == l.to {
        ShareAppend(At(s.sent, k.to), Tagged(k.from, s.pipes[k].carrying.value), l.from);
      } else {
        assert At(t.sent, l.to) == At(s.sent, l.to);
      }
    }
  }

  lemma PipeStepKeepsFlow(s: Router, e: Event, l: Link)
    requires l in s.pipes && FlowOk(s, l) && IsPipeStep(e) && Enabled(s, e)
    ensures FlowOk(After(s, e), l)
  {
    match e
    case Recv(k, frame) => RecvKeepsFlow(s, k, frame, l);
    case Send(k) => SendKeepsFlow(s, k, l);
    case _ =>
  }

  lemma PipeStepKeepsPeers(s: Router, e: Event, i: nat)
    requires PeersOk(s, i) && IsPipeStep(e) && Enabled(s, e)
    ensures PeersOk(After(s, e), i)
  {
  }

  /** The step of the pipe `l` changes no pipe but `l`, and that one was running. */
  lemma PipeStepChanges(s: Router, e: Event)
    requires IsPipeStep(e) && Enabled(s, e)
    ensures var t := After(s, e);
            && t == s.(pipes := t.pipes, received := t.received, sent := t.sent)
            && t.pipes.Keys == s.pipes.Keys
            && forall l | Ended(s, l) :: Ended(t, l)
  {
  }

  lemma PipeStepKeeps(s: Router, e: Event)
    requires Inv(s) && IsPipeStep(e) && Enabled(s, e)
    ensures Inv(After(s, e))
  {
    var t := After(s, e);
    PipeStepChanges(s, e);
    forall l: Link ensures l in t.pipes <==> Paired(t, l) {
      assert l in s.pipes <==> Paired(s, l);
    }
    forall l | l in t.pipes ensures FlowOk(t, l) {
      PipeStepKeepsFlow(s, e, l);
    }
    forall i ensures PeersOk(t, i) {
      assert PeersOk(s, i);
      PipeStepKeepsPeers(s, e, i);
    }
    EndsKept(s, t);
  }

  lemma LeaveKeeps(s: Router, e: Event)
    requires Inv(s) && Enabled(s, e) && (e.Disconnect? || e.Return?)
    ensures Inv(After(s, e))
  {
    var t := After(s, e);
    forall l: Link ensures l in t.pipes <==> Paired(t, l) {
      assert l in s.pipes <==> Paired(s, l);
    }
    forall l | l in t.pipes ensures FlowOk(t, l) {
      assert FlowOk(s, l);
    }
    forall i ensures PeersOk(t, i) {
      assert PeersOk(s, i);
    }
    forall i | i in t.returned ensures ReturnedOk(t, i) {
      assert i in s.returned ==> ReturnedOk(s, i);
    }
    forall i | i in t.cancelled ensures CancelOk(t, i) {
      assert i in s.cancelled ==> CancelOk(s, i);
    }
  }

  lemma StepKeeps(s: Router, e: Event)
    requires Inv(s) && Enabled(s, e)
    ensures Inv(After(s, e))
  {
    if e.Arrive? {
      ArriveKeeps(s, e.id, e.name);
    } else if IsPipeStep(e) {
      PipeStepKeeps(s, e);
    } else {
      LeaveKeeps(s, e);
    }
  }

  lemma InvHolds(events: seq<Event>, s: Router)
    requires Leads(Next, EMPTY, events, s)
    ensures Inv(s)
  {
    EmptyInv();
    forall x, e, y | e in events && Inv(x) && Next(x, e, y) ensures Inv(y) {
      StepKeeps(x, e);
    }
    RunKeeps(Next, Inv, EMPTY, events, s);
  }

  lemma EmptyInv()
    ensures Inv(EMPTY)
  {
  }

  // ---------------------------------------------------------------- forwarding over whole runs

  /** With any number of calls and in every interleaving: pipes join exactly the calls of one name, one of
      them its first, and what a pipe sent is, frame by frame and in order, what it received but for at most
      the last frame; it is everything when the pipe ended on a clean end of stream. */
  lemma PipesForward(events: seq<Event>, s: Router, l: Link)
    requires Leads(Next, EMPTY, events, s)
    ensures l in s.pipes <==> Paired(s, l)
    ensures l in s.pipes ==>
              && Handed(s, l) + Carried(s.pipes[l]) == Got(s, l)
              && (s.pipes[l].end == CleanEof ==> Carried(s.pipes[l]) == [])
  {
    InvHolds(events, s);
    if l in s.pipes {
      assert FlowOk(s, l);
    }
  }

  /** Frames never cross between names: each frame sent to a call was received from a call of that name. */
  lemma NoCrossing(events: seq<Event>, s: Router, id: nat, m: Tagged<Frame>)
    requires Leads(Next, EMPTY, events, s) && m in At(s.sent, id)
    ensures id in s.calls && m.who in s.calls && s.calls[id] == s.calls[m.who] && id != m.who
    ensures m.what in Got(s, Link(m.who, id))
  {
    InvHolds(events, s);
    assert PeersOk(s, id);
    var l := Link(m.who, id);
    assert Paired(s, l) && FlowOk(s, l);
    InShare(At(s.sent, id), m);
    assert m.what in Share(At(s.sent, id), m.who) + Carried(s.pipes[l]);
  }

  predicate OnlyCallers(s: Router, a: nat, b: nat) {
    && a in s.calls && b in s.calls && s.calls[a] == s.calls[b]
    && forall c | c in s.calls && s.calls[c] == s.calls[a] :: c in {a, b}
  }

  /** With two calls of a name, all that was sent to one is all that was received from the other, but for
      the one frame the pipe between them carries; the first of them was stored, the second joined it. */
  lemma TwoCallers(events: seq<Event>, s: Router, a: nat, b: nat)
    requires Leads(Next, EMPTY, events, s) && OnlyCallers(s, a, b) && a != b
    ensures Link(a, b) in s.pipes && Link(b, a) in s.pipes
    ensures Values(At(s.sent, b)) + Carried(s.pipes[Link(a, b)]) == Values(At(s.received, a))
    ensures Values(At(s.sent, b)) <= Values(At(s.received, a))
    ensures s.pipes[Link(a, b)].end == CleanEof ==> Values(At(s.sent, b)) == Values(At(s.received, a))
  {
    InvHolds(events, s);
    FirstIsOneOf(s, a, b);
    PipesForward(events, s, Link(a, b));
    PipesForward(events, s, Link(b, a));
    forall m | m in At(s.received, a) ensures m.who == b {
      OnlyPeer(s, a, b, m);
    }
    forall m | m in At(s.sent, b) ensures m.who == a {
      OnlyPeer(s, b, a, m);
    }
    WholeShare(At(s.received, a), b);
    WholeShare(At(s.sent, b), a);
  }

  lemma FirstIsOneOf(s: Router, a: nat, b: nat)
    requires PendingOk(s) && OnlyCallers(s, a, b)
    ensures s.calls[a] in s.pending && s.pending[s.calls[a]] in {a, b}
  {
  }

  lemma OnlyPeer(s: Router, a: nat, b: nat, m: Tagged<Frame>)
    requires Inv(s) && OnlyCallers(s, a, b) && (m in At(s.received, a) || m in At(s.sent, a))
    ensures m.who == b && a != b
  {
    assert PeersOk(s, a);
    assert Paired(s, Link(a, m.who)) || Paired(s, Link(m.who, a));
  }

  /** A call that is alone with its name receives and sends nothing. */
  lemma AloneMovesNothing(events: seq<Event>, s: Router, a: nat)
    requires Leads(Next, EMPTY, events, s) && OnlyCallers(s, a, a)
    ensures At(s.received, a) == [] && At(s.sent, a) == []
  {
    InvHolds(events, s);
    if At(s.received, a) != [] {
      OnlyPeer(s, a, a, At(s.received, a)[0]);
    }
    if At(s.sent, a) != [] {
      OnlyPeer(s, a, a, At(s.sent, a)[0]);
    }
  }

  /** The joining call returns only after both pipes have ended, and the stored one, unless its client left,
      only after such a call returned: the pipes never lose a live stream. */
  lemma ReturnsAfterBothPipes(events: seq<Event>, s: Router, id: nat)
    requires Leads(Next, EMPTY, events, s) && id in s.returned
    ensures id in s.calls && s.calls[id] in s.pending
    ensures var first := s.pending[s.calls[id]];
            && (first != id ==> BothEnded(s, id, first))
            && (first == id && id !in s.left ==>
                  id in s.cancelled && s.cancelled[id] in s.returned && BothEnded(s, s.cancelled[id], id))
  {
    InvHolds(events, s);
    assert ReturnedOk(s, id);
    if id in s.cancelled {
      assert CancelOk(s, id);
    }
  }

  /** When the joining call of two returns without error, everything received on either side was sent to
      the other. */
  lemma CleanReturnLosesNothing(events: seq<Event>, s: Router, a: nat, b: nat)
    requires Leads(Next, EMPTY, events, s) && OnlyCallers(s, a, b) && a != b
    requires Link(a, b) in s.pipes && s.pipes[Link(a, b)].end == CleanEof
    requires Link(b, a) in s.pipes && s.pipes[Link(b, a)].end == CleanEof
    ensures Values(At(s.sent, b)) == Values(At(s.received, a))
    ensures Values(At(s.sent, a)) == Values(At(s.received, b))
  {
    TwoCallers(events, s, a, b);
    TwoCallers(events, s, b, a);
  }

  /** A stream name is never released: whoever was first stays stored, over every run. */
  lemma FirstCallStays(s: Router, events: seq<Event>, t: Router, name: string)
    requires Leads(Next, s, events, t) && name in s.pending
    ensures name in t.pending && t.pending[name] == s.pending[name]
  {
    var stored := (x: Router) => name in x.pending && x.pending[name] == s.pending[name];
    forall x, e, y | e in events && stored(x) && Next(x, e, y) ensures stored(y) {
      FirstCallStaysStep(x, e, name);
    }
    RunKeeps(Next, stored, s, events, t);
  }

  lemma FirstCallStaysStep(s: Router, e: Event, name: string)
    requires Enabled(s, e) && name in s.pending
    ensures name in After(s, e).pending && After(s, e).pending[name] == s.pending[name]
  {
  }

  /** So whatever happens after the first call of a name, and even when it has long returned, the next call of
      that name is joined with it. */
  lemma LaterCallJoinsFirst(s: Router, events: seq<Event>, t: Router, name: string, id: nat)
    requires Leads(Next, s, events, t) && name in s.pending && id !in t.calls
    ensures var first := s.pending[name];
            var joined := After(t, Arrive(id, name));
            && Receiving(joined, Link(id, first)) && Receiving(joined, Link(first, id))
            && joined.returned == t.returned
  {
    FirstCallStays(s, events, t, name);
  }

  // ---------------------------------------------------------------- how many calls of a name

  function CallsOf(s: Router, name: string): set<nat> {
    set id | id in s.calls && s.calls[id] == name
  }

  /** On every pipe between calls of the name, what was sent to the one end is a prefix of what was received from
      the other. */
  ghost predicate SentIsPrefix(s: Router, name: string) {
    forall l: Link | l in s.pipes && l.from in s.calls && s.calls[l.from] == name ::
      Values(At(s.sent, l.to)) <= Values(At(s.received, l.from))
  }

  lemma TwoKeepPrefix(events: seq<Event>, s: Router, name: string)
    requires Leads(Next, EMPTY, events, s) && |CallsOf(s, name)| <= 2
    ensures SentIsPrefix(s, name)
  {
    forall l: Link | l in s.pipes && l.from in s.calls && s.calls[l.from] == name
      ensures Values(At(s.sent, l.to)) <= Values(At(s.received, l.from))
    {
      PipesForward(events, s, l);
      assert {l.from, l.to} <= CallsOf(s, name);
      var others := CallsOf(s, name) - {l.from, l.to};
      assert |others| == |CallsOf(s, name)| - |{l.from, l.to}|;
      assert others == {};
      assert OnlyCallers(s, l.from, l.to) by {
        assert forall c | c in s.calls && s.calls[c] == name :: c in CallsOf(s, name);
      }
      TwoCallers(events, s, l.from, l.to);
    }
  }

  /** The calls `ids` have arrived under the name, `first` before the others, and nothing has moved. */
  ghost predicate Arrived(s: Router, name: string, first: nat, ids: set<nat>) {
    && s.calls == (map id | id in ids :: name) && name in s.pending && s.pending[name] == first
    && s.received == map[] && s.sent == map[]
    && forall id | id in ids && id != first :: Receiving(s, Link(first, id)) && Receiving(s, Link(id, first))
  }

  lemma AllArrive(name: string, first: nat, ids: set<nat>) returns (events: seq<Event>, s: Router)
    requires first in ids
    ensures Leads(Next, EMPTY, events, s) && Arrived(s, name, first, ids)
    decreases |ids|
  {
    if ids == {first} {
      s := After(EMPTY, Arrive(first, name));
      LeadsOn(Next, EMPTY, [], EMPTY, Arrive(first, name), s);
      events := [] + [Arrive(first, name)];
    } else {
      var id :| id in ids && id != first;
      var before;
      events, before := AllArrive(name, first, ids - {id});
      s := After(before, Arrive(id, name));
      LeadsOn(Next, EMPTY, events, before, Arrive(id, name), s);
      events := events + [Arrive(id, name)];
      OneMoreArrived(before, name, first, ids, id);
    }
  }

  lemma OneMoreArrived(s: Router, name: string, first: nat, ids: set<nat>, id: nat)
    requires first in ids && id in ids && id != first && Arrived(s, name, first, ids - {id})
    ensures Arrived(After(s, Arrive(id, name)), name, first, ids)
  {
  }

  /** A third call takes frames: of two frames received from the first call of a name, the second goes to the third
      call, so what was sent to that is not what was first received. */
  lemma ThirdCallerTakesFrames(name: string, s: Router, first: nat, second: nat, third: nat, f: Frame, g: Frame)
      returns (s1: Router, s2: Router, s3: Router)
    requires second != third && f != g && s.received == map[] && s.sent == map[]
    requires Receiving(s, Link(first, second)) && Receiving(s, Link(first, third))
    ensures Next(s, Recv(Link(first, second), f), s1) && Next(s1, Recv(Link(first, third), g), s2)
    ensures Next(s2, Send(Link(first, third)), s3) && s3.calls == s.calls && Link(first, third) in s3.pipes
    ensures Values(At(s3.received, first)) == [f, g] && Values(At(s3.sent, third)) == [g]
    ensures !(Values(At(s3.sent, third)) <= Values(At(s3.received, first)))
  {
    s1 := After(s, Recv(Link(first, second), f));
    assert At(s1.received, first) == [Tagged(second, f)];
    s2 := After(s1, Recv(Link(first, third), g));
    assert At(s2.received, first) == [Tagged(second, f), Tagged(third, g)];
    s3 := After(s2, Send(Link(first, third)));
    assert At(s3.sent, third) == [Tagged(first, g)];
    assert Values(At(s3.received, first)) == [f, g];
    assert Values(At(s3.sent, third)) == [g];
    assert [f, g][0] != [g][0];
  }

  lemma ThreeBreakPrefix(name: string, ids: set<nat>) returns (events: seq<Event>, s: Router)
    requires |ids| > 2
    ensures Leads(Next, EMPTY, events, s) && CallsOf(s, name) == ids && !SentIsPrefix(s, name)
  {
    var first :| first in ids;
    assert |ids - {first}| == |ids| - 1;
    var second :| second in ids - {first};
    assert |ids - {first} - {second}| == |ids| - 2;
    var third :| third in ids - {first} - {second};
    var arrived;
    events, arrived := AllArrive(name, first, ids);
    var f, g := Frame([], 0), Frame([], 1);
    var s1, s2, s3 := ThirdCallerTakesFrames(name, arrived, first, second, third, f, g);
    LeadsOn(Next, EMPTY, events, arrived, Recv(Link(first, second), f), s1);
    LeadsOn(Next, EMPTY, events + [Recv(Link(first, second), f)], s1, Recv(Link(first, third), g), s2);
    LeadsOn(Next, EMPTY, events + [Recv(Link(first, second), f)] + [Recv(Link(first, third), g)], s2,
            Send(Link(first, third)), s3);
    events := events + [Recv(Link(first, second), f)] + [Recv(Link(first, third), g)] + [Send(Link(first, third))];
    s := s3;
    assert first in s.calls && s.calls[first] == name;
  }

  /** In every run with these calls of a name each call is sent a prefix of what the other end received if and only
      if they are at most two. */
  lemma PrefixExactlyForTwo(name: string, ids: set<nat>)
    ensures AlwaysPrefix(name, ids) <==> |ids| <= 2
  {
    if |ids| <= 2 {
      forall events: seq<Event>, s | Leads(Next, EMPTY, events, s) && CallsOf(s, name) == ids
        ensures SentIsPrefix(s, name)
      {
        TwoKeepPrefix(events, s, name);
      }
    } else {
      var events, s := ThreeBreakPrefix(name, ids);
    }
  }

  ghost predicate AlwaysPrefix(name: string, ids: set<nat>) {
    forall events: seq<Event>, s | Leads(Next, EMPTY, events, s) && CallsOf(s, name) == ids :: SentIsPrefix(s, name)
  }

  // ---------------------------------------------------------------- the code

  /** What one turn of a pipe's loop meets. */
  datatype Turn = MeetsEof | MeetsError | Meets(frame: Frame, sendOk: bool)

  /** The frames a pipe hands on when it meets `turns`: those before the first end or failure. */
  function Delivered(turns: seq<Turn>): seq<Frame> {
    if turns == [] || !turns[0].Meets? || !turns[0].sendOk then [] else [turns[0].frame] + Delivered(turns[1..])
  }

  function EndOf(turns: seq<Turn>): End {
    if turns == [] then Running
    else if turns[0].MeetsEof? then CleanEof
    else if turns[0].MeetsError? || !turns[0].sendOk then Failed
    else EndOf(turns[1..])
  }

  /** The first `i` turns each brought a frame that could be sent. */
  predicate AllSent(turns: seq<Turn>, i: nat) {
    i <= |turns| && forall j | 0 <= j < i :: turns[j].Meets? && turns[j].sendOk
  }

  function FramesOf(turns: seq<Turn>, i: nat): seq<Frame>
    requires AllSent(turns, i)
  {
    seq(i, j requires 0 <= j < i => turns[j].frame)
  }

  /** What a pipe does by the first turn that is not a frame received and sent: it has handed on the frames before
      that one, and ends cleanly on an end of stream and failed otherwise; without such a turn it goes on. */
  lemma {:induction false} FirstStop(turns: seq<Turn>, i: nat)
    requires AllSent(turns, i)
    ensures i == |turns| ==> EndOf(turns) == Running && Delivered(turns) == FramesOf(turns, i)
    ensures i < |turns| && turns[i].MeetsEof? ==> EndOf(turns) == CleanEof && Delivered(turns) == FramesOf(turns, i)
    ensures i < |turns| && (turns[i].MeetsError? || (turns[i].Meets? && !turns[i].sendOk)) ==>
              EndOf(turns) == Failed && Delivered(turns) == FramesOf(turns, i)
    decreases i
  {
    if i > 0 {
      FirstStop(turns[1..], i - 1);
      assert FramesOf(turns, i) == [turns[0].frame] + FramesOf(turns[1..], i - 1);
    }
  }

  lemma {:induction false} OneMoreTurn(turns: seq<Turn>, i: nat)
    requires i < |turns| && EndOf(turns[..i]) == Running
    ensures EndOf(turns[..i + 1]) == EndOf([turns[i]])
    ensures Delivered(turns[..i + 1]) == Delivered(turns[..i]) + Delivered([turns[i]])
    ensures EndOf([turns[i]]) != Running ==>
              EndOf(turns) == EndOf([turns[i]]) && Delivered(turns) == Delivered(turns[..i + 1])
    decreases i
  {
    if i == 0 {
      assert turns[..1] == [turns[0]];
    } else {
      assert turns[..i][1..] == turns[1..][..i - 1];
      assert turns[..i + 1][1..] == turns[1..][..i];
      OneMoreTurn(turns[1..], i - 1);
    }
  }

  /** The pending map, the pipes and the contexts of the calls. The rest of the state and the events so far
      are ghost. */
  class RouterService {
    var pending: map<string, nat>
    var pipes: map<Link, Pipe>
    var left: set<nat>
    var cancelled: map<nat, nat>
    ghost var rest: Router
    ghost var history: seq<Event>

    ghost function State(): Router
      reads this
    {
      rest.(pending := pending, pipes := pipes, left := left, cancelled := cancelled)
    }

    ghost predicate Valid()
      reads this
    {
      Leads(Next, EMPTY, history, State())
    }

    constructor ()
      ensures Valid() && history == []
    {
      pending, pipes, left, cancelled := map[], map[], {}, map[];
      rest, history := EMPTY, [];
    }

    /** What the other calls, pipes and clients do meanwhile. They leave the caller's own pipe and call alone. */
    method Interference(ghost mine: Option<Link>, ghost caller: nat)
      requires Valid()
      modifies this
      ensures Valid() && old(history) <= history
      ensures mine.Some? && mine.value in old(pipes) ==>
                && mine.value in pipes && pipes[mine.value] == old(pipes)[mine.value]
                && Handed(State(), mine.value) == old(Handed(State(), mine.value))
      ensures forall l | l in old(pipes) :: l in pipes
      ensures forall n | n in old(pending) :: n in pending && pending[n] == old(pending[n])
      ensures caller in old(State().calls) ==>
                && caller in State().calls && State().calls[caller] == old(State().calls[caller])
                && (caller in State().returned <==> caller in old(State().returned))
    {
    }

    ghost method Note(before: Router, e: Event)
      requires Leads(Next, EMPTY, history, before) && Enabled(before, e)
      requires pending == After(before, e).pending && pipes == After(before, e).pipes
      requires left == After(before, e).left && cancelled == After(before, e).cancelled
      modifies this`rest, this`history
      ensures Valid() && State() == After(before, e) && history == old(history) + [e]
    {
      LeadsOn(Next, EMPTY, history, before, e, After(before, e));
      rest := After(before, e);
      history := history + [e];
    }

    /** One step of a pipe, which becomes `p`. */
    method Move(l: Link, p: Pipe, ghost e: Event)
      requires Valid() && IsPipeStep(e) && Enabled(State(), e) && After(State(), e).pipes == pipes[l := p]
      modifies this
      ensures Valid() && State() == After(old(State()), e) && history == old(history) + [e]
    {
      ghost var before := State();
      pipes := pipes[l := p];
      Note(before, e);
    }

    /** The receive of one turn of a pipe and, if it gets a frame, the send; others run between the two. */
    method Turn(l: Link, turn: Turn) returns (end: End)
      requires Valid() && Receiving(State(), l)
      modifies this
      ensures Valid() && old(history) <= history
      ensures l in pipes && end == pipes[l].end == EndOf([turn]) && (end == Running ==> pipes[l].carrying == None)
      ensures Handed(State(), l) == old(Handed(State(), l)) + Delivered([turn])
    {
      match turn
      case MeetsEof =>
        Move(l, Pipe(None, CleanEof), RecvEof(l));
        end := CleanEof;
      case MeetsError =>
        Move(l, Pipe(None, Failed), RecvError(l));
        end := Failed;
      case Meets(msg, sendOk) =>
        Move(l, Pipe(Some(msg), Running), Recv(l, msg));
        end := HandOn(l, msg, sendOk);
    }

    method HandOn(l: Link, msg: Frame, sendOk: bool) returns (end: End)
      requires Valid() && l in pipes && pipes[l] == Pipe(Some(msg), Running)
      modifies this
      ensures Valid() && old(history) <= history
      ensures l in pipes && end == pipes[l].end == (if sendOk then Running else Failed)
      ensures end == Running ==> pipes[l].carrying == None
      ensures Handed(State(), l) == old(Handed(State(), l)) + if sendOk then [msg] else []
    {
      Interference(Some(l), l.from);
      if sendOk {
        ShareAppend(At(State().sent, l.to), Tagged(l.from, msg), l.from);
        Move(l, Pipe(None, Running), Send(l));
        end := Running;
      } else {
        Move(l, Pipe(Some(msg), Failed), SendError(l));
        end := Failed;
      }
    }

    /** A pipe that began with `first` handed on has met `turns` since. */
    ghost predicate Met(l: Link, first: seq<Frame>, turns: seq<Turn>)
      reads this
    {
      && l in pipes && pipes[l].end == EndOf(turns) && (pipes[l].end == Running ==> pipes[l].carrying == None)
      && Handed(State(), l) == first + Delivered(turns)
    }

    method NextTurn(l: Link, turns: seq<Turn>, i: nat, ghost first: seq<Frame>) returns (end: End)
      requires Valid() && i < |turns| && Met(l, first, turns[..i]) && EndOf(turns[..i]) == Running
      modifies this
      ensures Valid() && old(history) <= history
      ensures Met(l, first, turns[..i + 1]) && end == EndOf(turns[..i + 1])
      ensures end != Running ==> Met(l, first, turns) && end == EndOf(turns)
    {
      Interference(Some(l), l.from);
      OneMoreTurn(turns, i);
      end := Turn(l, turns[i]);
    }

    /** The loop of a pipe: whatever runs beside it, it hands on exactly the frames received before the
        first end or failure, ends as that says, and on a clean end has handed on all it ever received. */
    method RunPipe(l: Link, turns: seq<Turn>) returns (end: End)
      requires Valid() && Receiving(State(), l)
      modifies this
      ensures Valid() && old(history) <= history
      ensures l in pipes && end == pipes[l].end == EndOf(turns)
      ensures Handed(State(), l) == old(Handed(State(), l)) + Delivered(turns)
      ensures end == CleanEof ==> Handed(State(), l) == Got(State(), l)
      ensures forall i: nat | i < |turns| && AllSent(turns, i) && turns[i].MeetsEof? ::
                end == CleanEof && Handed(State(), l) == old(Handed(State(), l)) + FramesOf(turns, i)
      ensures forall i: nat | i < |turns| && AllSent(turns, i)
                              && (turns[i].MeetsError? || (turns[i].Meets? && !turns[i].sendOk)) ::
                end == Failed && Handed(State(), l) == old(Handed(State(), l)) + FramesOf(turns, i)
      ensures AllSent(turns, |turns|) ==>
                end == Running && Handed(State(), l) == old(Handed(State(), l)) + FramesOf(turns, |turns|)
    {
      end := RunTurns(l, turns);
      forall i: nat | AllSent(turns, i)
        ensures i == |turns| ==> end == Running && Delivered(turns) == FramesOf(turns, i)
        ensures i < |turns| && turns[i].MeetsEof? ==> end == CleanEof && Delivered(turns) == FramesOf(turns, i)
        ensures i < |turns| && (turns[i].MeetsError? || (turns[i].Meets? && !turns[i].sendOk)) ==>
                  end == Failed && Delivered(turns) == FramesOf(turns, i)
      {
        FirstStop(turns, i);
      }
    }

    /** The loop itself, against the functions that follow its turns. */
    method RunTurns(l: Link, turns: seq<Turn>) returns (end: End)
      requires Valid() && Receiving(State(), l)
      modifies this
      ensures Valid() && old(history) <= history
      ensures l in pipes && end == pipes[l].end == EndOf(turns)
      ensures Handed(State(), l) == old(Handed(State(), l)) + Delivered(turns)
      ensures end == CleanEof ==> Handed(State(), l) == Got(State(), l)
    {
      ghost var first := Handed(State(), l);
      end := Running;
      var i := 0;
      while i < |turns| && end == Running
        invariant 0 <= i <= |turns| && Valid() && old(history) <= history
        invariant Met(l, first, turns[..i]) && end == EndOf(turns[..i])
        invariant end != Running ==> Met(l, first, turns) && end == EndOf(turns)
      {
        end := NextTurn(l, turns, i, first);
        i := i + 1;
      }
      assert i == |turns| ==> turns[..i] == turns;
      PipesForward(history, State(), l);
    }

    /** Load or store the call under its name; a call that finds another one starts the two pipes. */
    method LoadOrStore(id: nat, name: string) returns (other: Option<nat>)
      requires Valid() && id !in State().calls
      modifies this
      ensures Valid() && State() == After(old(State()), Arrive(id, name))
              && history == old(history) + [Arrive(id, name)]
      ensures other == if name in old(pending) then Some(old(pending[name])) else None
    {
      ghost var before := State();
      if name in pending {
        other := Some(pending[name]);
        pipes := Joined(pipes, id, pending[name]);
      } else {
        other := None;
        pending := pending[name := id];
      }
      Note(before, Arrive(id, name));
    }

    /** The wait for both pipes: return once both have ended, with an error unless both ended cleanly. */
    method TryForwarded(id: nat, first: nat) returns (done: bool, failed: bool)
      requires Valid() && Link(id, first) in pipes && Link(first, id) in pipes
      requires id in State().calls && id !in State().returned && State().calls[id] in pending
      requires pending[State().calls[id]] == first != id
      modifies this
      ensures Valid() && old(history) <= history && State().calls == old(State().calls)
      ensures pending == old(pending) && pipes == old(pipes)
      ensures done <==> id in State().returned
      ensures done <==> BothEnded(State(), id, first)
      ensures done ==> first in cancelled
      ensures failed <==> done && !(pipes[Link(id, first)].end == CleanEof == pipes[Link(first, id)].end)
    {
      done := pipes[Link(id, first)].end != Running && pipes[Link(first, id)].end != Running;
      failed := done && (pipes[Link(id, first)].end == Failed || pipes[Link(first, id)].end == Failed);
      if done {
        ghost var before := State();
        cancelled := cancelled[first := id];
        Note(before, Return(id));
      }
    }

    /** The wait of the first call of a name. */
    method TryWaited(id: nat) returns (done: bool)
      requires Valid() && id in State().calls && id !in State().returned
      requires State().calls[id] in pending && pending[State().calls[id]] == id
      modifies this
      ensures Valid() && old(history) <= history && State().calls == old(State().calls)
      ensures pending == old(pending) && pipes == old(pipes)
      ensures done <==> id in State().returned
      ensures done <==> id in left || id in cancelled
    {
      done := id in left || id in cancelled;
      if done {
        Note(State(), Return(id));
      }
    }

    /** The call `id` is joined with `other`, or waits as the first of its name. */
    ghost predicate Waiting(id: nat, name: string, other: Option<nat>)
      reads this
    {
      && id in State().calls && State().calls[id] == name
      && name in pending && pending[name] == (if other.Some? then other.value else id)
      && (other.Some? ==> other.value != id && Link(id, other.value) in pipes && Link(other.value, id) in pipes)
    }

    /** When and how the call returns: a joined one once both pipes have ended, with an error unless both
        ended cleanly, and then it has cancelled the other; the first of a name once its context is done. */
    ghost predicate Outcome(id: nat, other: Option<nat>, done: bool, failed: bool)
      reads this
    {
      && (done <==> id in State().returned)
      && (done && other.Some? ==>
            && BothEnded(State(), id, other.value) && other.value in cancelled
            && (failed <==> !(pipes[Link(id, other.value)].end == CleanEof == pipes[Link(other.value, id)].end)))
      && (done && other.None? ==> id in left || id in cancelled)
      && (failed ==> done && other.Some?)
    }

    /** A call that looks returns as soon as it can. */
    ghost predicate Prompt(id: nat, other: Option<nat>, done: bool)
      reads this
    {
      && (other.Some? ==> (done <==> BothEnded(State(), id, other.value)))
      && (other.None? ==> (done <==> id in left || id in cancelled))
    }

    method Look(id: nat, name: string, other: Option<nat>) returns (done: bool, failed: bool)
      requires Valid() && Waiting(id, name, other) && id !in State().returned
      modifies this
      ensures Valid() && old(history) <= history
      ensures Waiting(id, name, other) && Outcome(id, other, done, failed) && Prompt(id, other, done)
    {
      Interference(None, id);
      failed := false;
      if other.Some? {
        done, failed := TryForwarded(id, other.value);
      } else {
        done := TryWaited(id);
      }
    }

    /** A `Stream` call with an authenticated name: the first call of the name waits, a later one forwards
        with the first. `looks` bounds how often it looks whether it can return. */
    method Stream(id: nat, name: string, looks: nat) returns (other: Option<nat>, done: bool, failed: bool)
      requires Valid() && id !in State().calls
      modifies this
      ensures Valid() && old(history) + [Arrive(id, name)] <= history
      ensures other == if name in old(pending) then Some(old(pending[name])) else None
      ensures Waiting(id, name, other) && Outcome(id, other, done, failed)
      ensures looks > 0 ==> Prompt(id, other, done)
    {
      NewCallNotReturned(history, State(), id);
      other := LoadOrStore(id, name);
      failed := false;
      done := false;
      var i := 0;
      while i < looks && !done
        invariant Valid() && old(history) + [Arrive(id, name)] <= history
        invariant Waiting(id, name, other) && Outcome(id, other, done, failed)
        invariant i > 0 ==> Prompt(id, other, done)
        decreases looks - i
      {
        done, failed := Look(id, name, other);
        i := i + 1;
      }
    }
  }

  lemma NewCallNotReturned(events: seq<Event>, s: Router, id: nat)
    requires Leads(Next, EMPTY, events, s) && id !in s.calls
    ensures id !in s.returned
    ensures forall n | n in s.pending :: s.pending[n] != id
  {
    InvHolds(events, s);
    assert id in s.returned ==> ReturnedOk(s, id);
  }
}
