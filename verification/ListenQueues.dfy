/**
 The queues between clients that dial and exporters that listen: one bounded channel per lease name.
 Dialers push a response, listeners pop one and send it on; any of them may give up at any time.
 */
module ListenQueues {
  import opened Options
  import opened Runs
  import opened Histories

  const CAPACITY: nat := 8

  datatype Response = Response(routerEndpoint: string, routerToken: string)

  /** A running `Listen` call: its lease, and the response it has popped and not yet sent. */
  datatype Listener = Listener(lease: string, held: Option<Response>, live: bool)

  /** The channels and the running listeners, with the history of what went through: the responses
      accepted for a lease, the pops of a lease with the listener of each, and what each listener sent or lost. */
  datatype Service = Service(
    queues: map<string, seq<Response>>,
    listeners: map<nat, Listener>,
    accepted: map<string, seq<Response>>,
    popped: map<string, seq<Tagged<Response>>>,
    sent: map<nat, seq<Response>>,
    lost: map<nat, seq<Response>>)

  datatype Event =
    | Open(lease: string)                         // load or store the channel of the lease
    | Accept(lease: string, response: Response)   // a dialer's push goes through
    | Register(listener: nat, lease: string)
    | Receive(listener: nat)
    | SendDone(listener: nat)
    | SendFailed(listener: nat)
    | Leave(listener: nat)                        // cancelled while waiting

  predicate Running(s: Service, listener: nat) {
    listener in s.listeners && s.listeners[listener].live
  }

  function Opened(queues: map<string, seq<Response>>, lease: string): map<string, seq<Response>> {
    if lease in queues then queues else queues[lease := []]
  }

  predicate Enabled(s: Service, e: Event) {
    match e
    case Open(_) => true
    case Accept(lease, _) => lease in s.queues && |s.queues[lease]| < CAPACITY
    case Register(listener, lease) => listener !in s.listeners && lease in s.queues
    case Receive(listener) => Running(s, listener) && s.listeners[listener].held.None?
        && At(s.queues, s.listeners[listener].lease) != []
    case SendDone(listener) => Running(s, listener) && s.listeners[listener].held.Some?
    case SendFailed(listener) => Running(s, listener) && s.listeners[listener].held.Some?
    case Leave(listener) => Running(s, listener) && s.listeners[listener].held.None?
  }

  function After(s: Service, e: Event): Service
    requires Enabled(s, e)
  {
    match e
    case Open(lease) => s.(queues := Opened(s.queues, lease))
    case Accept(lease, response) =>
      s.(queues := s.queues[lease := s.queues[lease] + [response]],
         accepted := s.accepted[lease := At(s.accepted, lease) + [response]])
    case Register(listener, lease) => s.(listeners := s.listeners[listener := Listener(lease, None, true)])
    case Receive(listener) =>
      var lease := s.listeners[listener].lease;
      var q := At(s.queues, lease);
      s.(queues := s.queues[lease := q[1..]],
         listeners := s.listeners[listener := s.listeners[listener].(held := Some(q[0]))],
         popped := s.popped[lease := At(s.popped, lease) + [Tagged(listener, q[0])]])
    case SendDone(listener) =>
      s.(listeners := s.listeners[listener := s.listeners[listener].(held := None)],
         sent := s.sent[listener := At(s.sent, listener) + [s.listeners[listener].held.value]])
    case SendFailed(listener) =>
      s.(listeners := s.listeners[listener := s.listeners[listener].(held := None, live := false)],
         lost := s.lost[listener := At(s.lost, listener) + [s.listeners[listener].held.value]])
    case Leave(listener) => s.(listeners := s.listeners[listener := s.listeners[listener].(live := false)])
  }

  predicate Next(s: Service, e: Event, t: Service) {
    Enabled(s, e) && t == After(s, e)
  }

  const EMPTY := Service(map[], map[], map[], map[], map[], map[])

  // ---------------------------------------------------------------- the invariant

  function Held(l: Listener): seq<Response> {
    if l.held.Some? then [l.held.value] else []
  }

  /** Nothing is lost or doubled between the dialers and the listeners, and order is kept. */
  predicate QueueOk(s: Service, lease: string) {
    && At(s.accepted, lease) == Values(At(s.popped, lease)) + At(s.queues, lease)
    && |At(s.queues, lease)| <= CAPACITY
    && (forall i | 0 <= i < |At(s.popped, lease)| ::
          var id := At(s.popped, lease)[i].who;
          id in s.listeners && s.listeners[id].lease == lease)
  }

  /** A listener has sent everything it popped, in order, but for at most one: the one it still holds
      or the one whose failed send ended it. */
  predicate ListenerOk(s: Service, id: nat)
    requires id in s.listeners
  {
    var l := s.listeners[id];
    && Share(At(s.popped, l.lease), id) == At(s.sent, id) + At(s.lost, id) + Held(l)
    && |At(s.lost, id)| <= 1
    && (At(s.lost, id) != [] ==> !l.live && l.held.None?)
  }

  ghost predicate Inv(s: Service) {
    && (forall lease :: QueueOk(s, lease))
    && (forall id | id in s.listeners :: ListenerOk(s, id))
    && (forall id | id !in s.listeners :: At(s.sent, id) == [] && At(s.lost, id) == [])
  }

  lemma ReceiveKeepsQueue(s: Service, id: nat, lease: string)
    requires QueueOk(s, lease) && Enabled(s, Receive(id))
    ensures QueueOk(After(s, Receive(id)), lease)
  {
    var t := After(s, Receive(id));
    var q := At(s.queues, lease);
    if s.listeners[id].lease == lease {
      assert q == [q[0]] + q[1..];
      assert Values(At(t.popped, lease)) == Values(At(s.popped, lease)) + [q[0]];
    }
  }

  lemma ReceiveKeepsListener(s: Service, id: nat, i: nat)
    requires Inv(s) && Enabled(s, Receive(id)) && i in s.listeners
    ensures ListenerOk(After(s, Receive(id)), i)
  {
    var lease := s.listeners[id].lease;
    assert ListenerOk(s, i);
    if s.listeners[i].lease == lease {
      ShareAppend(At(s.popped, lease), Tagged(id, At(s.queues, lease)[0]), i);
    }
  }

  lemma ReceiveKeeps(s: Service, id: nat)
    requires Inv(s) && Enabled(s, Receive(id))
    ensures Inv(After(s, Receive(id)))
  {
    var t := After(s, Receive(id));
    forall l ensures QueueOk(t, l) {
      assert QueueOk(s, l);
      ReceiveKeepsQueue(s, id, l);
    }
    forall i | i in t.listeners ensures ListenerOk(t, i) {
      ReceiveKeepsListener(s, id, i);
    }
  }

  lemma RegisterKeeps(s: Service, id: nat, lease: string)
    requires Inv(s) && Enabled(s, Register(id, lease))
    ensures Inv(After(s, Register(id, lease)))
  {
    var t := After(s, Register(id, lease));
    assert QueueOk(s, lease);
    NoShare(At(s.popped, lease), id);
    forall l ensures QueueOk(t, l) {
      assert QueueOk(s, l);
    }
    forall i | i in t.listeners ensures ListenerOk(t, i) {
      if i != id {
        assert ListenerOk(s, i);
      }
    }
  }

  lemma AcceptKeeps(s: Service, lease: string, response: Response)
    requires Inv(s) && Enabled(s, Accept(lease, response))
    ensures Inv(After(s, Accept(lease, response)))
  {
    var t := After(s, Accept(lease, response));
    forall l ensures QueueOk(t, l) {
      assert QueueOk(s, l);
    }
    forall i | i in t.listeners ensures ListenerOk(t, i) {
      assert ListenerOk(s, i);
    }
  }

  /** Opening a channel, and what a listener does on its own: sending, failing and leaving. */
  predicate IsQuiet(e: Event) {
    e.Open? || e.SendDone? || e.SendFailed? || e.Leave?
  }

  lemma QuietKeepsQueue(s: Service, e: Event, lease: string)
    requires QueueOk(s, lease) && Enabled(s, e) && IsQuiet(e)
    ensures QueueOk(After(s, e), lease)
  {
  }

  lemma QuietKeepsListener(s: Service, e: Event, i: nat)
    requires i in s.listeners && ListenerOk(s, i) && Enabled(s, e) && IsQuiet(e)
    ensures ListenerOk(After(s, e), i)
  {
  }

  lemma QuietKeeps(s: Service, e: Event)
    requires Inv(s) && Enabled(s, e) && IsQuiet(e)
    ensures Inv(After(s, e))
  {
    var t := After(s, e);
    forall l ensures QueueOk(t, l) {
      assert QueueOk(s, l);
      QuietKeepsQueue(s, e, l);
    }
    forall i | i in t.listeners ensures ListenerOk(t, i) {
      assert ListenerOk(s, i);
      QuietKeepsListener(s, e, i);
    }
  }

  lemma StepKeeps(s: Service, e: Event)
    requires Inv(s) && Enabled(s, e)
    ensures Inv(After(s, e))
  {
    match e
    case Receive(id) => ReceiveKeeps(s, id);
    case Register(id, lease) => RegisterKeeps(s, id, lease);
    case Accept(lease, response) => AcceptKeeps(s, lease, response);
    case _ => QuietKeeps(s, e);
  }

  lemma InvHolds(events: seq<Event>, s: Service)
    requires Leads(Next, EMPTY, events, s)
    ensures Inv(s)
  {
    EmptyInv();
    forall x, e, y | e in events && Inv(x) && Next(x, e, y) ensures Inv(y) {
      StepKeeps(x, e);
    }
    RunKeeps(Next, Inv, EMPTY, events, s);
  }

  lemma EmptyInv()
    ensures Inv(EMPTY)
  {
  }

  // ---------------------------------------------------------------- conservation over whole runs

  /** Under any interleaving the responses accepted for a lease are, in the order they were accepted,
      those popped followed by those still queued, and never more than eight are queued. */
  lemma FirstInFirstOut(events: seq<Event>, s: Service, lease: string)
    requires Leads(Next, EMPTY, events, s)
    ensures At(s.accepted, lease) == Values(At(s.popped, lease)) + At(s.queues, lease)
    ensures |At(s.queues, lease)| <= 8
  {
    InvHolds(events, s);
    assert QueueOk(s, lease);
  }

  /** Where the `i`th response accepted for a lease is. */
  datatype Place =
    | Queued(position: nat)
    | SentBy(listener: nat, position: nat)
    | HeldBy(listener: nat)
    | LostBy(listener: nat)

  predicate IsAt(s: Service, lease: string, r: Response, p: Place) {
    match p
    case Queued(position) => position < |At(s.queues, lease)| && At(s.queues, lease)[position] == r
    case SentBy(id, position) =>
      id in s.listeners && s.listeners[id].lease == lease && position < |At(s.sent, id)|
          && At(s.sent, id)[position] == r
    case HeldBy(id) => id in s.listeners && s.listeners[id].lease == lease && s.listeners[id].held == Some(r)
    case LostBy(id) => id in s.listeners && s.listeners[id].lease == lease && At(s.lost, id) == [r]
  }

  /** The one place of the `i`th accepted response of a lease. */
  function PlaceOf(s: Service, lease: string, i: nat): Place
    requires i < |At(s.accepted, lease)|
  {
    var pops := At(s.popped, lease);
    if i >= |pops| then Queued(i - |pops|)
    else
      var id := pops[i].who;
      var position := |Share(pops[..i], id)|;
      if position < |At(s.sent, id)| then SentBy(id, position)
      else if At(s.lost, id) != [] then LostBy(id)
      else HeldBy(id)
  }

  /** Conservation: every accepted response is still queued, or was sent, lost on a failed send, or is
      held, by a listener of its own lease, and no two of them are in the same place. */
  lemma Conservation(events: seq<Event>, s: Service, lease: string, i: nat)
    requires Leads(Next, EMPTY, events, s) && i < |At(s.accepted, lease)|
    ensures IsAt(s, lease, At(s.accepted, lease)[i], PlaceOf(s, lease, i))
    ensures forall j: nat | j < |At(s.accepted, lease)| && j != i :: PlaceOf(s, lease, j) != PlaceOf(s, lease, i)
  {
    InvHolds(events, s);
    PlaceIsRight(s, lease, i);
    forall j: nat | j < |At(s.accepted, lease)| && j != i ensures PlaceOf(s, lease, j) != PlaceOf(s, lease, i) {
      PlaceIsRight(s, lease, j);
      if i < j {
        PlacesDiffer(s, lease, i, j);
      } else {
        PlacesDiffer(s, lease, j, i);
      }
    }
  }

  lemma PlaceIsRight(s: Service, lease: string, i: nat)
    requires Inv(s) && i < |At(s.accepted, lease)|
    ensures IsAt(s, lease, At(s.accepted, lease)[i], PlaceOf(s, lease, i))
    ensures var pops := At(s.popped, lease);
            i < |pops| ==> |Share(pops[..i], pops[i].who)| <= |At(s.sent, pops[i].who)|
  {
    assert QueueOk(s, lease);
    var pops := At(s.popped, lease);
    if i < |pops| {
      PoppedPlaceIsRight(s, lease, i);
      assert At(s.accepted, lease)[i] == Values(pops)[i] == pops[i].what;
    } else {
      assert At(s.accepted, lease)[i] == At(s.queues, lease)[i - |pops|];
    }
  }

  lemma PoppedPlaceIsRight(s: Service, lease: string, i: nat)
    requires QueueOk(s, lease) && i < |At(s.popped, lease)|
    requires ListenerOk(s, At(s.popped, lease)[i].who)
    ensures i < |At(s.accepted, lease)|
    ensures var pops := At(s.popped, lease);
            && IsAt(s, lease, pops[i].what, PlaceOf(s, lease, i))
            && |Share(pops[..i], pops[i].who)| <= |At(s.sent, pops[i].who)|
  {
    ShareAt(At(s.popped, lease), i, At(s.popped, lease)[i].who);
  }

  lemma PlacesDiffer(s: Service, lease: string, i: nat, j: nat)
    requires Inv(s) && i < j < |At(s.accepted, lease)|
    ensures PlaceOf(s, lease, j) != PlaceOf(s, lease, i)
  {
    assert QueueOk(s, lease);
    PlaceIsRight(s, lease, j);
    var pops := At(s.popped, lease);
    if j < |pops| && pops[i].who == pops[j].who {
      assert pops[..j][..i] == pops[..i];
      ShareAt(pops[..j], i, pops[i].who);
    }
  }

  /** What a listener sent, and lost when its send failed, is what it popped, in order. */
  lemma ListenerAccounts(events: seq<Event>, s: Service, id: nat)
    requires Leads(Next, EMPTY, events, s) && id in s.listeners && s.listeners[id].held.None?
    ensures Share(At(s.popped, s.listeners[id].lease), id) == At(s.sent, id) + At(s.lost, id)
    ensures |At(s.lost, id)| <= 1
  {
    InvHolds(events, s);
    assert ListenerOk(s, id);
  }

  /** A channel without room holds eight responses. */
  lemma FullNow(events: seq<Event>, s: Service, lease: string)
    requires Leads(Next, EMPTY, events, s) && |At(s.queues, lease)| >= CAPACITY
    ensures |At(s.queues, lease)| == 8
  {
    FirstInFirstOut(events, s, lease);
  }

  lemma NewListenerLostNothing(events: seq<Event>, s: Service, id: nat)
    requires Leads(Next, EMPTY, events, s) && id !in s.listeners
    ensures At(s.lost, id) == [] && At(s.sent, id) == []
  {
    InvHolds(events, s);
  }

  // ---------------------------------------------------------------- the code

  /** What one turn of the listen loop meets: a cancelled context, or a receive and a send. */
  datatype Turn = Cancelled | Received(sendOk: bool)

  /** The states that were met after so many of the events, not before the first `from`. */
  ghost predicate LogIn(events: seq<Event>, from: nat, at: seq<nat>, met: seq<Service>) {
    |at| == |met| && forall i | 0 <= i < |at| :: from <= at[i] && MetAfter(events, at[i], met[i])
  }

  ghost predicate MetAfter(events: seq<Event>, n: nat, s: Service) {
    n <= |events| && Leads(Next, EMPTY, events[..n], s)
  }

  lemma LogGrows(events: seq<Event>, longer: seq<Event>, from: nat, at: seq<nat>, met: seq<Service>)
    requires LogIn(events, from, at, met) && events <= longer
    ensures LogIn(longer, from, at, met)
  {
    forall i | 0 <= i < |at| ensures MetAfter(longer, at[i], met[i]) {
      assert MetAfter(events, at[i], met[i]);
      assert longer[..at[i]] == events[..at[i]];
    }
  }

  lemma LogNext(events: seq<Event>, from: nat, at: seq<nat>, met: seq<Service>, n: nat, s: Service)
    requires LogIn(events, from, at, met) && from <= n && n == |events| && Leads(Next, EMPTY, events, s)
    ensures LogIn(events, from, at + [n], met + [s])
  {
    assert events[..n] == events;
  }

  /** What a turn pops when it meets this state. */
  function First(turn: Turn, met: Service, lease: string): seq<Response> {
    if turn.Received? && At(met.queues, lease) != [] then [At(met.queues, lease)[0]] else []
  }

  function Firsts(turns: seq<Turn>, met: seq<Service>, lease: string): seq<Response>
    requires |met| <= |turns|
  {
    if met == [] then []
    else Firsts(turns, met[..|met| - 1], lease) + First(turns[|met| - 1], met[|met| - 1], lease)
  }

  lemma FirstsNext(turns: seq<Turn>, met: seq<Service>, s: Service, lease: string)
    requires |met| < |turns|
    ensures Firsts(turns, met + [s], lease) == Firsts(turns, met, lease) + First(turns[|met|], s, lease)
  {
    assert (met + [s])[..|met|] == met;
  }

  /** The shared map of channels. The listeners, the responses that went through, all the events so far
      and how many of them were the caller's own are ghost. */
  class ControllerService {
    var listenQueues: map<string, seq<Response>>
    ghost var rest: Service
    ghost var history: seq<Event>
    ghost var own: nat

    ghost function State(): Service
      reads this
    {
      rest.(queues := listenQueues)
    }

    ghost predicate Valid()
      reads this
    {
      Leads(Next, EMPTY, history, State())
    }

    constructor ()
      ensures Valid() && history == []
    {
      listenQueues := map[];
      rest := EMPTY;
      history := [];
      own := 0;
    }

    /** What other dialers and listeners do meanwhile; listener `self` is the caller's. */
    method Interference(ghost self: Option<nat>)
      requires Valid()
      modifies this
      ensures Valid() && old(history) <= history && own == old(own)
      ensures old(listenQueues).Keys <= listenQueues.Keys
      ensures self.Some? ==> SameListener(old(State()), State(), self.value)
    {
    }

    ghost predicate SameListener(s: Service, t: Service, id: nat) {
      && (id in s.listeners <==> id in t.listeners)
      && (id in s.listeners ==> s.listeners[id] == t.listeners[id])
      && At(s.sent, id) == At(t.sent, id) && At(s.lost, id) == At(t.lost, id)
    }

    ghost method Note(before: Service, e: Event)
      requires Leads(Next, EMPTY, history, before) && Enabled(before, e) && listenQueues == After(before, e).queues
      modifies this`rest, this`history, this`own
      ensures Valid() && State() == After(before, e) && history == old(history) + [e] && own == old(own) + 1
    {
      LeadsOn(Next, EMPTY, history, before, e, After(before, e));
      rest := After(before, e);
      history := history + [e];
      own := own + 1;
    }

    method LoadOrStore(lease: string)
      requires Valid()
      modifies this
      ensures Valid() && State() == After(old(State()), Open(lease)) && history == old(history) + [Open(lease)]
      ensures own == old(own) + 1
    {
      ghost var before := State();
      if lease !in listenQueues {
        listenQueues := listenQueues[lease := []];
      }
      Note(before, Open(lease));
    }

    method Push(lease: string, response: Response)
      requires Valid() && Enabled(State(), Accept(lease, response))
      modifies this
      ensures Valid() && State() == After(old(State()), Accept(lease, response))
      ensures history == old(history) + [Accept(lease, response)] && own == old(own) + 1
    {
      ghost var before := State();
      listenQueues := listenQueues[lease := listenQueues[lease] + [response]];
      Note(before, Accept(lease, response));
    }

    method Pop(ghost self: nat, lease: string) returns (response: Response)
      requires Valid() && Enabled(State(), Receive(self)) && State().listeners[self].lease == lease
      modifies this
      ensures Valid() && State() == After(old(State()), Receive(self)) && history == old(history) + [Receive(self)]
      ensures State().listeners[self].held == Some(response)
    {
      ghost var before := State();
      response := listenQueues[lease][0];
      listenQueues := listenQueues[lease := listenQueues[lease][1..]];
      Note(before, Receive(self));
    }

    /** The end of a `Dial`: push the response once there is room, or give up when cancelled. Each
        entry of `cancelled` is one look at the context and the channel. It opens the channel first;
        success means that the push was its second and last step, giving up that there was no second. It
        gives up only when cancelled, after finding the channel full at every look before that, or when it
        was full at every look. */
    method Dial(lease: string, response: Response, cancelled: seq<bool>)
        returns (ok: bool, ghost full: seq<Service>, ghost at: seq<nat>)
      requires Valid()
      modifies this
      ensures Valid() && old(history) + [Open(lease)] <= history
      ensures own == old(own) + if ok then 2 else 1
      ensures ok ==> history[|history| - 1] == Accept(lease, response)
      ensures ok ==> |At(listenQueues, lease)| > 0 && At(listenQueues, lease)[|At(listenQueues, lease)| - 1] == response
      ensures LogIn(history, |old(history)|, at, full) && forall s | s in full :: |At(s.queues, lease)| == 8
      ensures |full| <= |cancelled| && forall i | 0 <= i < |full| :: !cancelled[i]
      ensures ok ==> |full| < |cancelled| && !cancelled[|full|]
      ensures !ok && |full| < |cancelled| ==> cancelled[|full|]
    {
      LoadOrStore(lease);
      full, at := [], [];
      for i := 0 to |cancelled|
        invariant Valid() && old(history) + [Open(lease)] <= history && lease in listenQueues && own == old(own) + 1
        invariant |full| == i && forall j | 0 <= j < i :: !cancelled[j]
        invariant LogIn(history, |old(history)|, at, full) && forall s | s in full :: |At(s.queues, lease)| == 8
      {
        ghost var before := history;
        Interference(None);
        LogGrows(before, history, |old(history)|, at, full);
        if cancelled[i] {
          return false, full, at;
        }
        if |listenQueues[lease]| < CAPACITY {
          before := history;
          Push(lease, response);
          LogGrows(before, history, |old(history)|, at, full);
          return true, full, at;
        }
        FullNow(history, State(), lease);
        LogNext(history, |old(history)|, at, full, |history|, State());
        full, at := full + [State()], at + [|history|];
      }
      ok := false;
    }

    /** One receive and send of a `Listen`; others run between the two. */
    method Serve(ghost self: nat, lease: string, sendOk: bool)
      requires Valid() && Enabled(State(), Receive(self)) && State().listeners[self].lease == lease
      modifies this
      ensures Valid() && old(history) <= history && lease in listenQueues
      ensures self in State().listeners
      ensures State().listeners[self] == Listener(lease, None, sendOk)
      ensures var r := old(At(listenQueues, lease)[0]);
              && At(State().sent, self) == old(At(State().sent, self)) + (if sendOk then [r] else [])
              && At(State().lost, self) == old(At(State().lost, self)) + (if sendOk then [] else [r])
    {
      var msg := Pop(self, lease);
      Interference(Some(self));
      Note(State(), if sendOk then SendDone(self) else SendFailed(self));
    }

    /** One turn of a `Listen`: a cancelled listener leaves, and one that finds a response pops and sends the first. The
        state it meets is logged. */
    method ListenTurn(ghost self: nat, lease: string, turn: Turn, ghost from: nat, ghost at: seq<nat>,
                      ghost met: seq<Service>)
        returns (failed: bool, ghost now: Service, ghost n: nat)
      requires Valid() && lease in listenQueues && from <= |history| && LogIn(history, from, at, met)
      requires self in State().listeners && State().listeners[self] == Listener(lease, None, true)
      modifies this
      ensures Valid() && old(history) <= history && lease in listenQueues
      ensures LogIn(history, from, at + [n], met + [now])
      ensures self in State().listeners
      ensures State().listeners[self] == Listener(lease, None, !failed && !turn.Cancelled?)
      ensures failed <==> turn.Received? && !turn.sendOk && First(turn, now, lease) != []
      ensures At(State().sent, self)
           == old(At(State().sent, self)) + (if failed then [] else First(turn, now, lease))
      ensures At(State().lost, self)
           == old(At(State().lost, self)) + (if failed then First(turn, now, lease) else [])
    {
      ghost var before := history;
      Interference(Some(self));
      now, n := State(), |history|;
      LogGrows(before, history, from, at, met);
      LogNext(history, from, at, met, n, now);
      before := history;
      failed := false;
      if turn.Cancelled? {
        Note(State(), Leave(self));
      } else if listenQueues[lease] != [] {
        Serve(self, lease, turn.sendOk);
        failed := !turn.sendOk;
      }
      LogGrows(before, history, from, at + [n], met + [now]);
    }

    /** The listener has taken these turns, meeting these states, and accounts for what it popped. */
    ghost predicate Served(self: nat, lease: string, turns: seq<Turn>, from: nat, at: seq<nat>, met: seq<Service>,
                           failed: bool)
      reads this
    {
      && |met| <= |turns| && from <= |history| && LogIn(history, from, at, met)
      && |At(State().lost, self)| == (if failed then 1 else 0)
      && At(State().sent, self) + At(State().lost, self) == Firsts(turns, met, lease)
    }

    method ListenNext(ghost self: nat, lease: string, turns: seq<Turn>, i: nat, ghost from: nat, ghost at: seq<nat>,
                      ghost met: seq<Service>)
        returns (failed: bool, ghost later: seq<nat>, ghost more: seq<Service>)
      requires Valid() && lease in listenQueues && i == |met| < |turns|
      requires Served(self, lease, turns, from, at, met, false)
      requires self in State().listeners && State().listeners[self] == Listener(lease, None, true)
      modifies this
      ensures Valid() && old(history) <= history && lease in listenQueues && |more| == i + 1
      ensures Served(self, lease, turns, from, later, more, failed)
      ensures self in State().listeners
      ensures State().listeners[self] == Listener(lease, None, !failed && !turns[i].Cancelled?)
    {
      ghost var now, n;
      failed, now, n := ListenTurn(self, lease, turns[i], from, at, met);
      FirstsNext(turns, met, now, lease);
      later, more := at + [n], met + [now];
    }

    method StartListening(ghost self: nat, lease: string)
      requires Valid() && self !in State().listeners
      modifies this
      ensures Valid() && old(history) <= history && lease in listenQueues
      ensures self in State().listeners && State().listeners[self] == Listener(lease, None, true)
      ensures At(State().sent, self) == [] && At(State().lost, self) == []
    {
      NewListenerLostNothing(history, State(), self);
      LoadOrStore(lease);
      Note(State(), Register(self, lease));
    }

    /** The loop of a `Listen`: pop and send, until cancelled or a send fails. Each entry of `turns`
        says what the next turn of the loop meets. Whatever the other calls do meanwhile, it sends what it
        popped, in order, and fails exactly when the last response it popped was lost on a failed send. What it
        popped is the first response of the queue at every turn that is not cancelled and finds one, and it
        stops early only when cancelled or failed. */
    method Listen(ghost self: nat, lease: string, turns: seq<Turn>)
        returns (failed: bool, ghost met: seq<Service>, ghost at: seq<nat>)
      requires Valid() && self !in State().listeners
      modifies this
      ensures Valid() && old(history) <= history
      ensures self in State().listeners && State().listeners[self].lease == lease
      ensures Share(At(State().popped, lease), self) == At(State().sent, self) + At(State().lost, self)
      ensures |At(State().lost, self)| == if failed then 1 else 0
      ensures |met| <= |turns| && LogIn(history, |old(history)|, at, met)
      ensures Share(At(State().popped, lease), self) == Firsts(turns, met, lease)
      ensures |met| < |turns| ==> failed || (|met| > 0 && turns[|met| - 1].Cancelled?)
    {
      StartListening(self, lease);
      failed := false;
      met, at := [], [];
      var i, cancelled := 0, false;
      while i < |turns| && !failed && !cancelled
        invariant i == |met| && Valid() && old(history) <= history && lease in listenQueues
        invariant Served(self, lease, turns, |old(history)|, at, met, failed)
        invariant self in State().listeners && State().listeners[self] == Listener(lease, None, !failed && !cancelled)
        invariant cancelled ==> i > 0 && turns[i - 1].Cancelled?
      {
        failed, at, met := ListenNext(self, lease, turns, i, |old(history)|, at, met);
        cancelled := turns[i].Cancelled?;
        i := i + 1;
      }
      ListenerAccounts(history, State(), self);
    }
  }
}
