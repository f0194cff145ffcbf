/** The browser extension's coordinator: requests queue up, one job runs at a time,
    and one slot holds the call that waits for a reply from the desktop's native host.

    An event runs to completion together with the continuations it makes ready, so a
    reply and the assignments that follow it are one step. Waiting for the keys, the
    signature and a reply end a step. What the browser and the host do (opening a port,
    posting, keys, signing, replies) is an argument of the event. */
module Coordinator {
  import opened Wrappers

  datatype Job = Recover | Send(action: nat, idleOnly: bool)

  datatype Request = Hello | Signed(session: Option<nat>, sequence: nat, action: nat)

  /** What the host answers: a hello with a session, another valid response, or something
      that does not validate. */
  datatype Reply = Welcome(session: nat) | Other | Invalid

  /** The history of native messaging, kept to state the properties. */
  datatype Entry =
    | Posted(call: nat, port: nat, request: Request)
    | Welcomed(port: nat, session: nat)
    | Delivered(call: nat, port: nat)

  /** What the running job waits for. */
  datatype Phase =
    | Idle
    | AwaitHello(job: Job)
    | AwaitKeys(action: nat, idleOnly: bool)
    | AwaitSignature(action: nat, idleOnly: bool, session: Option<nat>, sequence: nat)
    | AwaitReply

  datatype State = State(
    port: Option<nat>,
    session: Option<nat>,
    sequence: nat,
    waiting: Option<nat>,
    active: bool,
    queue: seq<Job>,
    phase: Phase,
    timers: set<nat>,
    unsettled: set<nat>,
    nextPort: nat,
    nextCall: nat,
    log: seq<Entry>)

  function Initial(): State {
    State(None, None, 0, None, false, [], Idle, {}, {}, 0, 0, [])
  }

  datatype Event =
    | Enqueue(job: Job)
    | Begin(statusFailed: bool, opens: bool, posts: bool)
    | KeysReady(ok: bool)
    | SignatureReady(ok: bool, posts: bool)
    | Message(from: nat, reply: Reply)
    | Disconnected(from: nat)
    | Timeout(call: nat)
    | Forget
    | SetActive(active: bool)
    | Restart

  // ---- The steps ----

  /** Closing the port from this side forgets it and its session. The slot stays. */
  function Forgotten(s: State): State {
    s.(port := None, session := None)
  }

  /** The running job ends, with or without an error. */
  function Ended(s: State): State {
    s.(phase := Idle)
  }

  /** A call arms its timer, takes the slot and posts. On a port that is gone or refuses
      the message, everything is forgotten and the job fails. */
  function Called(s: State, request: Request, posts: bool, then_: Phase): State {
    var call := s.nextCall;
    if s.port.Some? && posts then
      s.(waiting := Some(call), timers := s.timers + {call}, unsettled := s.unsettled + {call},
         nextCall := call + 1, log := s.log + [Posted(call, s.port.value, request)], phase := then_)
    else
      s.(waiting := None, session := None, port := None, active := false, nextCall := call + 1, phase := Idle)
  }

  /** The call in the slot, if any, settles. */
  function Settled(s: State): State {
    match s.waiting
    case None => s
    case Some(call) => s.(waiting := None, timers := s.timers - {call}, unsettled := s.unsettled - {call})
  }

  /** What a job does once it is connected. */
  function AfterConnect(job: Job): Phase {
    if job.Recover? then Idle else AwaitKeys(job.action, job.idleOnly)
  }

  /** A connection with a session is used as it is. Otherwise the old port is dropped,
      a new one is opened and greeted. */
  function Connected(s: State, job: Job, opens: bool, posts: bool): State {
    if s.port.Some? && s.session.Some? then
      s.(phase := AfterConnect(job))
    else if !opens then
      Ended(s.(port := None))
    else
      Called(s.(port := Some(s.nextPort), nextPort := s.nextPort + 1), Hello, posts, AwaitHello(job))
  }

  function Begun(s: State, statusFailed: bool, opens: bool, posts: bool): State {
    if s.phase != Idle || s.queue == [] then s
    else
      var job := s.queue[0];
      var t := s.(queue := s.queue[1..]);
      var skip := if job.Recover? then s.active || !statusFailed else job.idleOnly && s.active;
      if skip then t else Connected(t, job, opens, posts)
  }

  /** The payload takes the session and the next sequence number. */
  function WithKeys(s: State, ok: bool): State {
    if !s.phase.AwaitKeys? then s
    else if !ok then Ended(s)
    else
      var next := s.sequence + 1;
      s.(sequence := next, phase := AwaitSignature(s.phase.action, s.phase.idleOnly, s.session, next))
  }

  function WithSignature(s: State, ok: bool, posts: bool): State {
    if !s.phase.AwaitSignature? then s
    else if !ok || (s.phase.idleOnly && s.active) then Ended(s)
    else Called(s, Signed(s.phase.session, s.phase.sequence, s.phase.action), posts, AwaitReply)
  }

  /** A reply on the current port goes to the call in the slot. A hello gives the
      session; any other answer to a hello fails the job and leaves the port open. */
  function Answered(s: State, from: nat, reply: Reply): State {
    if s.port != Some(from) || s.waiting.None? then s
    else
      var t := Settled(s).(log := s.log + [Delivered(s.waiting.value, from)]);
      match s.phase
      case AwaitHello(job) =>
        if reply.Welcome? then
          t.(session := Some(reply.session), sequence := 0, log := t.log + [Welcomed(from, reply.session)],
             phase := AfterConnect(job))
        else
          Ended(t)
      case _ => Ended(t)
  }

  function Step(s: State, e: Event): State {
    match e
    case Enqueue(job) => s.(queue := s.queue + [job])
    case Begin(statusFailed, opens, posts) => Begun(s, statusFailed, opens, posts)
    case KeysReady(ok) => WithKeys(s, ok)
    case SignatureReady(ok, posts) => WithSignature(s, ok, posts)
    case Message(from, reply) => Answered(s, from, reply)
    case Disconnected(from) =>
      if s.port != Some(from) then s
      else
        var t := Settled(s).(port := None, session := None, active := false);
        if s.waiting.Some? then Ended(t) else t
    case Timeout(call) =>
      if call !in s.timers then s
      else
        var t := Forgotten(s.(waiting := None, timers := s.timers - {call}, unsettled := s.unsettled - {call}));
        if s.phase.AwaitHello? || s.phase.AwaitReply? then Ended(t) else t
    case Forget => Forgotten(s)
    case SetActive(active) => s.(active := active)
    case Restart => Initial().(nextPort := s.nextPort, nextCall := s.nextCall, log := s.log)
  }

  function Run(s: State, events: seq<Event>): State {
    if events == [] then s else Step(Run(s, events[..|events| - 1]), events[|events| - 1])
  }

  // ---- What a history must look like ----

  /** The session the host gave in this port's hello. */
  function HelloSession(log: seq<Entry>, port: nat): Option<nat> {
    if log == [] then None
    else
      var last := log[|log| - 1];
      if last.Welcomed? && last.port == port then Some(last.session)
      else HelloSession(log[..|log| - 1], port)
  }

  /** The sequence number of the last signed message on a port, 0 if there is none. */
  function LastSequence(log: seq<Entry>, port: nat): nat {
    if log == [] then 0
    else
      var last := log[|log| - 1];
      if last.Posted? && last.port == port && last.request.Signed? then last.request.sequence
      else LastSequence(log[..|log| - 1], port)
  }

  /** The port a call was posted on. */
  function PostedOn(log: seq<Entry>, call: nat): Option<nat> {
    if log == [] then None
    else
      var last := log[|log| - 1];
      if last.Posted? && last.call == call then Some(last.port) else PostedOn(log[..|log| - 1], call)
  }

  function IsDelivered(log: seq<Entry>, call: nat): bool {
    log != [] &&
    ((log[|log| - 1].Delivered? && log[|log| - 1].call == call) || IsDelivered(log[..|log| - 1], call))
  }

  predicate EntryHonest(log: seq<Entry>, e: Entry) {
    match e
    case Posted(call, port, request) =>
      && PostedOn(log, call) == None
      && (request.Signed? ==> request.session.Some? && HelloSession(log, port) == request.session
                              && LastSequence(log, port) < request.sequence)
    case Welcomed(port, _) => HelloSession(log, port) == None
    case Delivered(call, port) => PostedOn(log, call) == Some(port) && !IsDelivered(log, call)
  }

  predicate Honest(log: seq<Entry>) {
    log != [] ==> Honest(log[..|log| - 1]) && EntryHonest(log[..|log| - 1], log[|log| - 1])
  }

  // ---- The invariant ----

  ghost predicate Fresh(log: seq<Entry>, nextPort: nat, nextCall: nat) {
    && (forall p: nat :: p >= nextPort ==> HelloSession(log, p) == None && LastSequence(log, p) == 0)
    && (forall c: nat :: c >= nextCall ==> PostedOn(log, c) == None && !IsDelivered(log, c))
  }

  /** The slot, the armed timers and the unsettled calls agree, and the call in the slot
      was posted on the current port, if there is one, and is still to be answered. */
  predicate SlotInv(s: State) {
    && s.timers == s.unsettled == (if s.waiting.Some? then {s.waiting.value} else {})
    && (s.waiting.Some? <==> s.phase.AwaitHello? || s.phase.AwaitReply?)
    && (s.waiting.Some? ==>
          && s.waiting.value < s.nextCall
          && !IsDelivered(s.log, s.waiting.value)
          && (s.port.Some? ==> PostedOn(s.log, s.waiting.value) == s.port))
  }

  /** A session belongs to the current port, and no signed message on that port has a
      higher sequence number than the counter. */
  predicate SessionInv(s: State) {
    && (s.port.Some? ==> s.port.value < s.nextPort)
    && (s.session.Some? ==>
          && s.port.Some?
          && HelloSession(s.log, s.port.value) == s.session
          && LastSequence(s.log, s.port.value) <= s.sequence)
  }

  predicate PhaseInv(s: State) {
    match s.phase
    case Idle => true
    case AwaitHello(_) =>
      && s.session.None?
      && (s.port.Some? ==> HelloSession(s.log, s.port.value) == None && LastSequence(s.log, s.port.value) == 0)
    case AwaitKeys(_, _) => s.port.Some? ==> s.session.Some?
    case AwaitSignature(_, _, session, sequence) =>
      s.port.Some? ==>
        && s.session.Some? && session == s.session
        && sequence == s.sequence && LastSequence(s.log, s.port.value) < sequence
    case AwaitReply => true
  }

  ghost predicate Inv(s: State) {
    Honest(s.log) && Fresh(s.log, s.nextPort, s.nextCall) && SlotInv(s) && SessionInv(s) && PhaseInv(s)
  }

  // ---- Appending to the history ----

  lemma {:induction false} Extended(log: seq<Entry>, e: Entry)
    ensures Honest(log + [e]) <==> Honest(log) && EntryHonest(log, e)
    ensures forall p: nat :: HelloSession(log + [e], p)
                             == if e.Welcomed? && e.port == p then Some(e.session) else HelloSession(log, p)
    ensures forall p: nat :: LastSequence(log + [e], p)
                             == if e.Posted? && e.port == p && e.request.Signed? then e.request.sequence
                                else LastSequence(log, p)
    ensures forall c: nat :: PostedOn(log + [e], c)
                             == if e.Posted? && e.call == c then Some(e.port) else PostedOn(log, c)
    ensures forall c: nat :: IsDelivered(log + [e], c) <==> (e.Delivered? && e.call == c) || IsDelivered(log, c)
  {
    assert (log + [e])[..|log + [e]| - 1] == log;
  }

  lemma {:induction false} CalledKeeps(s: State, request: Request, posts: bool, then_: Phase)
    requires Honest(s.log) && Fresh(s.log, s.nextPort, s.nextCall) && s.waiting.None? && SessionInv(s)
    requires s.timers == s.unsettled == {}
    requires then_.AwaitReply? || (then_.AwaitHello? && s.session.None? && request.Hello?)
    requires s.port.Some? && then_.AwaitHello? ==>
               HelloSession(s.log, s.port.value) == None && LastSequence(s.log, s.port.value) == 0
    requires request.Signed? && s.port.Some? ==>
               && request.session.Some? && HelloSession(s.log, s.port.value) == request.session
               && LastSequence(s.log, s.port.value) < request.sequence <= s.sequence
    ensures Inv(Called(s, request, posts, then_))
  {
    hide Honest, HelloSession, LastSequence, PostedOn, IsDelivered;
    if s.port.Some? && posts {
      Extended(s.log, Posted(s.nextCall, s.port.value, request));
    }
  }

  lemma {:induction false} BegunKeeps(s: State, statusFailed: bool, opens: bool, posts: bool)
    requires Inv(s)
    ensures Inv(Begun(s, statusFailed, opens, posts))
  {
    hide Honest, HelloSession, LastSequence, PostedOn, IsDelivered;
    if s.phase == Idle && s.queue != [] {
      var job, t := s.queue[0], s.(queue := s.queue[1..]);
      if !(t.port.Some? && t.session.Some?) {
        CalledKeeps(t.(port := Some(t.nextPort), nextPort := t.nextPort + 1), Hello, posts, AwaitHello(job));
      }
      hide Called;
    }
  }

  lemma {:induction false} SignatureKeeps(s: State, ok: bool, posts: bool)
    requires Inv(s)
    ensures Inv(WithSignature(s, ok, posts))
  {
    hide Honest, HelloSession, LastSequence, PostedOn, IsDelivered;
    if s.phase.AwaitSignature? {
      CalledKeeps(s, Signed(s.phase.session, s.phase.sequence, s.phase.action), posts, AwaitReply);
      hide Called;
    }
  }

  lemma {:induction false} AnsweredKeeps(s: State, from: nat, reply: Reply)
    requires Inv(s)
    ensures Inv(Answered(s, from, reply))
  {
    hide Honest, HelloSession, LastSequence, PostedOn, IsDelivered;
    if s.port == Some(from) && s.waiting.Some? {
      var e := Delivered(s.waiting.value, from);
      Extended(s.log, e);
      if reply.Welcome? {
        Extended(s.log + [e], Welcomed(from, reply.session));
      }
    }
  }

  /** Every event keeps the invariant. */
  lemma {:induction false} StepKeeps(s: State, e: Event)
    requires Inv(s)
    ensures Inv(Step(s, e))
  {
    hide Honest, HelloSession, LastSequence, PostedOn, IsDelivered, Begun, WithSignature, Answered;
    match e
    case Begin(statusFailed, opens, posts) => BegunKeeps(s, statusFailed, opens, posts);
    case SignatureReady(ok, posts) => SignatureKeeps(s, ok, posts);
    case Message(from, reply) => AnsweredKeeps(s, from, reply);
    case _ =>
  }

  /** Over every run, whatever the browser, the host and the person do. */
  lemma {:induction false} RunKeeps(events: seq<Event>)
    ensures Inv(Run(Initial(), events))
  {
    hide Inv, Step;
    if events == [] {
      InitialHolds();
    } else {
      RunKeeps(events[..|events| - 1]);
      StepKeeps(Run(Initial(), events[..|events| - 1]), events[|events| - 1]);
    }
  }

  lemma {:induction false} InitialHolds()
    ensures Inv(Initial())
  {
  }
}
