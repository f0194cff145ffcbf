/** In what order requests are served, and what each event does for them. */
module CoordinatorOrder {
  import opened Wrappers
  import opened Coordinator
  import opened CoordinatorRuns

  // ---- First come, first served ----

  /** The requests made since the extension last started. */
  function Asked(events: seq<Event>): seq<Job> {
    if events == [] then []
    else
      match events[|events| - 1]
      case Enqueue(job) => Asked(events[..|events| - 1]) + [job]
      case Restart => []
      case _ => Asked(events[..|events| - 1])
  }

  /** How long the history was then. */
  function Since(events: seq<Event>): nat {
    if events == [] then 0
    else if events[|events| - 1].Restart? then |Run(Initial(), events[..|events| - 1]).log|
    else Since(events[..|events| - 1])
  }

  /** The actions of the signed messages, in order. */
  function Actions(log: seq<Entry>): seq<nat> {
    if log == [] then []
    else
      var last := log[|log| - 1];
      Actions(log[..|log| - 1]) + if IsSigned(last) then [last.request.action] else []
  }

  /** The request that is being served but not posted yet. */
  function InHand(phase: Phase): Option<Job> {
    match phase
    case AwaitHello(job) => if job.Send? then Some(job) else None
    case AwaitKeys(action, idleOnly) => Some(Send(action, idleOnly))
    case AwaitSignature(action, idleOnly, _, _) => Some(Send(action, idleOnly))
    case _ => None
  }

  /** Each message answers a later request than the one before it. */
  predicate Matches(actions: seq<nat>, asked: seq<Job>, places: seq<nat>) {
    && |places| == |actions|
    && (forall k :: 0 <= k < |places| ==>
          places[k] < |asked| && asked[places[k]].Send? && asked[places[k]].action == actions[k])
    && (forall j, k :: 0 <= j < k < |places| ==> places[j] < places[k])
  }

  /** The queue is the end of what was asked, the request in hand is the last one taken from it, and
      the messages answer requests taken before. */
  predicate InLine(queue: seq<Job>, inHand: Option<Job>, asked: seq<Job>, actions: seq<nat>, places: seq<nat>) {
    && |queue| <= |asked|
    && var taken := |asked| - |queue|;
       && queue == asked[taken..]
       && Matches(actions, asked, places)
       && (forall k :: 0 <= k < |places| ==> places[k] < taken)
       && (inHand.Some? ==> taken > 0 && asked[taken - 1] == inHand.value)
       && (inHand.Some? ==> forall k :: 0 <= k < |places| ==> places[k] < taken - 1)
  }

  predicate Ordered(s: State, asked: seq<Job>, since: nat, places: seq<nat>) {
    since <= |s.log| && InLine(s.queue, InHand(s.phase), asked, Actions(s.log[since..]), places)
  }

  lemma {:induction false} LineDone(queue: seq<Job>, inHand: Option<Job>, asked: seq<Job>, actions: seq<nat>,
                                    places: seq<nat>)
    requires InLine(queue, inHand, asked, actions, places)
    ensures InLine(queue, None, asked, actions, places)
  {
  }

  lemma {:induction false} LineTakes(queue: seq<Job>, asked: seq<Job>, actions: seq<nat>, places: seq<nat>)
    requires InLine(queue, None, asked, actions, places) && queue != []
    ensures InLine(queue[1..], Some(queue[0]), asked, actions, places)
  {
    var taken := |asked| - |queue|;
    assert queue[0] == asked[taken] && queue[1..] == asked[taken + 1..];
  }

  lemma {:induction false} LineAsks(queue: seq<Job>, inHand: Option<Job>, asked: seq<Job>, actions: seq<nat>,
                                    places: seq<nat>, job: Job)
    requires InLine(queue, inHand, asked, actions, places)
    ensures InLine(queue + [job], inHand, asked + [job], actions, places)
  {
  }

  lemma {:induction false} LinePosts(queue: seq<Job>, job: Job, asked: seq<Job>, actions: seq<nat>, places: seq<nat>)
    requires InLine(queue, Some(job), asked, actions, places) && job.Send?
    ensures InLine(queue, None, asked, actions + [job.action], places + [|asked| - |queue| - 1])
  {
  }

  lemma {:induction false} ActionsAppend(log: seq<Entry>, e: Entry)
    ensures Actions(log + [e]) == Actions(log) + if IsSigned(e) then [e.request.action] else []
  {
    assert (log + [e])[..|log + [e]| - 1] == log;
  }

  lemma {:induction false} ActionsSame(log: seq<Entry>, since: nat, e: Entry)
    requires since <= |log|
    ensures Actions((log + [e])[since..]) == Actions(log[since..]) + if IsSigned(e) then [e.request.action] else []
  {
    assert (log + [e])[since..] == log[since..] + [e];
    ActionsAppend(log[since..], e);
  }

  // ---- One step ----

  predicate Takes(s: State, e: Event) {
    e.Begin? && s.phase == Idle && s.queue != []
  }

  /** What a step does to the queue and to the request in hand. */
  predicate Moves(s: State, e: Event, g: State) {
    if Takes(s, e) then
      g.queue == s.queue[1..] && (InHand(g.phase).None? || InHand(g.phase) == Some(s.queue[0]))
    else
      && g.queue == s.queue + (if e.Enqueue? then [e.job] else [])
      && (InHand(g.phase).None? || InHand(g.phase) == InHand(s.phase))
  }

  lemma {:induction false} StepMoves(s: State, e: Event)
    requires !e.Restart?
    ensures Moves(s, e, Step(s, e))
  {
    assert s.queue + [] == s.queue;
  }

  /** A step posts a signed message only for the request in hand, and then waits for its reply. */
  predicate Posts(s: State, g: State, before: seq<nat>, after: seq<nat>) {
    || after == before
    || (&& InHand(s.phase).Some? && InHand(s.phase).value.Send? && InHand(g.phase).None?
        && after == before + [InHand(s.phase).value.action])
  }

  lemma {:induction false} CalledPosts(s: State, request: Request, posts: bool, next: Phase, since: nat)
    requires since <= |s.log|
    ensures var g := Called(s, request, posts, next);
            && since <= |g.log|
            && (Actions(g.log[since..]) == Actions(s.log[since..])
                || (request.Signed? && g.phase == next
                    && Actions(g.log[since..]) == Actions(s.log[since..]) + [request.action]))
  {
    hide Actions;
    if s.port.Some? && posts {
      ActionsSame(s.log, since, Posted(s.nextCall, s.port.value, request));
      assert Actions(s.log[since..]) + [] == Actions(s.log[since..]);
    }
  }

  lemma {:induction false} AnsweredPosts(s: State, from: nat, reply: Reply, since: nat)
    requires since <= |s.log|
    ensures var g := Answered(s, from, reply);
            since <= |g.log| && Actions(g.log[since..]) == Actions(s.log[since..])
  {
    hide Actions;
    if s.port == Some(from) && s.waiting.Some? {
      var d := Delivered(s.waiting.value, from);
      ActionsSame(s.log, since, d);
      assert Actions(s.log[since..]) + [] == Actions(s.log[since..]);
      if reply.Welcome? {
        ActionsSame(s.log + [d], since, Welcomed(from, reply.session));
      }
    }
  }

  lemma {:induction false} StepPosts(s: State, e: Event, since: nat)
    requires !e.Restart? && since <= |s.log|
    ensures var g := Step(s, e);
            since <= |g.log| && Posts(s, g, Actions(s.log[since..]), Actions(g.log[since..]))
  {
    hide Actions, Called, Answered;
    match e
    case Begin(_, _, posts) =>
      if Takes(s, e) {
        var t := s.(queue := s.queue[1..], port := Some(s.nextPort), nextPort := s.nextPort + 1);
        CalledPosts(t, Hello, posts, AwaitHello(s.queue[0]), since);
      }
    case SignatureReady(_, posts) =>
      if s.phase.AwaitSignature? {
        CalledPosts(s, Signed(s.phase.session, s.phase.sequence, s.phase.action), posts, AwaitReply, since);
      }
    case Message(from, reply) => AnsweredPosts(s, from, reply, since);
    case _ =>
  }

  /** The line after a step, when nothing is posted. */
  lemma {:induction false} LineMoves(s: State, e: Event, asked: seq<Job>, actions: seq<nat>, places: seq<nat>)
    requires InLine(s.queue, InHand(s.phase), asked, actions, places) && !e.Restart?
    ensures var now := asked + if e.Enqueue? then [e.job] else [];
            InLine(Step(s, e).queue, InHand(Step(s, e).phase), now, actions, places)
  {
    StepMoves(s, e);
    hide Step, InLine;
    var g := Step(s, e);
    assert asked + [] == asked && s.queue + [] == s.queue;
    LineDone(s.queue, InHand(s.phase), asked, actions, places);
    if Takes(s, e) {
      LineTakes(s.queue, asked, actions, places);
      LineDone(s.queue[1..], Some(s.queue[0]), asked, actions, places);
    } else if e.Enqueue? {
      LineAsks(s.queue, InHand(s.phase), asked, actions, places, e.job);
      LineDone(s.queue + [e.job], InHand(s.phase), asked + [e.job], actions, places);
    }
  }

  lemma {:induction false} OrderedStep(s: State, e: Event, asked: seq<Job>, since: nat, places: seq<nat>)
    returns (next: seq<nat>)
    requires Ordered(s, asked, since, places) && !e.Restart?
    ensures Ordered(Step(s, e), asked + (if e.Enqueue? then [e.job] else []), since, next)
  {
    StepPosts(s, e, since);
    hide Actions, InLine;
    var g, actions := Step(s, e), Actions(s.log[since..]);
    if Actions(g.log[since..]) == actions {
      next := places;
      LineMoves(s, e, asked, actions, places);
    } else {
      PostMoves(s, e);
      next := places + [|asked| - |s.queue| - 1];
      LinePosts(s.queue, InHand(s.phase).value, asked, actions, places);
      assert asked + [] == asked;
    }
    hide Step;
  }

  /** The step that posts leaves the queue alone. */
  lemma {:induction false} PostMoves(s: State, e: Event)
    requires !e.Restart? && InHand(s.phase).Some? && Step(s, e).log != s.log
    ensures Step(s, e).queue == s.queue && !e.Enqueue?
  {
  }

  lemma {:induction false} NothingOrdered(s: State)
    requires s.queue == [] && s.phase == Idle
    ensures Ordered(s, [], |s.log|, [])
  {
    assert s.log[|s.log|..] == [];
  }

  /** Over every run requests are served in the order they were made: since the last restart the queue
      is the end of what was asked, and the signed messages answer earlier requests, in their order. */
  lemma {:induction false} ServedInOrder(events: seq<Event>) returns (places: seq<nat>)
    ensures Ordered(Run(Initial(), events), Asked(events), Since(events), places)
  {
    hide Step, Ordered;
    if events == [] {
      places := [];
      NothingOrdered(Initial());
    } else {
      var before, e := events[..|events| - 1], events[|events| - 1];
      if e.Restart? {
        places := [];
        Restarted(Run(Initial(), before));
        NothingOrdered(Step(Run(Initial(), before), e));
      } else {
        places := ServedInOrder(before);
        places := OrderedStep(Run(Initial(), before), e, Asked(before), Since(before), places);
        assert Asked(before) + [] == Asked(before);
      }
    }
  }

  lemma {:induction false} Restarted(s: State)
    ensures var g := Step(s, Restart);
            g.log == s.log && g.queue == [] && g.phase == Idle && g.port == None && g.session == None && !g.active
            && g.waiting == None && g.timers == {} && g.unsettled == {}
            && g.nextPort == s.nextPort && g.nextCall == s.nextCall
  {
  }

  // ---- What each event does for a request ----

  /** A request that only runs when nothing is active is dropped while something is, when it is taken
      and again before it is posted; any other request goes on. */
  lemma {:induction false} IdleOnlyYields(s: State, statusFailed: bool, opens: bool, posts: bool)
    requires s.phase == Idle && s.queue != [] && s.queue[0].Send?
    ensures s.queue[0].idleOnly && s.active ==> Step(s, Begin(statusFailed, opens, posts)) == s.(queue := s.queue[1..])
    ensures !(s.queue[0].idleOnly && s.active) && s.port.Some? && s.session.Some? ==>
              Step(s, Begin(statusFailed, opens, posts))
              == s.(queue := s.queue[1..], phase := AwaitKeys(s.queue[0].action, s.queue[0].idleOnly))
    ensures !(s.queue[0].idleOnly && s.active) && !(s.port.Some? && s.session.Some?) && opens && posts ==>
              var g := Step(s, Begin(statusFailed, opens, posts));
              && g.phase == AwaitHello(s.queue[0]) && g.port == Some(s.nextPort) && g.nextPort == s.nextPort + 1
              && g.log == s.log + [Posted(s.nextCall, s.nextPort, Hello)]
  {
  }

  lemma {:induction false} IdleOnlyUnposted(s: State, ok: bool, posts: bool)
    requires s.phase.AwaitSignature?
    ensures var g := Step(s, SignatureReady(ok, posts));
            (g.log != s.log <==> ok && posts && s.port.Some? && !(s.phase.idleOnly && s.active))
  {
    assert forall e: Entry :: |s.log + [e]| > |s.log|;
  }

  /** A recovery connects only when nothing is active and the status could not be had otherwise. */
  lemma {:induction false} RecoverWhenNeeded(s: State, statusFailed: bool, opens: bool, posts: bool)
    requires s.phase == Idle && s.queue != [] && s.queue[0].Recover?
    ensures s.active || !statusFailed ==> Step(s, Begin(statusFailed, opens, posts)) == s.(queue := s.queue[1..])
    ensures !s.active && statusFailed && !(s.port.Some? && s.session.Some?) && opens && posts ==>
              Step(s, Begin(statusFailed, opens, posts)).phase == AwaitHello(Recover)
  {
  }

  /** A welcome gives the session, starts the count of sequence numbers again and lets the job go on. Any
      other answer to a hello ends the job and leaves the port open without a session. */
  lemma {:induction false} HelloAnswered(s: State, reply: Reply)
    requires Inv(s) && s.phase.AwaitHello? && s.port.Some?
    ensures var g, job := Step(s, Message(s.port.value, reply)), s.phase.job;
            && g.port == s.port && g.unsettled == {} && g.timers == {}
            && (if reply.Welcome? then
                  && g.session == Some(reply.session) && g.sequence == 0
                  && g.phase == if job.Send? then AwaitKeys(job.action, job.idleOnly) else Idle
                else
                  g.session == None && g.phase == Idle)
  {
    hide Honest, Fresh;
  }

  /** A port that cannot be opened and a post that is refused end the job and leave neither port nor
      session; nothing is posted, and after a refused post nothing is active. */
  lemma {:induction false} FailureEnds(s: State, statusFailed: bool, posts: bool)
    requires Inv(s)
    ensures Takes(s, Begin(statusFailed, false, posts)) && s.queue[0].Send? && !s.queue[0].idleOnly
            && !(s.port.Some? && s.session.Some?) ==>
              var g := Step(s, Begin(statusFailed, false, posts));
              g.port == None && g.session == None && g.phase == Idle && g.log == s.log && g.active == s.active
    ensures s.phase.AwaitSignature? && !(s.phase.idleOnly && s.active) ==>
              var g := Step(s, SignatureReady(true, false));
              && g.port == None && g.session == None && g.phase == Idle && g.log == s.log && !g.active
              && g.unsettled == {} && g.waiting == None
  {
    hide Honest, Fresh, HelloSession, LastSequence;
  }

  /** A lost connection and an overdue call both leave neither port nor session nor anything waiting. */
  lemma {:induction false} LossFrees(s: State)
    requires Inv(s)
    ensures s.port.Some? ==>
              var g := Step(s, Disconnected(s.port.value));
              && g.port == None && g.session == None && !g.active && g.waiting == None && g.unsettled == {}
              && g.phase == (if s.waiting.Some? then Idle else s.phase) && g.queue == s.queue
    ensures s.waiting.Some? ==>
              var g := Step(s, Timeout(s.waiting.value));
              && g.port == None && g.session == None && g.waiting == None && g.unsettled == {} && g.phase == Idle
  {
    hide Honest, Fresh, PostedOn, IsDelivered;
  }
}
