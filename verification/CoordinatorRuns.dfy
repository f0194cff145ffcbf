/** What the coordinator's invariant means for whole runs: one call at a time, replies from
    the right port, and signed messages under the port's own session. */
module CoordinatorRuns {
  import opened Wrappers
  import opened Coordinator

  /** At most one call is outstanding. It is the one in the slot, its timer is armed,
      and the timer frees the queue. */
  lemma {:induction false} OneCallOutstanding(events: seq<Event>)
    ensures var s := Run(Initial(), events);
            && |s.unsettled| <= 1 && s.timers == s.unsettled
            && (forall call :: call in s.unsettled ==>
                  && s.waiting == Some(call)
                  && Step(s, Timeout(call)).phase == Idle && Step(s, Timeout(call)).unsettled == {})
            && (s.unsettled == {} <==> s.phase.Idle? || s.phase.AwaitKeys? || s.phase.AwaitSignature?)
  {
    RunKeeps(events);
  }

  lemma {:induction false} HonestAt(log: seq<Entry>, i: nat)
    requires Honest(log) && i < |log|
    ensures EntryHonest(log[..i], log[i])
  {
    if i < |log| - 1 {
      HonestAt(log[..|log| - 1], i);
      assert log[..|log| - 1][..i] == log[..i];
    }
  }

  lemma {:induction false} HelloFound(log: seq<Entry>, port: nat) returns (i: nat)
    requires HelloSession(log, port).Some?
    ensures i < |log| && log[i] == Welcomed(port, HelloSession(log, port).value)
  {
    var last := log[|log| - 1];
    if last.Welcomed? && last.port == port {
      i := |log| - 1;
    } else {
      i := HelloFound(log[..|log| - 1], port);
    }
  }

  lemma {:induction false} PostFound(log: seq<Entry>, call: nat) returns (i: nat)
    requires PostedOn(log, call).Some?
    ensures i < |log| && log[i].Posted? && log[i].call == call && log[i].port == PostedOn(log, call).value
  {
    var last := log[|log| - 1];
    if last.Posted? && last.call == call {
      i := |log| - 1;
    } else {
      i := PostFound(log[..|log| - 1], call);
    }
  }

  predicate IsSigned(e: Entry) {
    e.Posted? && e.request.Signed?
  }

  /** An earlier entry is the hello of this port with this session. */
  predicate Welcomes(log: seq<Entry>, j: int, port: nat, session: Option<nat>) {
    session.Some? && exists i :: 0 <= i < j <= |log| && log[i] == Welcomed(port, session.value)
  }

  /** Every signed message on a port carries the session of an earlier hello on that same port. */
  lemma {:induction false} SignedUnderOwnHello(events: seq<Event>)
    ensures var log := Run(Initial(), events).log;
            forall j :: 0 <= j < |log| && IsSigned(log[j]) ==> Welcomes(log, j, log[j].port, log[j].request.session)
  {
    RunKeeps(events);
    hide Run, HelloSession, LastSequence, PostedOn, IsDelivered;
    var log := Run(Initial(), events).log;
    forall j | 0 <= j < |log| && IsSigned(log[j])
      ensures Welcomes(log, j, log[j].port, log[j].request.session)
    {
      HonestAt(log, j);
      var i := HelloFound(log[..j], log[j].port);
      assert log[i] == Welcomed(log[j].port, log[j].request.session.value);
    }
  }

  lemma {:induction false} LastSequenceBounds(log: seq<Entry>, i: nat)
    requires Honest(log) && i < |log| && IsSigned(log[i])
    ensures log[i].request.sequence <= LastSequence(log, log[i].port)
  {
    hide HelloSession, PostedOn, IsDelivered;
    if i < |log| - 1 {
      LastSequenceBounds(log[..|log| - 1], i);
    }
  }

  predicate SameStream(a: Entry, b: Entry) {
    IsSigned(a) && IsSigned(b) && a.port == b.port
  }

  /** The sequence numbers of the signed messages on a port strictly increase. */
  lemma {:induction false} SequencesIncrease(events: seq<Event>)
    ensures var log := Run(Initial(), events).log;
            forall i, j :: 0 <= i < j < |log| && SameStream(log[i], log[j]) ==>
              log[i].request.sequence < log[j].request.sequence
  {
    RunKeeps(events);
    hide Run, HelloSession, PostedOn, IsDelivered;
    var log := Run(Initial(), events).log;
    forall i, j | 0 <= i < j < |log| && SameStream(log[i], log[j])
      ensures log[i].request.sequence < log[j].request.sequence
    {
      HonestAt(log, j);
      HonestPrefix(log, j);
      LastSequenceBounds(log[..j], i);
    }
  }

  lemma {:induction false} HonestPrefix(log: seq<Entry>, n: nat)
    requires Honest(log) && n <= |log|
    ensures Honest(log[..n])
  {
    if n < |log| {
      HonestPrefix(log[..|log| - 1], n);
      assert log[..|log| - 1][..n] == log[..n];
    } else {
      assert log[..n] == log;
    }
  }

  /** A port has at most one hello. */
  lemma {:induction false} OneHello(events: seq<Event>)
    ensures var log := Run(Initial(), events).log;
            forall i, j :: 0 <= i < j < |log| && log[i].Welcomed? && log[j].Welcomed? ==> log[i].port != log[j].port
  {
    RunKeeps(events);
    hide Run, LastSequence, PostedOn, IsDelivered;
    var log := Run(Initial(), events).log;
    forall i, j | 0 <= i < j < |log| && log[i].Welcomed? && log[j].Welcomed? ensures log[i].port != log[j].port {
      HonestAt(log, j);
      HelloKept(log[..j], i);
    }
  }

  lemma {:induction false} HelloKept(log: seq<Entry>, i: nat)
    requires i < |log| && log[i].Welcomed?
    ensures HelloSession(log, log[i].port).Some?
  {
    if i < |log| - 1 {
      HelloKept(log[..|log| - 1], i);
    }
  }

  /** The call was posted on this port before, and has not been answered. */
  predicate Expected(log: seq<Entry>, j: int, call: nat, port: nat) {
    && 0 <= j <= |log|
    && (exists i :: 0 <= i < j && log[i].Posted? && log[i].call == call && log[i].port == port)
    && (forall k :: 0 <= k < j ==> !(log[k].Delivered? && log[k].call == call))
  }

  /** A reply is delivered to a call that was posted on the port the reply came from, and
      a call gets at most one. */
  lemma {:induction false} RepliesOnOwnPort(events: seq<Event>)
    ensures var log := Run(Initial(), events).log;
            forall j :: 0 <= j < |log| && log[j].Delivered? ==> Expected(log, j, log[j].call, log[j].port)
  {
    RunKeeps(events);
    hide Run, HelloSession, LastSequence;
    var log := Run(Initial(), events).log;
    forall j | 0 <= j < |log| && log[j].Delivered? ensures Expected(log, j, log[j].call, log[j].port) {
      HonestAt(log, j);
      var i := PostFound(log[..j], log[j].call);
      assert log[i] == log[..j][i];
      forall k | 0 <= k < j ensures !(log[k].Delivered? && log[k].call == log[j].call) {
        if log[k].Delivered? && log[k].call == log[j].call {
          DeliveryKept(log[..j], k);
        }
      }
    }
  }

  lemma {:induction false} DeliveryKept(log: seq<Entry>, k: nat)
    requires k < |log| && log[k].Delivered?
    ensures IsDelivered(log, log[k].call)
  {
    if k < |log| - 1 {
      DeliveryKept(log[..|log| - 1], k);
    }
  }

  /** A port that is no longer current. */
  predicate Gone(s: State, port: nat) {
    port < s.nextPort && s.port != Some(port)
  }

  predicate Silent(log: seq<Entry>, from: nat, port: nat) {
    forall k :: from <= k < |log| ==> !(log[k].Delivered? && log[k].port == port)
  }

  lemma {:induction false} GoneStays(s: State, e: Event, port: nat, from: nat)
    requires Gone(s, port) && Silent(s.log, from, port)
    ensures Gone(Step(s, e), port) && Silent(Step(s, e).log, from, port)
    ensures s.log <= Step(s, e).log
  {
  }

  /** Once a port is not current any more, no later run delivers a reply from it. */
  lemma {:induction false} LateRepliesIgnored(s: State, events: seq<Event>, port: nat)
    requires Gone(s, port)
    ensures Gone(Run(s, events), port) && s.log <= Run(s, events).log
    ensures Silent(Run(s, events).log, |s.log|, port)
  {
    hide Step;
    if events != [] {
      LateRepliesIgnored(s, events[..|events| - 1], port);
      GoneStays(Run(s, events[..|events| - 1]), events[|events| - 1], port, |s.log|);
    }
  }

  // ---- A request that goes well ----

  lemma {:induction false} RunOne(s: State, front: seq<Event>, e: Event)
    ensures Run(s, front + [e]) == Step(Run(s, front), e)
  {
    assert (front + [e])[..|front + [e]| - 1] == front;
  }

  /** Connecting: a request without a connection opens a port, posts a hello and takes the
      session from its answer. */
  lemma {:induction false} GreetingHappens(s: State, action: nat, session: nat)
    requires s.phase.Idle? && s.queue == [Send(action, false)] && s.port.None? && s.waiting.None?
    requires s.timers == s.unsettled == {}
    ensures var t := Run(s, [Begin(true, true, true), Message(s.nextPort, Welcome(session))]);
            && t.log == s.log + [Posted(s.nextCall, s.nextPort, Hello), Delivered(s.nextCall, s.nextPort),
                                 Welcomed(s.nextPort, session)]
            && t.phase == AwaitKeys(action, false) && t.waiting.None? && t.timers == t.unsettled == {}
            && t.port == Some(s.nextPort) && t.session == Some(session)
  {
    var e0, e1 := Begin(true, true, true), Message(s.nextPort, Welcome(session));
    RunOne(s, [], e0);
    RunOne(s, [e0], e1);
    assert [] + [e0] == [e0] && [e0] + [e1] == [e0, e1];
    assert Run(s, []) == s;
    hide Run;
    var t := Step(s, e0);
    assert t.phase == AwaitHello(Send(action, false)) && t.port == Some(s.nextPort) && t.waiting == Some(s.nextCall);
    assert t.log == s.log + [Posted(s.nextCall, s.nextPort, Hello)] && t.timers == t.unsettled == {s.nextCall};
  }

  /** Requesting: a connected extension signs, posts under the session and gets its reply. */
  lemma {:induction false} ReplyHappens(s: State)
    requires s.phase.AwaitKeys? && !s.phase.idleOnly && s.port.Some? && s.session.Some? && s.waiting.None?
    requires s.timers == s.unsettled == {}
    ensures var t := Run(s, [KeysReady(true), SignatureReady(true, true), Message(s.port.value, Other)]);
            && t.log == s.log + [Posted(s.nextCall, s.port.value, Signed(s.session, s.sequence + 1, s.phase.action)),
                                 Delivered(s.nextCall, s.port.value)]
            && t.phase == Idle && t.session == s.session && t.unsettled == {}
  {
    var e0, e1, e2 := KeysReady(true), SignatureReady(true, true), Message(s.port.value, Other);
    RunOne(s, [], e0);
    RunOne(s, [e0], e1);
    RunOne(s, [e0, e1], e2);
    assert [] + [e0] == [e0] && [e0] + [e1] == [e0, e1] && [e0, e1] + [e2] == [e0, e1, e2];
    assert Run(s, []) == s;
    hide Run;
  }
}
