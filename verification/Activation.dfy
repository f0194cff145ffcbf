/** The single-instance activation file. A second instance truncates the file and then
    writes to it; the first instance's watcher polls it, truncates it when it is not empty
    and then tries to send an activation on a bounded channel.

    Each event is one atomic action on the file or the channel, so a run is any
    interleaving of any number of signallers and the watcher. */
module Activation {

  /** Where the watcher is: before the truncation at startup, between polls, past a poll
      that found the file not empty, past the truncation that follows, or ended. */
  datatype Watcher = Starting | Sleeping | Observed | Emptied | Stopped

  /** Whether the file has content, the signallers that have truncated it and not yet
      written, the watcher, the signals completed since the last send attempt, and the
      history: all signals ever begun and the number of send attempts. */
  datatype State = State(
    nonEmpty: bool,
    aboutToWrite: set<nat>,
    watcher: Watcher,
    unanswered: set<nat>,
    begun: set<nat>,
    attempts: nat)

  /** The file may be left over from an earlier time. */
  function Initial(leftOver: bool): State {
    State(leftOver, {}, Starting, {}, {}, 0)
  }

  /** A signaller abandons when its process ends, or its write fails, after the truncation. */
  datatype Event =
    | Truncate(signal: nat)
    | Write(signal: nat)
    | Abandon(signal: nat)
    | Startup
    | Observe(readable: bool)
    | Empty(ok: bool)
    | TrySend(closed: bool)

  function Step(s: State, e: Event): State {
    match e
    case Truncate(i) =>
      if i in s.begun then s
      else s.(nonEmpty := false, aboutToWrite := s.aboutToWrite + {i}, begun := s.begun + {i})
    case Write(i) =>
      if i !in s.aboutToWrite then s
      else s.(nonEmpty := true, aboutToWrite := s.aboutToWrite - {i}, unanswered := s.unanswered + {i})
    case Abandon(i) => s.(aboutToWrite := s.aboutToWrite - {i})
    case Startup =>
      if s.watcher != Starting then s else s.(nonEmpty := false, watcher := Sleeping)
    case Observe(readable) =>
      if s.watcher != Sleeping then s else if readable && s.nonEmpty then s.(watcher := Observed) else s
    case Empty(ok) =>
      if s.watcher != Observed then s else s.(nonEmpty := s.nonEmpty && !ok, watcher := Emptied)
    case TrySend(closed) =>
      if s.watcher != Emptied then s
      else s.(watcher := if closed then Stopped else Sleeping, unanswered := {}, attempts := s.attempts + 1)
  }

  function Run(s: State, events: seq<Event>): State {
    if events == [] then s else Step(Run(s, events[..|events| - 1]), events[|events| - 1])
  }

  /** The watcher will try to send whatever the file holds. */
  predicate WillSend(s: State) {
    s.watcher.Observed? || s.watcher.Emptied?
  }

  /** A completed signal that no send attempt has followed is still visible: the file is
      not empty, the watcher is past its poll, or a signaller is about to write. */
  predicate Covered(s: State) {
    s.unanswered != {} ==> s.nonEmpty || WillSend(s) || s.aboutToWrite != {}
  }

  /** A signaller that gives up exposes a completed signal exactly when it was the last
      thing that covered it. */
  lemma {:induction false} AbandonExposesExactly(s: State, i: nat)
    requires Covered(s) && i in s.aboutToWrite
    ensures Covered(Step(s, Abandon(i)))
            <==> s.unanswered == {} || s.nonEmpty || WillSend(s) || s.aboutToWrite != {i}
  {
  }

  /** The two events that can expose a signal: the truncation at startup, and a signaller
      that gives up before it writes. */
  predicate Harmless(s: State, e: Event) {
    && (e.Startup? && s.watcher.Starting? ==> s.unanswered == {} || s.aboutToWrite != {})
    && (e.Abandon? && e.signal in s.aboutToWrite ==>
          s.unanswered == {} || s.nonEmpty || WillSend(s) || s.aboutToWrite != {e.signal})
  }

  /** A step keeps every completed signal covered exactly when it is harmless. */
  lemma {:induction false} StepCoversExactly(s: State, e: Event)
    requires Covered(s)
    ensures Covered(Step(s, e)) <==> Harmless(s, e)
  {
    if e.Abandon? {
      if e.signal in s.aboutToWrite {
        AbandonExposesExactly(s, e.signal);
      } else {
        assert s.aboutToWrite - {e.signal} == s.aboutToWrite;
      }
    }
  }

  predicate AllHarmless(s: State, events: seq<Event>) {
    events != [] ==>
      && AllHarmless(s, events[..|events| - 1])
      && Harmless(Run(s, events[..|events| - 1]), events[|events| - 1])
  }

  /** Every completed signal is covered at every moment of the run. */
  predicate AlwaysCovered(s: State, events: seq<Event>) {
    Covered(Run(s, events)) && (events != [] ==> AlwaysCovered(s, events[..|events| - 1]))
  }

  /** No activation is lost over an interleaving exactly when all its steps are harmless. */
  lemma {:induction false} RunCoversExactly(s: State, events: seq<Event>)
    requires Covered(s)
    ensures AlwaysCovered(s, events) <==> AllHarmless(s, events)
  {
    hide Step, Covered, Harmless;
    if events != [] {
      RunCoversExactly(s, events[..|events| - 1]);
      if AlwaysCovered(s, events[..|events| - 1]) {
        StepCoversExactly(Run(s, events[..|events| - 1]), events[|events| - 1]);
      }
    }
  }

  /** Every signaller that truncates goes on to write. */
  predicate Persistent(events: seq<Event>) {
    forall k :: 0 <= k < |events| ==> !events[k].Abandon?
  }

  lemma {:induction false} StartedStays(s: State, events: seq<Event>)
    requires !s.watcher.Starting?
    ensures !Run(s, events).watcher.Starting?
  {
    if events != [] {
      StartedStays(s, events[..|events| - 1]);
    }
  }

  /** After startup no activation is lost, whatever the interleaving, as long as every
      signaller that truncates goes on to write. */
  lemma {:induction false} NoLostActivation(s: State, events: seq<Event>)
    requires !s.watcher.Starting? && Covered(s) && Persistent(events)
    ensures Covered(Run(s, events))
  {
    hide Step, Covered;
    if events != [] {
      var front, last := events[..|events| - 1], events[|events| - 1];
      assert Persistent(front) && !last.Abandon?;
      NoLostActivation(s, front);
      StartedStays(s, front);
      StepCoversExactly(Run(s, front), last);
    }
  }

  // ---- A covered signal can be answered ----

  /** The watcher's own actions from where it is up to a send attempt. */
  function Rest(w: Watcher): seq<Event> {
    match w
    case Starting => []
    case Sleeping => [Observe(true), Empty(true), TrySend(false)]
    case Observed => [Empty(true), TrySend(false)]
    case Emptied => [TrySend(false)]
    case Stopped => []
  }

  lemma {:induction false} RunPair(s: State, a: Event, rest: seq<Event>)
    ensures Run(s, [a] + rest) == Run(Step(s, a), rest)
    decreases |rest|
  {
    if rest == [] {
      assert [a] + rest == [a] && [a][..0] == [];
    } else {
      var front, last := rest[..|rest| - 1], rest[|rest| - 1];
      assert ([a] + rest)[..|[a] + rest| - 1] == [a] + front;
      RunPair(s, a, front);
    }
  }

  /** From any covered state with an unanswered signal, at most one write and three
      actions of a running watcher lead to a send attempt that answers every signal. */
  lemma {:induction false} CoveredIsAnswered(s: State, i: nat) returns (events: seq<Event>)
    requires Covered(s) && s.unanswered != {} && !s.watcher.Starting? && !s.watcher.Stopped?
    requires s.aboutToWrite != {} ==> i in s.aboutToWrite
    ensures |events| <= 4
    ensures Run(s, events).attempts == s.attempts + 1 && Run(s, events).unanswered == {}
  {
    if !s.nonEmpty && s.watcher.Sleeping? {
      var t := Step(s, Write(i));
      WatcherAnswers(t);
      RunPair(s, Write(i), Rest(t.watcher));
      events := [Write(i)] + Rest(t.watcher);
    } else {
      WatcherAnswers(s);
      events := Rest(s.watcher);
    }
  }

  lemma {:induction false} WatcherAnswers(s: State)
    requires !s.watcher.Starting? && !s.watcher.Stopped? && (s.watcher.Sleeping? ==> s.nonEmpty)
    ensures Run(s, Rest(s.watcher)).attempts == s.attempts + 1 && Run(s, Rest(s.watcher)).unanswered == {}
    decreases |Rest(s.watcher)|
  {
    var rest := Rest(s.watcher);
    RunPair(s, rest[0], rest[1..]);
    assert rest == [rest[0]] + rest[1..];
    if !s.watcher.Emptied? {
      WatcherAnswers(Step(s, rest[0]));
    }
  }

  // ---- The two ways to lose one ----

  /** A signal completed before the truncation at startup is lost. */
  lemma {:induction false} LostAtStartup()
    ensures var s := Run(Initial(false), [Truncate(0), Write(0), Startup]);
            s.unanswered == {0} && !Covered(s)
  {
    var s := Initial(false);
    RunPair(s, Truncate(0), [Write(0), Startup]);
    RunPair(Step(s, Truncate(0)), Write(0), [Startup]);
    RunPair(Step(Step(s, Truncate(0)), Write(0)), Startup, []);
    assert [Truncate(0), Write(0), Startup] == [Truncate(0)] + [Write(0), Startup];
    assert [Write(0), Startup] == [Write(0)] + [Startup];
    assert [Startup] == [Startup] + [];
  }

  /** A second signaller that truncates and then gives up takes a completed signal with it. */
  lemma {:induction false} LostToAbandonment(s: State)
    requires s == State(false, {}, Sleeping, {}, {}, 0)
    ensures var r := Run(s, [Truncate(0), Write(0), Truncate(1), Abandon(1)]);
            r.unanswered == {0} && !Covered(r)
  {
    var e0, e1, e2, e3 := Truncate(0), Write(0), Truncate(1), Abandon(1);
    RunPair(s, e0, [e1, e2, e3]);
    RunPair(Step(s, e0), e1, [e2, e3]);
    RunPair(Step(Step(s, e0), e1), e2, [e3]);
    RunPair(Step(Step(Step(s, e0), e1), e2), e3, []);
    assert [e0, e1, e2, e3] == [e0] + [e1, e2, e3];
    assert [e1, e2, e3] == [e1] + [e2, e3];
    assert [e2, e3] == [e2] + [e3];
    assert [e3] == [e3] + [];
  }

  // ---- No activation without a signal ----

  /** How many signals are completed along a run. */
  function Completed(s: State, events: seq<Event>): nat {
    if events == [] then 0
    else
      var front, last := events[..|events| - 1], events[|events| - 1];
      Completed(s, front) + if last.Write? && last.signal in Run(s, front).aboutToWrite then 1 else 0
  }

  /** The send attempts that are still due for what the file held. */
  function Due(s: State): nat {
    match s.watcher
    case Observed => 1
    case Emptied => if s.nonEmpty then 2 else 1
    case Stopped => 0
    case _ => if s.nonEmpty then 1 else 0
  }

  /** The watcher's truncations succeed. */
  predicate Empties(events: seq<Event>) {
    forall k :: 0 <= k < |events| && events[k].Empty? ==> events[k].ok
  }

  lemma {:induction false} StepPays(s: State, e: Event)
    requires e.Empty? ==> e.ok
    ensures var g := Step(s, e);
            g.attempts + Due(g) <= s.attempts + Due(s) + if e.Write? && e.signal in s.aboutToWrite then 1 else 0
  {
  }

  /** Over every interleaving there is at most one send attempt for each completed signal, beyond
      those that were due for what was there before. */
  lemma {:induction false} NoSpuriousActivation(s: State, events: seq<Event>)
    requires Empties(events)
    ensures var g := Run(s, events);
            g.attempts + Due(g) <= s.attempts + Due(s) + Completed(s, events)
  {
    hide Step, Due;
    if events != [] {
      var front, last := events[..|events| - 1], events[|events| - 1];
      assert forall k :: 0 <= k < |front| ==> front[k] == events[k];
      NoSpuriousActivation(s, front);
      StepPays(Run(s, front), last);
    }
  }

  /** Once the channel is closed the watcher does nothing more. */
  lemma {:induction false} ClosedStops(s: State, events: seq<Event>)
    requires s.watcher.Emptied?
    ensures var stopped := Step(s, TrySend(true));
            stopped.watcher.Stopped? && Run(stopped, events).attempts == stopped.attempts
            && Run(stopped, events).watcher.Stopped?
  {
    if events != [] {
      ClosedStops(s, events[..|events| - 1]);
    }
  }
}
