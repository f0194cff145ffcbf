/** The desktop's worker supervisor: threads claim an in-progress flag, start a worker,
    install its input and output, wait for it to exit and release the flag, while other
    threads seal the vault or exchange sync commands with the worker.

    Each event is one atomic action of one thread, so a run is any interleaving. Whether
    a thread or a worker starts, gets ready, or can be written to is an argument. */
module Supervisor {
  import opened Wrappers

  /** How far a thread that made a claim, or took it over, has come. */
  datatype Stage =
    | Claimed(initialize: bool)
    | Initializing
    | Spawning
    | Ready(worker: nat)
    | Installing(worker: nat)
    | Installed(worker: nat)
    | Serving(worker: nat)
    | Finishing
    | Releasing

  datatype Thread =
    | Free
    | Holder(claim: nat, stage: Stage)
    | Syncing
    | Wrote(worker: nat)

  /** A sync command: the worker it was written to and the one its reply was read from. */
  datatype Exchange = Exchange(input: nat, output: Option<nat>)

  /** The shared fields, the threads, the pipe ends still with their process handle, and
      the history: who holds the claim, how many were made, which were released in what
      order, and the exchanges. */
  datatype State = State(
    inProgress: bool,
    lifeline: Option<nat>,
    syncOutput: Option<nat>,
    syncLock: Option<nat>,
    threads: map<nat, Thread>,
    stdin: set<nat>,
    stdout: set<nat>,
    nextWorker: nat,
    holder: Option<nat>,
    claims: nat,
    released: seq<nat>,
    exchanges: seq<Exchange>)

  function Initial(): State {
    State(false, None, None, None, map[], {}, {}, 0, None, 0, [], [])
  }

  function At(s: State, t: nat): Thread {
    if t in s.threads then s.threads[t] else Free
  }

  function Put(s: State, t: nat, x: Thread): State {
    s.(threads := s.threads[t := x])
  }

  predicate Locks(x: Thread) {
    x.Syncing? || x.Wrote? || (x.Holder? && (x.stage.Installing? || x.stage.Installed?))
  }

  datatype Event =
    | Claim(t: nat, initialize: bool)
    | StartThread(t: nat, u: nat, ok: bool)
    | Initialize(t: nat, ok: bool)
    | StartWorker(t: nat, ok: bool)
    | GiveUp(t: nat)
    | LockToInstall(t: nat)
    | InstallInput(t: nat)
    | InstallOutput(t: nat)
    | WorkerExit(t: nat)
    | TakeLifeline(t: nat)
    | Release(t: nat)
    | Seal
    | LockToSync(t: nat)
    | WriteCommand(t: nat, ok: bool)
    | ReadReply(t: nat)

  function Unlocked(s: State): State {
    s.(syncLock := None)
  }

  function Moved(s: State, t: nat, stage: Stage): State {
    match At(s, t)
    case Holder(claim, _) => Put(s, t, Holder(claim, stage))
    case _ => s
  }

  /** Storing false in the flag gives up the thread's claim. */
  function Released(s: State, t: nat): State {
    match At(s, t)
    case Holder(claim, _) =>
      Put(s, t, Free).(inProgress := false, holder := None, released := s.released + [claim])
    case _ => s
  }

  /** The compare-and-exchange. A claim is numbered by the claims before it. */
  function ClaimMade(s: State, t: nat, initialize: bool): State {
    if s.inProgress then s
    else
      Put(s, t, Holder(s.claims, Claimed(initialize)))
        .(inProgress := true, holder := Some(t), claims := s.claims + 1)
  }

  /** The claim passes to the new thread, or is released when it cannot start. */
  function ThreadStarted(s: State, t: nat, u: nat, ok: bool, claim: nat, initialize: bool): State {
    if !ok then Released(s, t)
    else if u == t || At(s, u) != Free then s
    else Put(Put(s, t, Free), u, Holder(claim, if initialize then Initializing else Spawning)).(holder := Some(u))
  }

  function WorkerStarted(s: State, t: nat, ok: bool): State {
    if !ok then Moved(s, t, Finishing)
    else
      var w := s.nextWorker;
      Moved(s, t, Ready(w)).(nextWorker := w + 1, stdin := s.stdin + {w}, stdout := s.stdout + {w})
  }

  /** The input goes to the lifeline. Without one the install is abandoned. */
  function InputInstalled(s: State, t: nat, w: nat): State {
    if w in s.stdin then Moved(s, t, Installed(w)).(lifeline := Some(w), stdin := s.stdin - {w})
    else Unlocked(Moved(s, t, Finishing))
  }

  function OutputInstalled(s: State, t: nat, w: nat): State {
    if w in s.stdout then Unlocked(Moved(s, t, Serving(w)).(syncOutput := Some(w), stdout := s.stdout - {w}))
    else Unlocked(Moved(s, t, Finishing))
  }

  function Written(s: State, t: nat, ok: bool): State {
    if s.lifeline.Some? && ok then Put(s, t, Wrote(s.lifeline.value))
    else Unlocked(Put(s, t, Free))
  }

  function ReplyRead(s: State, t: nat, w: nat): State {
    Unlocked(Put(s, t, Free)).(exchanges := s.exchanges + [Exchange(w, s.syncOutput)])
  }

  /** What the thread that holds a claim does next. An event that does not fit its stage
      does nothing. */
  function HolderStep(s: State, e: Event, t: nat, claim: nat, stage: Stage): State {
    match (stage, e)
    case (Claimed(initialize), StartThread(_, u, ok)) => ThreadStarted(s, t, u, ok, claim, initialize)
    case (Initializing, Initialize(_, ok)) => if ok then Moved(s, t, Spawning) else Released(s, t)
    case (Spawning, StartWorker(_, ok)) => WorkerStarted(s, t, ok)
    case (Ready(_), GiveUp(_)) => Moved(s, t, Finishing)
    case (Ready(w), LockToInstall(_)) =>
      if s.syncLock.None? then Moved(s, t, Installing(w)).(syncLock := Some(t)) else s
    case (Installing(w), InstallInput(_)) => InputInstalled(s, t, w)
    case (Installed(w), InstallOutput(_)) => OutputInstalled(s, t, w)
    case (Serving(_), WorkerExit(_)) => Moved(s, t, Finishing)
    case (Finishing, TakeLifeline(_)) => Moved(s, t, Releasing).(lifeline := None)
    case (Releasing, Release(_)) => Released(s, t)
    case _ => s
  }

  function Step(s: State, e: Event): State {
    if e.Seal? then s.(lifeline := None)
    else
      match At(s, e.t)
      case Free =>
        (match e
         case Claim(t, initialize) => ClaimMade(s, t, initialize)
         case LockToSync(t) => if s.syncLock.None? then Put(s, t, Syncing).(syncLock := Some(t)) else s
         case _ => s)
      case Holder(claim, stage) => HolderStep(s, e, e.t, claim, stage)
      case Syncing => if e.WriteCommand? then Written(s, e.t, e.ok) else s
      case Wrote(w) => if e.ReadReply? then ReplyRead(s, e.t, w) else s
  }

  function Run(events: seq<Event>): State {
    if events == [] then Initial() else Step(Run(events[..|events| - 1]), events[|events| - 1])
  }

  // ---- The invariant ----

  /** The one thread with a claim is the holder, there is one exactly when the flag is
      set, and the lock's owner is the one thread in a section that the lock guards. */
  ghost predicate Exclusive(s: State) {
    && (forall t: nat :: At(s, t).Holder? <==> s.holder == Some(t))
    && (forall t: nat :: Locks(At(s, t)) <==> s.syncLock == Some(t))
    && (s.inProgress <==> s.holder.Some?)
  }

  /** The stage of the holder, if there is one. */
  function Current(s: State): Option<Stage> {
    if s.holder.Some? && At(s, s.holder.value).Holder? then Some(At(s, s.holder.value).stage) else None
  }

  /** The claim the holder has. */
  function HeldClaim(s: State): Option<nat> {
    if s.holder.Some? && At(s, s.holder.value).Holder? then Some(At(s, s.holder.value).claim) else None
  }

  /** The claims released are all the claims made but the one that is held, each once. */
  predicate Accounted(s: State) {
    && s.claims == |s.released| + (if s.inProgress then 1 else 0)
    && (s.holder.Some? && At(s, s.holder.value).Holder? ==> At(s, s.holder.value).claim == |s.released|)
    && forall i :: 0 <= i < |s.released| ==> s.released[i] == i
  }

  /** Until the holder installs a pipe end, the process handle has it. */
  predicate Handles(s: State) {
    match Current(s)
    case Some(Ready(w)) => w in s.stdin && w in s.stdout
    case Some(Installing(w)) => w in s.stdin && w in s.stdout
    case Some(Installed(w)) => w in s.stdout
    case _ => true
  }

  /** A lifeline is the input of the holder's worker, from its installation until the
      holder takes it away. */
  predicate LifelineHeld(s: State) {
    s.lifeline.Some? ==>
      match Current(s)
      case Some(Installed(w)) => s.lifeline == Some(w)
      case Some(Serving(w)) => s.lifeline == Some(w)
      case Some(Finishing) => true
      case _ => false
  }

  /** Outside an install the input and the output belong to the same worker, and so do
      the ends of every exchange, under way or done. */
  predicate Paired(s: State) {
    && (s.lifeline.Some? ==> s.syncOutput == s.lifeline || (Current(s).Some? && Current(s).value.Installed?))
    && (s.syncLock.Some? && At(s, s.syncLock.value).Wrote? ==>
          s.syncOutput == Some(At(s, s.syncLock.value).worker))
    && forall k :: 0 <= k < |s.exchanges| ==> s.exchanges[k].output == Some(s.exchanges[k].input)
  }

  ghost predicate Inv(s: State) {
    Exclusive(s) && Accounted(s) && Handles(s) && LifelineHeld(s) && Paired(s)
  }

  // ---- Every step keeps it ----

  /** The stages around a worker's pipes. */
  predicate AtPipes(stage: Stage) {
    stage.Ready? || stage.Installing? || stage.Installed? || stage.Serving?
  }

  lemma {:induction false} PipeStepKeeps(s: State, e: Event, t: nat)
    requires Inv(s) && At(s, t).Holder? && !e.Seal? && e.t == t && AtPipes(At(s, t).stage)
    ensures Inv(HolderStep(s, e, t, At(s, t).claim, At(s, t).stage))
  {
  }

  lemma {:induction false} ClaimedStepKeeps(s: State, e: Event, t: nat)
    requires Inv(s) && At(s, t).Holder? && !e.Seal? && e.t == t && At(s, t).stage.Claimed?
    ensures Inv(HolderStep(s, e, t, At(s, t).claim, At(s, t).stage))
  {
  }

  lemma {:induction false} OtherStepKeeps(s: State, e: Event, t: nat)
    requires Inv(s) && At(s, t).Holder? && !e.Seal? && e.t == t
    requires !AtPipes(At(s, t).stage) && !At(s, t).stage.Claimed?
    ensures Inv(HolderStep(s, e, t, At(s, t).claim, At(s, t).stage))
  {
  }

  lemma {:induction false} FreeStepKeeps(s: State, e: Event)
    requires Inv(s) && !e.Seal? && At(s, e.t).Free?
    ensures Inv(Step(s, e))
  {
  }

  lemma {:induction false} SyncStepKeeps(s: State, e: Event)
    requires Inv(s) && !e.Seal? && (At(s, e.t).Syncing? || At(s, e.t).Wrote?)
    ensures Inv(Step(s, e))
  {
    hide HolderStep;
  }

  lemma {:induction false} SealKeeps(s: State)
    requires Inv(s)
    ensures Inv(Step(s, Seal))
  {
  }

  /** Every action of every thread keeps the invariant. */
  lemma {:induction false} StepKeeps(s: State, e: Event)
    requires Inv(s)
    ensures Inv(Step(s, e))
  {
    hide HolderStep, Inv, AtPipes;
    if e.Seal? {
      SealKeeps(s);
    } else if At(s, e.t).Free? {
      FreeStepKeeps(s, e);
    } else if !At(s, e.t).Holder? {
      SyncStepKeeps(s, e);
    } else if AtPipes(At(s, e.t).stage) {
      PipeStepKeeps(s, e, e.t);
    } else if At(s, e.t).stage.Claimed? {
      ClaimedStepKeeps(s, e, e.t);
    } else {
      OtherStepKeeps(s, e, e.t);
    }
  }

  lemma {:induction false} InitialHolds()
    ensures Inv(Initial())
  {
  }

  /** Over every interleaving. */
  lemma {:induction false} RunKeeps(events: seq<Event>)
    ensures Inv(Run(events))
  {
    hide Step, Inv;
    if events == [] {
      InitialHolds();
    } else {
      RunKeeps(events[..|events| - 1]);
      StepKeeps(Run(events[..|events| - 1]), events[|events| - 1]);
    }
  }

  // ---- What it means ----

  /** At most one thread holds a claim, the flag says whether one does, and a lifeline is
      only present while one does. */
  lemma {:induction false} OneHolder(events: seq<Event>)
    ensures var s := Run(events);
            && (forall t: nat, u: nat :: At(s, t).Holder? && At(s, u).Holder? ==> t == u)
            && (forall t: nat :: At(s, t).Holder? ==> s.inProgress)
            && (s.inProgress ==> s.holder.Some? && At(s, s.holder.value).Holder?)
            && (s.lifeline.Some? ==> s.inProgress)
  {
    RunKeeps(events);
    hide Run;
  }

  /** Every claim made so far has been released exactly once, or is the one still held. */
  lemma {:induction false} ReleasedOnce(events: seq<Event>, claim: nat)
    requires claim < Run(events).claims
    ensures var s := Run(events);
            && (claim < |s.released| <==> claim in s.released)
            && (forall i :: 0 <= i < |s.released| && s.released[i] == claim ==> i == claim)
            && (claim !in s.released ==> HeldClaim(s) == Some(claim))
  {
    RunKeeps(events);
    hide Run, Handles, LifelineHeld, Paired;
    var s := Run(events);
    if claim < |s.released| {
      assert s.released[claim] == claim;
    }
  }

  /** A sync command reads its reply from the worker whose input it wrote, and a written
      command always finds an output to read. */
  lemma {:induction false} RepliesFromSameWorker(events: seq<Event>)
    ensures var s := Run(events);
            && (forall k :: 0 <= k < |s.exchanges| ==> s.exchanges[k].output == Some(s.exchanges[k].input))
            && (forall t: nat :: At(s, t).Wrote? ==> s.syncOutput == Some(At(s, t).worker))
  {
    RunKeeps(events);
    hide Run, Accounted, Handles, LifelineHeld;
    var s := Run(events);
    assert forall t: nat :: At(s, t).Wrote? ==> Locks(At(s, t));
  }

  /** An install never finds a pipe end missing: both ends of the worker are there. */
  lemma {:induction false} InstallsBoth(events: seq<Event>, t: nat)
    requires At(Run(events), t).Holder?
    ensures var s, stage := Run(events), At(Run(events), t).stage;
            && (stage.Installing? ==> stage.worker in s.stdin && stage.worker in s.stdout)
            && (stage.Installed? ==> stage.worker in s.stdout)
  {
    RunKeeps(events);
    hide Run, Accounted, LifelineHeld, Paired;
    assert Current(Run(events)) == Some(At(Run(events), t).stage);
  }

  /** How many actions of its own the holder is away from releasing. */
  function Rank(stage: Stage): nat {
    match stage
    case Claimed(_) => 9
    case Initializing => 8
    case Spawning => 7
    case Ready(_) => 6
    case Installing(_) => 5
    case Installed(_) => 4
    case Serving(_) => 3
    case Finishing => 2
    case Releasing => 1
  }

  predicate Advances(s: State, g: State) {
    if g.inProgress then
      && g.released == s.released && HeldClaim(g) == HeldClaim(s)
      && (Current(g) == Current(s)
          || (Current(g).Some? && Current(s).Some? && Rank(Current(g).value) < Rank(Current(s).value)))
    else
      HeldClaim(s).Some? && g.released == s.released + [HeldClaim(s).value]
  }

  lemma {:induction false} HolderAdvances(s: State, e: Event, t: nat)
    requires Exclusive(s) && At(s, t).Holder?
    ensures Advances(s, HolderStep(s, e, t, At(s, t).claim, At(s, t).stage))
  {
  }

  lemma {:induction false} OthersLeaveClaim(s: State, e: Event)
    requires Exclusive(s) && s.inProgress && (e.Seal? || !At(s, e.t).Holder?)
    ensures Advances(s, Step(s, e))
  {
    hide HolderStep;
  }

  /** No action of any thread loses a claim or moves it back: it stays with its holder or
      passes on, nearer to its release, or it is released. */
  lemma {:induction false} ClaimAdvances(s: State, e: Event)
    requires Inv(s) && s.inProgress
    ensures Advances(s, Step(s, e))
  {
    hide Exclusive, Accounted, Handles, LifelineHeld, Paired, HolderStep, Advances;
    if !e.Seal? && At(s, e.t).Holder? {
      HolderAdvances(s, e, e.t);
    } else {
      OthersLeaveClaim(s, e);
    }
  }

  /** The holder's next action, whatever its outcome: the thread or the worker starts or not, gets
      ready or not, and the install waits for the lock. */
  predicate IsNext(s: State, t: nat, e: Event) {
    !e.Seal? && e.t == t && At(s, t).Holder? &&
    match At(s, t).stage
    case Claimed(_) => e.StartThread? && (e.ok ==> e.u != t && At(s, e.u).Free?)
    case Initializing => e.Initialize?
    case Spawning => e.StartWorker?
    case Ready(_) => e.GiveUp? || (e.LockToInstall? && s.syncLock.None?)
    case Installing(_) => e.InstallInput?
    case Installed(_) => e.InstallOutput?
    case Serving(_) => e.WorkerExit?
    case Finishing => e.TakeLifeline?
    case Releasing => e.Release?
  }

  /** The holder is only ever stopped by another thread's sync command: whatever the outcome, its next
      action brings the claim nearer to its release. A thread that cannot start and an initialisation
      that fails release it at once. */
  lemma {:induction false} HolderNotStuck(s: State, t: nat, e: Event)
    requires Inv(s) && IsNext(s, t, e)
    ensures var g := Step(s, e);
            && (!g.inProgress || (Current(g).Some? && Rank(Current(g).value) < Rank(At(s, t).stage)))
            && ((e.StartThread? || e.Initialize?) && !e.ok ==> !g.inProgress)
            && ((e.StartWorker? && !e.ok) || e.GiveUp? || e.WorkerExit? ==> Current(g) == Some(Finishing))
            && (e.TakeLifeline? ==> g.lifeline == None)
  {
    hide Accounted, LifelineHeld, Paired;
  }

  // ---- Sealing ----

  /** Sealing takes the lifeline away and touches nothing else. */
  lemma {:induction false} SealDrops(s: State)
    ensures var g := Step(s, Seal);
            && g.lifeline == None && g.syncOutput == s.syncOutput
            && g.inProgress == s.inProgress && g.holder == s.holder && g.claims == s.claims
            && g.released == s.released && g.exchanges == s.exchanges
            && g.syncLock == s.syncLock && g.threads == s.threads
            && g.stdin == s.stdin && g.stdout == s.stdout && g.nextWorker == s.nextWorker
  {
  }

  function RunFrom(s: State, events: seq<Event>): State {
    if events == [] then s else Step(RunFrom(s, events[..|events| - 1]), events[|events| - 1])
  }

  lemma {:induction false} RunsOn(before: seq<Event>, after: seq<Event>)
    ensures Run(before + after) == RunFrom(Run(before), after)
    decreases |after|
  {
    hide Step;
    if after == [] {
      assert before + after == before;
    } else {
      var last := |after| - 1;
      assert (before + after)[..|before + after| - 1] == before + after[..last];
      RunsOn(before, after[..last]);
    }
  }

  lemma {:induction false} RunFromKeeps(s: State, events: seq<Event>)
    requires Inv(s)
    ensures Inv(RunFrom(s, events))
  {
    hide Step, Inv;
    if events != [] {
      RunFromKeeps(s, events[..|events| - 1]);
      StepKeeps(RunFrom(s, events[..|events| - 1]), events[|events| - 1]);
    }
  }

  /** The input of a worker is installed by this event. */
  predicate Installs(s: State, e: Event) {
    e.InstallInput? && At(s, e.t).Holder? && At(s, e.t).stage.Installing?
  }

  /** Along the run from a state no input is installed. */
  predicate InstallsNothing(s: State, events: seq<Event>) {
    forall i :: 0 <= i < |events| ==> !Installs(RunFrom(s, events[..i]), events[i])
  }

  /** The exchange whose command is written and whose reply is not read yet. */
  function UnderWay(s: State): seq<Exchange> {
    if s.syncLock.Some? && At(s, s.syncLock.value).Wrote? then
      var w := At(s, s.syncLock.value).worker;
      [Exchange(w, Some(w))]
    else
      []
  }

  /** Every thread that waits for a reply was waiting for it before. */
  ghost predicate NoneStarted(s: State, g: State) {
    forall t: nat :: At(g, t).Wrote? ==> At(s, t) == At(g, t)
  }

  lemma {:induction false} HolderWritesNothing(s: State, e: Event, t: nat)
    requires Inv(s) && s.lifeline == None && !e.Seal? && e.t == t && At(s, t).Holder? && !Installs(s, e)
    ensures var g := HolderStep(s, e, t, At(s, t).claim, At(s, t).stage);
            && g.lifeline == None && g.exchanges == s.exchanges && UnderWay(g) == UnderWay(s)
            && NoneStarted(s, g)
  {
    hide Accounted, Handles, LifelineHeld, Paired;
  }

  /** Without a lifeline no command is written: what is done and under way stays the same. */
  lemma {:induction false} NothingWritten(s: State, e: Event)
    requires Inv(s) && s.lifeline == None && !Installs(s, e)
    ensures var g := Step(s, e);
            && g.lifeline == None && g.exchanges + UnderWay(g) == s.exchanges + UnderWay(s)
            && NoneStarted(s, g)
  {
    hide HolderStep, Accounted, Handles, LifelineHeld;
    if !e.Seal? && At(s, e.t).Holder? {
      HolderWritesNothing(s, e, e.t);
    } else {
      OthersWriteNothing(s, e);
    }
  }

  lemma {:induction false} OthersWriteNothing(s: State, e: Event)
    requires Inv(s) && s.lifeline == None && (e.Seal? || !At(s, e.t).Holder?)
    ensures var g := Step(s, e);
            && g.lifeline == None && g.exchanges + UnderWay(g) == s.exchanges + UnderWay(s)
            && NoneStarted(s, g)
  {
    hide HolderStep, Accounted, Handles, LifelineHeld;
    if !e.Seal? && At(s, e.t).Wrote? {
      assert Locks(At(s, e.t));
      assert s.exchanges + UnderWay(s) == s.exchanges + [Exchange(At(s, e.t).worker, s.syncOutput)];
    }
  }

  lemma {:induction false} NothingWrittenSince(s: State, events: seq<Event>)
    requires Inv(s) && s.lifeline == None && InstallsNothing(s, events)
    ensures var g := RunFrom(s, events);
            && g.lifeline == None && g.exchanges + UnderWay(g) == s.exchanges + UnderWay(s)
            && NoneStarted(s, g)
    decreases |events|
  {
    hide Step, Inv, UnderWay, Installs;
    if events != [] {
      var before := events[..|events| - 1];
      assert forall i :: 0 <= i < |before| ==> before[..i] == events[..i];
      NothingWrittenSince(s, before);
      RunFromKeeps(s, before);
      NothingWritten(RunFrom(s, before), events[|events| - 1]);
    }
  }

  /** After a seal, and until an input is installed again, no sync command is written: the only
      exchange that can still be completed is one whose command was written before. */
  lemma {:induction false} SealedStaysSealed(before: seq<Event>, after: seq<Event>)
    requires InstallsNothing(Run(before + [Seal]), after)
    ensures var s, g := Run(before), Run(before + [Seal] + after);
            && g.lifeline == None
            && g.exchanges + UnderWay(g) == s.exchanges + UnderWay(s)
            && NoneStarted(s, g)
  {
    hide Step, Accounted, Handles, LifelineHeld, Paired;
    var s := Run(before);
    assert (before + [Seal])[..|before|] == before;
    assert Run(before + [Seal]) == Step(s, Seal);
    SealDrops(s);
    RunKeeps(before + [Seal]);
    NothingWrittenSince(Step(s, Seal), after);
    RunsOn(before + [Seal], after);
  }

  // ---- What the threads get done ----

  /** With the lock free and a lifeline, a sync command reaches its worker and comes back, and
      leaves everything else as it was. */
  lemma {:induction false} SyncCompletes(s: State, t: nat)
    requires Inv(s) && At(s, t).Free? && s.syncLock == None && s.lifeline.Some?
    ensures var g := Step(Step(Step(s, LockToSync(t)), WriteCommand(t, true)), ReadReply(t));
            && g == s.(exchanges := s.exchanges + [Exchange(s.lifeline.value, s.lifeline)], threads := g.threads)
            && forall u: nat :: At(g, u) == At(s, u)
  {
    hide HolderStep, Accounted, Handles, LifelineHeld;
    assert !(Current(s).Some? && Current(s).value.Installed?);
  }

  /** Without a lifeline the command is refused and the lock is free again. */
  lemma {:induction false} SyncRefused(s: State, t: nat, ok: bool)
    requires At(s, t).Free? && s.syncLock == None && s.lifeline == None
    ensures var g := Step(Step(s, LockToSync(t)), WriteCommand(t, ok));
            g == s.(threads := g.threads) && forall u: nat :: At(g, u) == At(s, u)
  {
    hide HolderStep;
  }

  predicate IsIdle(s: State, t: nat, u: nat) {
    !s.inProgress && s.syncLock == None && t != u && At(s, t).Free? && At(s, u).Free?
  }

  lemma {:induction false} UnlockStarts(s: State, t: nat, u: nat)
    requires IsIdle(s, t, u)
    ensures var g := Step(Step(Step(s, Claim(t, false)), StartThread(t, u, true)), StartWorker(u, true));
            var w := s.nextWorker;
            && At(g, u) == Holder(s.claims, Ready(w)) && At(g, t).Free?
            && g == s.(threads := g.threads, inProgress := true, holder := Some(u), claims := s.claims + 1,
                       nextWorker := w + 1, stdin := s.stdin + {w}, stdout := s.stdout + {w})
  {
  }

  lemma {:induction false} InstallServes(s: State, u: nat, claim: nat, w: nat)
    requires At(s, u) == Holder(claim, Ready(w)) && s.syncLock == None && w in s.stdin && w in s.stdout
    ensures var g := Step(Step(Step(s, LockToInstall(u)), InstallInput(u)), InstallOutput(u));
            && At(g, u) == Holder(claim, Serving(w))
            && g == s.(threads := g.threads, lifeline := Some(w), syncOutput := Some(w),
                       stdin := s.stdin - {w}, stdout := s.stdout - {w})
  {
  }

  /** An unlock that meets no error ends with a new worker being served: its input is the lifeline, its
      output the one replies are read from, and the flag is held. */
  lemma {:induction false} UnlockServes(s: State, t: nat, u: nat)
    requires IsIdle(s, t, u)
    ensures var started := Step(Step(Step(s, Claim(t, false)), StartThread(t, u, true)), StartWorker(u, true));
            var g := Step(Step(Step(started, LockToInstall(u)), InstallInput(u)), InstallOutput(u));
            && g.inProgress && g.holder == Some(u) && At(g, u) == Holder(s.claims, Serving(s.nextWorker))
            && g.lifeline == Some(s.nextWorker) && g.syncOutput == g.lifeline && g.syncLock == None
            && g.claims == s.claims + 1 && g.released == s.released
  {
    UnlockStarts(s, t, u);
    hide Step;
    var started := Step(Step(Step(s, Claim(t, false)), StartThread(t, u, true)), StartWorker(u, true));
    InstallServes(started, u, s.claims, s.nextWorker);
  }

  /** When the worker exits, the lifeline goes and the claim is released. */
  lemma {:induction false} ExitReleases(s: State, u: nat, claim: nat, w: nat)
    requires At(s, u) == Holder(claim, Serving(w))
    ensures var g := Step(Step(Step(s, WorkerExit(u)), TakeLifeline(u)), Release(u));
            && g == s.(threads := g.threads, lifeline := None, inProgress := false, holder := None,
                       released := s.released + [claim])
            && At(g, u).Free?
  {
  }

  /** An initialisation that succeeds continues as an unlock does. */
  lemma {:induction false} InitializesFirst(s: State, t: nat, u: nat)
    requires IsIdle(s, t, u)
    ensures var begun := Step(Step(s, Claim(t, true)), StartThread(t, u, true));
            && At(begun, u) == Holder(s.claims, Initializing)
            && Step(begun, Initialize(u, true)) == Step(Step(s, Claim(t, false)), StartThread(t, u, true))
  {
    var begun := Step(Step(s, Claim(t, true)), StartThread(t, u, true));
    var left := Step(begun, Initialize(u, true));
    var right := Step(Step(s, Claim(t, false)), StartThread(t, u, true));
    assert left.threads == right.threads;
  }

  /** Whether a thread is where it can do this. */
  predicate IsPossible(s: State, e: Event) {
    e.Seal? ||
    match At(s, e.t)
    case Free => (e.Claim? && !s.inProgress) || (e.LockToSync? && s.syncLock.None?)
    case Holder(_, _) => IsNext(s, e.t, e)
    case Syncing => e.WriteCommand?
    case Wrote(_) => e.ReadReply?
  }

  /** Nothing else changes anything: a claim while one is held, a lock that is taken, a step out of turn. */
  lemma {:induction false} OutOfTurn(s: State, e: Event)
    requires !IsPossible(s, e)
    ensures Step(s, e) == s
  {
  }
}
