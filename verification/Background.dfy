/** The coordinator as the object its functions and listeners update in place. */
module Background {
  import opened Wrappers
  import opened Coordinator

  class Extension {
    var port: Option<nat>
    var session: Option<nat>
    var sequence: nat
    var waiting: Option<nat>
    var active: bool
    var queue: seq<Job>
    var phase: Phase
    var timers: set<nat>
    var unsettled: set<nat>
    var nextPort: nat
    var nextCall: nat
    var log: seq<Entry>

    function View(): State
      reads this
    {
      State(port, session, sequence, waiting, active, queue, phase, timers, unsettled, nextPort, nextCall, log)
    }

    constructor ()
      ensures View() == Initial()
    {
      port, session, sequence, waiting, active, queue := None, None, 0, None, false, [];
      phase, timers, unsettled, nextPort, nextCall, log := Idle, {}, {}, 0, 0, [];
    }

    method Disconnect()
      modifies this`port, this`session
      ensures View() == Forgotten(old(View()))
    {
      port := None;
      session := None;
    }

    /** Arms a timer, takes the slot, then posts; a refused post undoes both. */
    method Rpc(request: Request, posts: bool, then_: Phase)
      requires nextCall !in timers && nextCall !in unsettled
      modifies this
      ensures View() == Called(old(View()), request, posts, then_)
    {
      var call := nextCall;
      Arm(call);
      if port.Some? && posts {
        log := log + [Posted(call, port.value, request)];
        phase := then_;
      } else {
        Settle();
        assert timers == old(timers) && unsettled == old(unsettled);
        session, port, active := None, None, false;
        phase := Idle;
      }
    }

    method Arm(call: nat)
      modifies this`timers, this`unsettled, this`waiting, this`nextCall
      ensures timers == old(timers) + {call} && unsettled == old(unsettled) + {call}
      ensures waiting == Some(call) && nextCall == call + 1
    {
      timers := timers + {call};
      unsettled := unsettled + {call};
      waiting := Some(call);
      nextCall := call + 1;
    }

    method Connect(job: Job, opens: bool, posts: bool)
      requires nextCall !in timers && nextCall !in unsettled
      modifies this
      ensures View() == Connected(old(View()), job, opens, posts)
    {
      if port.Some? && session.Some? {
        phase := AfterConnect(job);
        return;
      }
      port := None;
      if !opens {
        phase := Idle;
        return;
      }
      port := Some(nextPort);
      nextPort := nextPort + 1;
      Rpc(Hello, posts, AwaitHello(job));
    }

    /** Takes the next job from the queue when none is running. */
    method StartNext(statusFailed: bool, opens: bool, posts: bool)
      requires nextCall !in timers && nextCall !in unsettled
      modifies this
      ensures View() == Begun(old(View()), statusFailed, opens, posts)
    {
      if phase != Idle || queue == [] {
        return;
      }
      var job := queue[0];
      queue := queue[1..];
      match job {
        case Recover =>
          if active || !statusFailed {
            return;
          }
        case Send(_, idleOnly) =>
          if idleOnly && active {
            return;
          }
      }
      Connect(job, opens, posts);
    }

    method OnKeys(ok: bool)
      modifies this`sequence, this`phase
      ensures View() == WithKeys(old(View()), ok)
    {
      if phase.AwaitKeys? {
        if ok {
          sequence := sequence + 1;
          phase := AwaitSignature(phase.action, phase.idleOnly, session, sequence);
        } else {
          phase := Idle;
        }
      }
    }

    method OnSignature(ok: bool, posts: bool)
      requires nextCall !in timers && nextCall !in unsettled
      modifies this
      ensures View() == WithSignature(old(View()), ok, posts)
    {
      if phase.AwaitSignature? {
        if !ok || (phase.idleOnly && active) {
          phase := Idle;
        } else {
          Rpc(Signed(phase.session, phase.sequence, phase.action), posts, AwaitReply);
        }
      }
    }

    method Settle()
      modifies this`waiting, this`timers, this`unsettled
      ensures View() == Settled(old(View()))
    {
      if waiting.Some? {
        timers := timers - {waiting.value};
        unsettled := unsettled - {waiting.value};
        waiting := None;
      }
    }

    method OnMessage(from: nat, reply: Reply)
      modifies this
      ensures View() == Answered(old(View()), from, reply)
    {
      if port != Some(from) || waiting.None? {
        return;
      }
      log := log + [Delivered(waiting.value, from)];
      Settle();
      if phase.AwaitHello? && reply.Welcome? {
        session := Some(reply.session);
        sequence := 0;
        log := log + [Welcomed(from, reply.session)];
        phase := AfterConnect(phase.job);
      } else {
        phase := Idle;
      }
    }

    method OnDisconnect(from: nat)
      modifies this
      ensures View() == Step(old(View()), Disconnected(from))
    {
      if port != Some(from) {
        return;
      }
      if waiting.Some? {
        phase := Idle;
      }
      Settle();
      session, port, active := None, None, false;
    }

    method OnTimeout(call: nat)
      modifies this
      ensures View() == Step(old(View()), Timeout(call))
    {
      if call !in timers {
        return;
      }
      waiting := None;
      Disconnect();
      timers := timers - {call};
      unsettled := unsettled - {call};
      if phase.AwaitHello? || phase.AwaitReply? {
        phase := Idle;
      }
    }

    method Reload()
      modifies this
      ensures View() == Step(old(View()), Restart)
    {
      port, session, sequence, waiting, active, queue := None, None, 0, None, false, [];
      phase, timers, unsettled := Idle, {}, {};
    }

    /** Handles one event and keeps the invariant. */
    method Handle(e: Event)
      requires Inv(View())
      modifies this
      ensures View() == Step(old(View()), e) && Inv(View())
    {
      StepKeeps(View(), e);
      assert nextCall !in timers && nextCall !in unsettled;
      hide Inv, Begun, WithKeys, WithSignature, Answered, Settled;
      match e {
        case Enqueue(job) => queue := queue + [job];
        case Begin(statusFailed, opens, posts) => StartNext(statusFailed, opens, posts);
        case KeysReady(ok) => OnKeys(ok);
        case SignatureReady(ok, posts) => OnSignature(ok, posts);
        case Message(from, reply) => OnMessage(from, reply);
        case Disconnected(from) => OnDisconnect(from);
        case Timeout(call) => OnTimeout(call);
        case Forget => Disconnect();
        case SetActive(value) => active := value;
        case Restart => Reload();
      }
    }
  }
}
