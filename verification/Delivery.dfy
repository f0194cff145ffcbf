/** Crash-report delivery: a ledger of receipts kept in a file, a pass over the listed
    incidents that sends what is due, and runs of such passes with restarts.

    The transport, the clock, the switch that enables sending and the writing of the file
    are arguments. A write either replaces the file or leaves it as it was. */
module Delivery {
  import opened Wrappers
  import opened Text

  datatype Incident = Incident(id: string, recordedMs: nat)

  datatype Ledger = Ledger(target: string, firstEnabledMs: nat, sent: seq<string>, nextAttemptMs: nat)

  /** What the surroundings answer for one incident: whether sending is enabled, whether
      the envelope can be built, whether the server accepts it, the delay it asks for in
      nanoseconds, the time after sending, and whether the ledger can be written. */
  datatype Outcome = Outcome(
    enabled: bool, enveloped: bool, accepted: bool, delay: nat, now: nat, saved: bool)

  /** An incident in the order of the list, with what will be answered for it. */
  datatype Listed = Listed(incident: Incident, outcome: Outcome)

  /** One transmission, with its place in the list. */
  datatype Transmission = Transmission(index: nat, incident: Incident, accepted: bool, delay: nat)

  /** A pass over the incidents. It has stopped when the loop was left, and failed when it
      was left with an error. */
  datatype Pass = Pass(
    ledger: Ledger, file: Option<Ledger>, transmissions: seq<Transmission>, stopped: bool, failed: bool)

  function Least(a: nat, b: nat): nat {
    if a <= b then a else b
  }

  /** Whole milliseconds after `now`, saturating at the top of 64 bits. */
  function NextAttempt(now: nat, delay: nat): nat {
    Least(now + Least(delay / 1_000_000, U64_LIMIT - 1), U64_LIMIT - 1)
  }

  function Ids(listing: seq<Listed>): set<string> {
    set k | 0 <= k < |listing| :: listing[k].incident.id
  }

  /** Keeps the receipts of listed incidents, in order. */
  function Retain(sent: seq<string>, listed: set<string>): seq<string> {
    if sent == [] then []
    else
      var rest := Retain(sent[..|sent| - 1], listed);
      if sent[|sent| - 1] in listed then rest + [sent[|sent| - 1]] else rest
  }

  predicate Due(n: Incident, o: Outcome, ledger: Ledger) {
    o.enabled && n.recordedMs >= ledger.firstEnabledMs && n.id !in ledger.sent
  }

  function Recorded(ledger: Ledger, n: Incident, o: Outcome): Ledger {
    ledger.(sent := if o.accepted then ledger.sent + [n.id] else ledger.sent,
            nextAttemptMs := NextAttempt(o.now, o.delay))
  }

  /** One turn of the loop. */
  function Turn(p: Pass, index: nat, n: Incident, o: Outcome): Pass {
    if p.stopped || !Due(n, o, p.ledger) then p
    else if !o.enveloped then p.(stopped := true, failed := true)
    else
      var ledger := Recorded(p.ledger, n, o);
      var sent := p.(ledger := ledger,
                     transmissions := p.transmissions + [Transmission(index, n, o.accepted, o.delay)]);
      if !o.saved then sent.(stopped := true, failed := true)
      else sent.(file := Some(ledger), stopped := !o.accepted || o.delay != 0)
  }

  function Opening(listing: seq<Listed>, ledger: Ledger, file: Option<Ledger>): Pass {
    Pass(ledger.(sent := Retain(ledger.sent, Ids(listing))), file, [], false, false)
  }

  /** The pass after its first `k` turns. */
  function Turns(listing: seq<Listed>, k: nat, ledger: Ledger, file: Option<Ledger>): Pass
    requires k <= |listing|
  {
    if k == 0 then Opening(listing, ledger, file)
    else Turn(Turns(listing, k - 1, ledger, file), k - 1, listing[k - 1].incident, listing[k - 1].outcome)
  }

  function Delivered(listing: seq<Listed>, ledger: Ledger, file: Option<Ledger>): Pass
  {
    Turns(listing, |listing|, ledger, file)
  }

  /** The ledger file's owner: sends what is due and records it as it goes. */
  class Uploader {
    var state: Ledger
    var file: Option<Ledger>
    var transmissions: seq<Transmission>

    constructor (state: Ledger, file: Option<Ledger>)
      ensures this.state == state && this.file == file && transmissions == []
    {
      this.state, this.file, transmissions := state, file, [];
    }

    /** The delivery loop. The result is false when it is left with an error. */
    method Deliver(listing: seq<Listed>) returns (ok: bool)
      requires transmissions == []
      modifies this
      ensures var p := Delivered(listing, old(state), old(file));
              state == p.ledger && file == p.file && transmissions == p.transmissions && ok == !p.failed
    {
      Forget(listing);
      var i := 0;
      while i < |listing|
        invariant i <= |listing|
        invariant Turns(listing, i, old(state), old(file)) == Pass(state, file, transmissions, false, false)
      {
        var n, o := listing[i].incident, listing[i].outcome;
        i := i + 1;
        ghost var p := Turns(listing, i, old(state), old(file));
        if !o.enabled || n.recordedMs < state.firstEnabledMs || n.id in state.sent {
          continue;
        }
        if p.stopped {
          StoppedStays(listing, i, |listing|, old(state), old(file));
        }
        if !o.enveloped {
          return false;
        }
        transmissions := transmissions + [Transmission(i - 1, n, o.accepted, o.delay)];
        if o.accepted {
          state := state.(sent := state.sent + [n.id]);
        }
        state := state.(nextAttemptMs := NextAttempt(o.now, o.delay));
        if !o.saved {
          return false;
        }
        file := Some(state);
        if !o.accepted || o.delay != 0 {
          return true;
        }
      }
      return true;
    }

    /** Drops the receipts of incidents that are not listed any more. */
    method Forget(listing: seq<Listed>)
      modifies this`state
      ensures state == old(state).(sent := Retain(old(state.sent), Ids(listing)))
    {
      var kept, sent := [], state.sent;
      for i := 0 to |sent|
        invariant kept == Retain(sent[..i], Ids(listing))
      {
        assert sent[..i + 1][..i] == sent[..i];
        if sent[i] in Ids(listing) {
          kept := kept + [sent[i]];
        }
      }
      assert sent[..|sent|] == sent;
      state := state.(sent := kept);
    }
  }

  lemma {:induction false} StoppedStays(
      listing: seq<Listed>, k: nat, m: nat, ledger: Ledger, file: Option<Ledger>)
    requires k <= m <= |listing|
    requires Turns(listing, k, ledger, file).stopped
    ensures Turns(listing, m, ledger, file) == Turns(listing, k, ledger, file)
  {
    if k < m {
      StoppedStays(listing, k, m - 1, ledger, file);
    }
  }

  // ---- What a pass keeps ----

  predicate Distinct(s: seq<string>) {
    forall i, j :: 0 <= i < j < |s| ==> s[i] != s[j]
  }

  predicate Within(s: seq<string>, ids: set<string>) {
    forall i :: 0 <= i < |s| ==> s[i] in ids
  }

  lemma {:induction false} RetainKeeps(sent: seq<string>, listed: set<string>)
    ensures Within(Retain(sent, listed), listed)
    ensures Distinct(sent) ==> Distinct(Retain(sent, listed))
    ensures forall id :: id in Retain(sent, listed) <==> id in sent && id in listed
  {
    if sent != [] {
      var front, last := sent[..|sent| - 1], sent[|sent| - 1];
      RetainKeeps(front, listed);
      assert sent == front + [last];
      assert Distinct(sent) ==> last !in front;
    }
  }

  /** Every transmission but the last was accepted without a delay, and so was the last
      one unless the pass has stopped. */
  predicate StopsInTime(p: Pass) {
    forall k :: 0 <= k < |p.transmissions| && (k < |p.transmissions| - 1 || !p.stopped) ==>
      p.transmissions[k].accepted && p.transmissions[k].delay == 0
  }

  predicate Sendable(n: Incident, first: nat, listed: set<string>) {
    n.recordedMs >= first && n.id in listed
  }

  /** A ledger of the same target and boundary, with distinct receipts of listed incidents. */
  predicate LedgerGood(l: Ledger, start: Ledger, listed: set<string>) {
    l.target == start.target && l.firstEnabledMs == start.firstEnabledMs && Distinct(l.sent) && Within(l.sent, listed)
  }

  /** What holds after every turn of a pass that began with the ledger `start`. */
  predicate PassInv(p: Pass, start: Ledger, file: Option<Ledger>, listed: set<string>) {
    && LedgerGood(p.ledger, start, listed)
    && (forall k :: 0 <= k < |p.transmissions| ==> Sendable(p.transmissions[k].incident, start.firstEnabledMs, listed))
    && StopsInTime(p)
    && (p.file == file || (p.file.Some? && LedgerGood(p.file.value, start, listed)))
    && (!p.failed ==> p.file == if p.transmissions == [] then file else Some(p.ledger))
    && (p.failed ==> p.stopped)
    && (p.transmissions == [] ==> p.ledger.nextAttemptMs == start.nextAttemptMs)
  }

  lemma {:induction false} TurnKeeps(
      p: Pass, index: nat, n: Incident, o: Outcome, start: Ledger, file: Option<Ledger>, listed: set<string>)
    requires PassInv(p, start, file, listed) && n.id in listed
    ensures PassInv(Turn(p, index, n, o), start, file, listed)
  {
  }

  /** Over a whole pass: nothing older than the boundary is sent, receipts stay distinct
      and belong to listed incidents, a failure or a delay ends the sending, and an
      error-free pass leaves the file in step with the ledger. */
  lemma {:induction false} PassKeeps(
      listing: seq<Listed>, k: nat, ledger: Ledger, file: Option<Ledger>)
    requires k <= |listing| && Distinct(ledger.sent)
    ensures PassInv(Turns(listing, k, ledger, file), ledger, file, Ids(listing))
  {
    hide Turn, Retain;
    if k == 0 {
      RetainKeeps(ledger.sent, Ids(listing));
    } else {
      hide PassInv;
      PassKeeps(listing, k - 1, ledger, file);
      assert listing[k - 1].incident.id in Ids(listing);
      TurnKeeps(Turns(listing, k - 1, ledger, file), k - 1, listing[k - 1].incident, listing[k - 1].outcome,
                ledger, file, Ids(listing));
    }
  }

  predicate Mentions(transmissions: seq<Transmission>, id: string) {
    exists k :: 0 <= k < |transmissions| && transmissions[k].incident.id == id
  }

  /** A listed incident with a receipt is not sent, and keeps its receipt in the ledger and
      in whatever the pass writes. */
  lemma {:induction false} ReceiptRespected(
      listing: seq<Listed>, k: nat, ledger: Ledger, file: Option<Ledger>, id: string)
    requires k <= |listing| && id in ledger.sent && id in Ids(listing)
    ensures var p := Turns(listing, k, ledger, file);
            && id in p.ledger.sent && !Mentions(p.transmissions, id)
            && (p.file == file || (p.file.Some? && id in p.file.value.sent))
  {
    hide Retain, Ids, NextAttempt;
    if k == 0 {
      RetainKeeps(ledger.sent, Ids(listing));
    } else {
      ReceiptRespected(listing, k - 1, ledger, file, id);
    }
  }

  /** An accepted transmission whose pass ended without an error has its receipt saved. */
  lemma {:induction false} ReceiptSaved(
      listing: seq<Listed>, k: nat, ledger: Ledger, file: Option<Ledger>, j: nat)
    requires k <= |listing|
    requires var p := Turns(listing, k, ledger, file); j < |p.transmissions| && p.transmissions[j].accepted
    ensures var p := Turns(listing, k, ledger, file);
            && p.transmissions[j].incident.id in p.ledger.sent
            && (!p.failed ==> p.file == Some(p.ledger))
  {
    hide Retain, Ids, NextAttempt;
    if k > 0 {
      var p := Turns(listing, k - 1, ledger, file);
      if j < |p.transmissions| {
        ReceiptSaved(listing, k - 1, ledger, file, j);
      }
    }
  }

  /** A transmission is of the listed incident at its place, which was enabled then. */
  predicate Faithful(t: Transmission, listing: seq<Listed>, k: nat) {
    && t.index < k <= |listing|
    && t.incident == listing[t.index].incident
    && listing[t.index].outcome.enabled
    && t.accepted == listing[t.index].outcome.accepted && t.delay == listing[t.index].outcome.delay
  }

  predicate InOrder(sent: seq<Transmission>, listing: seq<Listed>, k: nat) {
    && (forall a :: 0 <= a < |sent| ==> Faithful(sent[a], listing, k))
    && (forall a, b :: 0 <= a < b < |sent| ==> sent[a].index < sent[b].index)
  }

  lemma {:induction false} InOrderGrows(sent: seq<Transmission>, listing: seq<Listed>, k: nat, m: nat)
    requires InOrder(sent, listing, k) && k <= m <= |listing|
    ensures InOrder(sent, listing, m)
  {
    forall a | 0 <= a < |sent| ensures Faithful(sent[a], listing, m) {
      assert Faithful(sent[a], listing, k);
    }
  }

  lemma {:induction false} InOrderAppended(sent: seq<Transmission>, t: Transmission, listing: seq<Listed>, k: nat)
    requires k < |listing| && InOrder(sent, listing, k) && Faithful(t, listing, k + 1) && t.index == k
    ensures InOrder(sent + [t], listing, k + 1)
  {
    InOrderGrows(sent, listing, k, k + 1);
    forall a | 0 <= a < |sent| ensures sent[a].index < k {
      assert Faithful(sent[a], listing, k);
    }
  }

  /** The transmissions of a pass follow the list: each is faithful, and they are in order. */
  lemma {:induction false} FollowsList(listing: seq<Listed>, k: nat, ledger: Ledger, file: Option<Ledger>)
    requires k <= |listing|
    ensures InOrder(Turns(listing, k, ledger, file).transmissions, listing, k)
  {
    hide Retain, Ids, Due, Recorded;
    if k > 0 {
      FollowsList(listing, k - 1, ledger, file);
      var before, after := Turns(listing, k - 1, ledger, file), Turns(listing, k, ledger, file);
      var n, o := listing[k - 1].incident, listing[k - 1].outcome;
      var t := Transmission(k - 1, n, o.accepted, o.delay);
      assert after == Turn(before, k - 1, n, o);
      if after.transmissions == before.transmissions {
        InOrderGrows(before.transmissions, listing, k - 1, k);
      } else {
        assert Due(n, o, before.ledger) && after.transmissions == before.transmissions + [t];
        DueIsEnabled(n, o, before.ledger);
        InOrderAppended(before.transmissions, t, listing, k - 1);
      }
    }
  }

  lemma {:induction false} DueIsEnabled(n: Incident, o: Outcome, ledger: Ledger)
    ensures Due(n, o, ledger) ==> o.enabled
  {
  }

  // ---- Runs with restarts ----

  /** The file, the ledger of the process if one is running, and everything sent so far. */
  datatype World = World(file: Option<Ledger>, running: Option<Ledger>, transmissions: seq<Transmission>)

  datatype Event =
    | Start(now: nat, saved: bool)
    | Poll(now: nat, listing: seq<Listed>)
    | Stop

  /** Starting reuses a ledger of the same target. Otherwise a new one, whose boundary is
      the present, is written first. */
  function Started(w: World, target: string, now: nat, saved: bool): World {
    if w.file.Some? && w.file.value.target == target then
      w.(running := w.file)
    else if saved then
      var ledger := Ledger(target, now, [], 0);
      w.(file := Some(ledger), running := Some(ledger))
    else
      w
  }

  function Step(w: World, target: string, e: Event): World {
    match e
    case Start(now, saved) => if w.running.Some? then w else Started(w, target, now, saved)
    case Stop => w.(running := None)
    case Poll(now, listing) =>
      if w.running.None? || now < w.running.value.nextAttemptMs then w
      else
        var p := Delivered(listing, w.running.value, w.file);
        World(p.file, if p.failed then None else Some(p.ledger), w.transmissions + p.transmissions)
  }

  function Run(w: World, target: string, events: seq<Event>): World {
    if events == [] then w else Step(Run(w, target, events[..|events| - 1]), target, events[|events| - 1])
  }

  predicate OwnsFile(w: World, target: string) {
    w.file.Some? && w.file.value.target == target
  }

  predicate Inv(w: World, target: string) {
    && (OwnsFile(w, target) ==> Distinct(w.file.value.sent))
    && (w.running.Some? ==>
          && OwnsFile(w, target) && w.running.value.target == target
          && w.running.value.firstEnabledMs == w.file.value.firstEnabledMs
          && Distinct(w.running.value.sent))
    && (w.transmissions != [] ==> OwnsFile(w, target))
    && (forall k :: 0 <= k < |w.transmissions| && OwnsFile(w, target) ==>
          w.transmissions[k].incident.recordedMs >= w.file.value.firstEnabledMs)
  }

  lemma {:induction false} StepKeeps(w: World, target: string, e: Event)
    requires Inv(w, target)
    ensures var v := Step(w, target, e);
            && Inv(v, target)
            && w.transmissions <= v.transmissions
            && (OwnsFile(w, target) ==>
                  OwnsFile(v, target) && v.file.value.firstEnabledMs == w.file.value.firstEnabledMs)
  {
    var none: seq<string> := [];
    assert Distinct(none);
    hide Turns, Delivered, StopsInTime, Within, Distinct;
    if e.Poll? && w.running.Some? && e.now >= w.running.value.nextAttemptMs {
      var p := DeliveredKeeps(e.listing, w.running.value, w.file);
    }
  }

  lemma {:induction false} DeliveredKeeps(listing: seq<Listed>, ledger: Ledger, file: Option<Ledger>) returns (p: Pass)
    requires Distinct(ledger.sent)
    ensures p == Delivered(listing, ledger, file) && PassInv(p, ledger, file, Ids(listing))
  {
    p := Delivered(listing, ledger, file);
    PassKeeps(listing, |listing|, ledger, file);
  }

  /** A file to begin with: none, one of another target, or one with distinct receipts. */
  predicate Beginning(w: World, target: string) {
    w.running.None? && w.transmissions == [] && (OwnsFile(w, target) ==> Distinct(w.file.value.sent))
  }

  /** Over every run with restarts, nothing older than the boundary in the file is sent. */
  lemma {:induction false} RunKeeps(w: World, target: string, events: seq<Event>)
    requires Beginning(w, target)
    ensures Inv(Run(w, target, events), target)
  {
    hide Inv, Step;
    if events == [] {
      BeginningHolds(w, target);
    } else {
      RunKeeps(w, target, events[..|events| - 1]);
      StepKeeps(Run(w, target, events[..|events| - 1]), target, events[|events| - 1]);
    }
  }

  lemma {:induction false} BeginningHolds(w: World, target: string)
    requires Beginning(w, target)
    ensures Inv(w, target)
  {
  }

  /** The boundary, once in the file, stays for the rest of the run. */
  lemma {:induction false} BoundaryStays(w: World, target: string, events: seq<Event>)
    requires Inv(w, target) && OwnsFile(w, target)
    ensures var v := Run(w, target, events);
            Inv(v, target) && OwnsFile(v, target) && v.file.value.firstEnabledMs == w.file.value.firstEnabledMs
  {
    hide Inv, Step, OwnsFile;
    if events != [] {
      BoundaryStays(w, target, events[..|events| - 1]);
      StepKeeps(Run(w, target, events[..|events| - 1]), target, events[|events| - 1]);
    }
  }

  /** The receipt is in the file, and in the ledger of the process if one is running. */
  predicate HasReceipt(w: World, target: string, id: string) {
    && OwnsFile(w, target) && id in w.file.value.sent
    && (w.running.Some? ==> id in w.running.value.sent)
  }

  /** An accepted transmission whose receipt reached the file leaves its receipt behind. */
  lemma {:induction false} AcceptedLeavesReceipt(w: World, target: string, now: nat, listing: seq<Listed>, j: nat)
    requires Inv(w, target) && w.running.Some? && now >= w.running.value.nextAttemptMs
    requires var p := Delivered(listing, w.running.value, w.file);
             && j < |p.transmissions| && p.transmissions[j].accepted
             && (!p.failed || (p.file.Some? && p.transmissions[j].incident.id in p.file.value.sent))
    ensures HasReceipt(Step(w, target, Poll(now, listing)), target,
                       Delivered(listing, w.running.value, w.file).transmissions[j].incident.id)
  {
    var p := DeliveredKeeps(listing, w.running.value, w.file);
    ReceiptSaved(listing, |listing|, w.running.value, w.file, j);
    hide Turns, StopsInTime, Within, Distinct;
  }

  /** Every poll of the run lists the incident. */
  predicate StaysListed(events: seq<Event>, id: string) {
    forall k :: 0 <= k < |events| && events[k].Poll? ==> id in Ids(events[k].listing)
  }

  predicate NotSentSince(w: World, from: nat, id: string) {
    forall k :: from <= k < |w.transmissions| ==> w.transmissions[k].incident.id != id
  }

  lemma {:induction false} ReceiptKept(w: World, target: string, e: Event, from: nat, id: string)
    requires Inv(w, target) && HasReceipt(w, target, id) && NotSentSince(w, from, id)
    requires e.Poll? ==> id in Ids(e.listing)
    ensures HasReceipt(Step(w, target, e), target, id) && NotSentSince(Step(w, target, e), from, id)
  {
    hide Turns, Ids;
    if e.Poll? && w.running.Some? {
      ReceiptRespected(e.listing, |e.listing|, w.running.value, w.file, id);
      var p := DeliveredKeeps(e.listing, w.running.value, w.file);
      assert forall k :: 0 <= k < |p.transmissions| ==> p.transmissions[k].incident.id != id;
    }
  }

  /** Through any number of passes and restarts, an incident whose receipt was saved is
      never sent again while it stays listed. */
  lemma {:induction false} NeverSentAgain(w: World, target: string, events: seq<Event>, id: string)
    requires Inv(w, target) && HasReceipt(w, target, id) && StaysListed(events, id)
    ensures var v := Run(w, target, events);
            && Inv(v, target) && HasReceipt(v, target, id)
            && w.transmissions <= v.transmissions && NotSentSince(v, |w.transmissions|, id)
  {
    hide Inv, Step, HasReceipt, Ids;
    if events != [] {
      var front := events[..|events| - 1];
      assert StaysListed(front, id);
      NeverSentAgain(w, target, front, id);
      StepKeeps(Run(w, target, front), target, events[|events| - 1]);
      ReceiptKept(Run(w, target, front), target, events[|events| - 1], |w.transmissions|, id);
    }
  }

  /** Neither the file nor a running process attempts anything before this time. */
  predicate Waits(w: World, target: string, until: nat) {
    && OwnsFile(w, target) && w.file.value.nextAttemptMs >= until
    && (w.running.Some? ==> w.running.value.nextAttemptMs >= until)
  }

  const LAST_MS: nat := 18_446_744_073_709_551_615

  /** The time that a delay of so many nanoseconds ends, counted from `now`: in whole milliseconds,
      rounded down, and never past the last time there is. */
  predicate EndsDelay(r: nat, now: nat, delay: nat) {
    || (r <= LAST_MS && 1_000_000 * (r - now) <= delay < 1_000_000 * (r - now + 1))
    || (r == LAST_MS && 1_000_000 * (r - now) <= delay)
  }

  /** A whole millisecond or more before that time. */
  predicate IsEarly(t: nat, now: nat, delay: nat) {
    t < LAST_MS && 1_000_000 * (t + 1 - now) <= delay
  }

  lemma {:induction false} NextAttemptEnds(now: nat, delay: nat)
    ensures EndsDelay(NextAttempt(now, delay), now, delay)
  {
    var ms := delay / 1_000_000;
    assert 1_000_000 * ms <= delay < 1_000_000 * (ms + 1);
  }

  lemma {:induction false} EarlyExactly(t: nat, r: nat, now: nat, delay: nat)
    requires EndsDelay(r, now, delay)
    ensures IsEarly(t, now, delay) <==> t < r
  {
  }

  /** The last transmission of a pass decides when the next attempt is due: when the delay it was
      answered with ends. */
  lemma {:induction false} LastDecides(listing: seq<Listed>, k: nat, ledger: Ledger, file: Option<Ledger>)
    requires k <= |listing|
    ensures var p := Turns(listing, k, ledger, file);
            p.transmissions != [] ==>
              && p.transmissions[|p.transmissions| - 1].index < k
              && var o := LastOutcome(listing, p.transmissions); EndsDelay(p.ledger.nextAttemptMs, o.now, o.delay)
  {
    hide Retain, Ids, NextAttempt, EndsDelay;
    if k > 0 {
      LastDecides(listing, k - 1, ledger, file);
      NextAttemptEnds(listing[k - 1].outcome.now, listing[k - 1].outcome.delay);
    }
  }

  function LastOutcome(listing: seq<Listed>, transmissions: seq<Transmission>): Outcome
    requires transmissions != [] && transmissions[|transmissions| - 1].index < |listing|
  {
    listing[transmissions[|transmissions| - 1].index].outcome
  }

  lemma {:induction false} WaitsOn(w: World, target: string, events: seq<Event>, until: nat)
    requires Waits(w, target, until)
    requires forall k :: 0 <= k < |events| && events[k].Poll? ==> events[k].now < until
    ensures Waits(Run(w, target, events), target, until)
    ensures Run(w, target, events).transmissions == w.transmissions
  {
    if events != [] {
      WaitsOn(w, target, events[..|events| - 1], until);
    }
  }

  /** After an error-free pass that sent something, no poll before the end of the delay that was
      last asked for sends anything, through any number of restarts. */
  lemma {:induction false} DelayRespected(
      w: World, target: string, now: nat, listing: seq<Listed>, events: seq<Event>)
    requires Inv(w, target) && w.running.Some? && now >= w.running.value.nextAttemptMs
    requires var p := Delivered(listing, w.running.value, w.file); !p.failed && p.transmissions != []
    ensures var p := Delivered(listing, w.running.value, w.file);
            p.transmissions[|p.transmissions| - 1].index < |listing|
    ensures var p := Delivered(listing, w.running.value, w.file);
            var after, o := Step(w, target, Poll(now, listing)), LastOutcome(listing, p.transmissions);
            (forall k :: 0 <= k < |events| && events[k].Poll? ==> IsEarly(events[k].now, o.now, o.delay))
            ==> Run(after, target, events).transmissions == w.transmissions + p.transmissions
  {
    var p := DeliveredKeeps(listing, w.running.value, w.file);
    LastDecides(listing, |listing|, w.running.value, w.file);
    var after, until := Step(w, target, Poll(now, listing)), p.ledger.nextAttemptMs;
    assert Waits(after, target, until);
    hide Turns, Step, Run, Inv, EndsDelay, IsEarly;
    var o := LastOutcome(listing, p.transmissions);
    if forall k :: 0 <= k < |events| && events[k].Poll? ==> IsEarly(events[k].now, o.now, o.delay) {
      forall k | 0 <= k < |events| && events[k].Poll? ensures events[k].now < until {
        EarlyExactly(events[k].now, until, o.now, o.delay);
      }
      WaitsOn(after, target, events, until);
    }
  }

  /** When that delay is over the next poll makes its pass. */
  lemma {:induction false} DelayEnds(
      w: World, target: string, now: nat, listing: seq<Listed>, later: nat, next: seq<Listed>)
    requires Inv(w, target) && w.running.Some? && now >= w.running.value.nextAttemptMs
    requires var p := Delivered(listing, w.running.value, w.file); !p.failed && p.transmissions != []
    ensures var p := Delivered(listing, w.running.value, w.file);
            p.transmissions[|p.transmissions| - 1].index < |listing|
    ensures var p := Delivered(listing, w.running.value, w.file);
            var after, o := Step(w, target, Poll(now, listing)), LastOutcome(listing, p.transmissions);
            !IsEarly(later, o.now, o.delay) ==>
            Step(after, target, Poll(later, next)).transmissions
            == w.transmissions + p.transmissions + Delivered(next, p.ledger, p.file).transmissions
  {
    LastDecides(listing, |listing|, w.running.value, w.file);
    hide Turns, Inv, EndsDelay, IsEarly;
    var p := Delivered(listing, w.running.value, w.file);
    var o := LastOutcome(listing, p.transmissions);
    EarlyExactly(later, p.ledger.nextAttemptMs, o.now, o.delay);
  }

  /** A first start keeps to itself what happened before it, and makes its first pass whenever it is
      polled. */
  lemma {:induction false} FirstStart(w: World, target: string, now: nat, events: seq<Event>)
    requires Beginning(w, target) && !OwnsFile(w, target)
    ensures var started := Step(w, target, Start(now, true));
            && started.running == Some(Ledger(target, now, [], 0)) && started.file == started.running
            && forall k :: 0 <= k < |Run(started, target, events).transmissions| ==>
                 Run(started, target, events).transmissions[k].incident.recordedMs >= now
  {
    var started := Step(w, target, Start(now, true));
    BeginningHolds(w, target);
    StepKeeps(w, target, Start(now, true));
    BoundaryStays(started, target, events);
    hide Run;
  }

  /** A pass that ends with an error stops the process: until it is started again nothing is sent. */
  lemma {:induction false} FailureStops(
      w: World, target: string, now: nat, listing: seq<Listed>, events: seq<Event>)
    requires w.running.Some? && now >= w.running.value.nextAttemptMs
    requires Delivered(listing, w.running.value, w.file).failed
    requires forall k :: 0 <= k < |events| ==> !events[k].Start?
    ensures var after := Step(w, target, Poll(now, listing));
            after.running == None && Run(after, target, events) == after
    decreases |events|
  {
    hide Delivered;
    if events != [] {
      FailureStops(w, target, now, listing, events[..|events| - 1]);
    }
  }

  /** Starting a process that runs already changes nothing. */
  lemma {:induction false} StartsOnce(w: World, target: string, now: nat, saved: bool)
    requires w.running.Some?
    ensures Step(w, target, Start(now, saved)) == w
  {
  }

  predicate Quiet(listing: seq<Listed>) {
    forall a :: 0 <= a < |listing| ==> var o := listing[a].outcome; o.enveloped && o.accepted && o.delay == 0 && o.saved
  }

  /** A pass that does not stop leaves a receipt for every enabled incident that is not older than the
      boundary, and it does not stop when nothing fails and no delay is asked for. */
  lemma {:induction false} UnstoppedPassCompletes(listing: seq<Listed>, k: nat, ledger: Ledger, file: Option<Ledger>)
    requires k <= |listing|
    ensures var p := Turns(listing, k, ledger, file);
            && (Quiet(listing) ==> !p.stopped) && p.ledger.firstEnabledMs == ledger.firstEnabledMs
            && (!p.stopped ==>
                  forall a :: 0 <= a < k && listing[a].outcome.enabled
                              && listing[a].incident.recordedMs >= ledger.firstEnabledMs ==>
                    listing[a].incident.id in p.ledger.sent)
  {
    hide Retain, Ids, NextAttempt;
    if k > 0 {
      UnstoppedPassCompletes(listing, k - 1, ledger, file);
    }
  }

  /** A pass that stops does so at an enabled incident that is not older than the boundary: because of its
      answer, or with an error because it has no envelope or the ledger could not be written. */
  lemma {:induction false} StopsExactly(listing: seq<Listed>, k: nat, ledger: Ledger, file: Option<Ledger>)
    returns (a: nat)
    requires k <= |listing| && Turns(listing, k, ledger, file).stopped
    ensures var p := Turns(listing, k, ledger, file);
            && a < k && listing[a].outcome.enabled && listing[a].incident.recordedMs >= ledger.firstEnabledMs
            && var o := listing[a].outcome;
               && !(o.enveloped && o.accepted && o.delay == 0 && o.saved)
               && (p.failed <==> !(o.enveloped && o.saved))
  {
    hide Retain, Ids, NextAttempt;
    var before := Turns(listing, k - 1, ledger, file);
    if before.stopped {
      a := StopsExactly(listing, k - 1, ledger, file);
    } else {
      a := k - 1;
      SameBoundary(listing, k - 1, ledger, file);
    }
  }

  lemma {:induction false} SameBoundary(listing: seq<Listed>, k: nat, ledger: Ledger, file: Option<Ledger>)
    requires k <= |listing|
    ensures Turns(listing, k, ledger, file).ledger.firstEnabledMs == ledger.firstEnabledMs
    ensures Turns(listing, k, ledger, file).failed ==> Turns(listing, k, ledger, file).stopped
  {
    hide Retain, Ids, NextAttempt;
    if k > 0 {
      SameBoundary(listing, k - 1, ledger, file);
    }
  }
}
