/**
 * The one-packet write queue between the threads that send and the write thread, as a state machine whose
 * steps are the lock, event and memory operations of the two sides.
 */
module WriteQueue {
  import opened Rings

  type Packet = seq<nat>

  /** Where a sending thread stands. All but Idle are inside the write lock. */
  datatype Sender =
    | Idle
    | Again(packet: Packet) // about to check for detachment and take the output lock
    | Holding(packet: Packet) // has the output lock, about to look at the slot
    | Waiting(packet: Packet) // found the slot full, waits for writtenEvent
    | Filled // has the output lock and has filled the slot
    | Signalling // about to set writeAvailableEvent

  /** Where the write thread stands. */
  datatype Writer =
    | Sleeping // waits for writeAvailableEvent
    | Woken // about to reset writeAvailableEvent
    | Fetching // about to take the output lock
    | Taking // has the output lock
    | Sending(packet: Option<Packet>) // None: the slot was empty, a packet of zeros goes out
    | Reporting(ok: bool) // about to set writtenEvent
    | Exited

  datatype Owner = Free | BySender(i: nat) | ByWriter

  datatype State = State(
    senders: seq<Sender>, writer: Writer, writeLock: Option<nat>, outputLock: Owner,
    slot: Option<Packet>, available: bool, written: bool,
    accepted: seq<Packet>, taken: seq<Packet>, sent: seq<Option<Packet>>)

  datatype Action =
    | Begin(i: nat, packet: Packet)
    | NotAttached(i: nat)
    | Lock(i: nat)
    | Test(i: nat)
    | WaitReturns(i: nat, byEvent: bool)
    | WaitTimesOut(i: nat)
    | ResetWritten(i: nat)
    | SetAvailable(i: nat)
    | Wake
    | SpuriousWake
    | TimedOut
    | Quit
    | ResetAvailable
    | WriterLock
    | Take
    | Send(ok: bool)
    | SetWritten

  /**
   * What may happen next. A sender's wait may also return without its event: on a timeout, which ends the call,
   * or because the wait failed or woke spuriously, which the source does not tell from the event. The write
   * thread gives up after a failed wait; only where condition variables stand for events (not autoReset) can
   * its wait end spuriously.
   */
  predicate Enabled(s: State, a: Action, autoReset: bool) {
    match a
    case Begin(i, p) => i < |s.senders| && s.senders[i].Idle? && s.writeLock.None?
    case NotAttached(i) => i < |s.senders| && s.senders[i].Again?
    case Lock(i) => i < |s.senders| && s.senders[i].Again? && s.outputLock.Free?
    case Test(i) => i < |s.senders| && s.senders[i].Holding?
    case WaitReturns(i, byEvent) => i < |s.senders| && s.senders[i].Waiting? && (byEvent ==> s.written)
    case WaitTimesOut(i) => i < |s.senders| && s.senders[i].Waiting?
    case ResetWritten(i) => i < |s.senders| && s.senders[i].Filled?
    case SetAvailable(i) => i < |s.senders| && s.senders[i].Signalling?
    case Wake => s.writer.Sleeping? && s.available
    case SpuriousWake => s.writer.Sleeping? && !autoReset
    case TimedOut => s.writer.Sleeping?
    case Quit => s.writer.Sleeping?
    case ResetAvailable => s.writer.Woken?
    case WriterLock => s.writer.Fetching? && s.outputLock.Free?
    case Take => s.writer.Taking?
    case Send(ok) => s.writer.Sending?
    case SetWritten => s.writer.Reporting?
  }

  /**
   * One step; autoReset says that a wait that returns by its event clears it (Windows, not POSIX). After a
   * timeout the write thread looks at the slot only on devices that set awdc_enabled, and those have no slot.
   */
  function Do(s: State, a: Action, autoReset: bool): (t: State)
    requires Enabled(s, a, autoReset)
  {
    match a
    case Begin(i, p) => s.(senders := s.senders[i := Again(p)], writeLock := Some(i))
    case NotAttached(i) => s.(senders := s.senders[i := Idle], writeLock := None)
    case Lock(i) => s.(senders := s.senders[i := Holding(s.senders[i].packet)], outputLock := BySender(i))
    case Test(i) =>
      var p := s.senders[i].packet;
      if s.slot.Some? then s.(senders := s.senders[i := Waiting(p)], outputLock := Free)
      else s.(senders := s.senders[i := Filled], slot := Some(p), accepted := s.accepted + [p])
    case WaitReturns(i, byEvent) =>
      s.(senders := s.senders[i := Again(s.senders[i].packet)],
         written := if byEvent && autoReset then false else s.written)
    case WaitTimesOut(i) => s.(senders := s.senders[i := Idle], writeLock := None)
    case ResetWritten(i) => s.(senders := s.senders[i := Signalling], written := false, outputLock := Free)
    case SetAvailable(i) => s.(senders := s.senders[i := Idle], writeLock := None, available := true)
    case Wake => s.(writer := Woken, available := if autoReset then false else s.available)
    case SpuriousWake => s.(writer := Woken)
    case TimedOut => s
    case Quit => s.(writer := Exited)
    case ResetAvailable => s.(writer := Fetching, available := false)
    case WriterLock => s.(writer := Taking, outputLock := ByWriter)
    case Take =>
      s.(writer := Sending(s.slot), slot := None, outputLock := Free,
         taken := s.taken + (if s.slot.Some? then [s.slot.value] else []))
    case Send(ok) => s.(writer := Reporting(ok), sent := s.sent + [s.writer.packet])
    case SetWritten => s.(writer := if s.writer.ok then Sleeping else Exited, written := true)
  }

  /** The states a device can be attached in: nothing queued, both events reset. */
  predicate Initial(s: State) {
    && (forall i :: 0 <= i < |s.senders| ==> s.senders[i].Idle?)
    && s.writer.Sleeping? && s.writeLock.None? && s.outputLock.Free?
    && s.slot.None? && !s.available && !s.written
    && s.accepted == [] && s.taken == [] && s.sent == []
  }

  /** Every action is possible when its turn comes. */
  predicate Possible(s: State, run: seq<Action>, autoReset: bool)
    decreases |run|
  {
    run == [] || (Enabled(s, run[0], autoReset) && Possible(Do(s, run[0], autoReset), run[1..], autoReset))
  }

  function After(s: State, run: seq<Action>, autoReset: bool): (t: State)
    requires Possible(s, run, autoReset)
    decreases |run|
  {
    if run == [] then s else After(Do(s, run[0], autoReset), run[1..], autoReset)
  }

  // ----- what every step keeps

  /** The sender inside the write lock. */
  function Active(s: State): Sender {
    if s.writeLock.Some? && s.writeLock.value < |s.senders| then s.senders[s.writeLock.value] else Idle
  }

  predicate Locks(s: State) {
    && (forall i :: 0 <= i < |s.senders| && !s.senders[i].Idle? ==> s.writeLock == Some(i))
    && (s.writeLock.Some? ==> s.writeLock.value < |s.senders| && !Active(s).Idle?)
    && ((Active(s).Holding? || Active(s).Filled?) <==> s.outputLock.BySender?)
    && (s.outputLock.BySender? ==> s.writeLock == Some(s.outputLock.i))
    && (s.writer.Taking? <==> s.outputLock.ByWriter?)
  }

  /** What has gone out, without the packets of zeros. */
  function Packets(sent: seq<Option<Packet>>): seq<Packet> {
    if sent == [] then []
    else
      var before, last := Packets(sent[..|sent| - 1]), sent[|sent| - 1];
      if last.Some? then before + [last.value] else before
  }

  function Contents(o: Option<Packet>): seq<Packet> { if o.Some? then [o.value] else [] }

  function InFlight(w: Writer): seq<Packet> { if w.Sending? then Contents(w.packet) else [] }

  predicate InOrder(s: State) {
    && s.taken + Contents(s.slot) == s.accepted
    && Packets(s.sent) + InFlight(s.writer) == s.taken
  }

  /** A queued packet whose sender has signalled: the event is set, or the write thread is about to look. */
  predicate NoLostWakeup(s: State) {
    s.slot.Some? && !Active(s).Filled? && !Active(s).Signalling? ==>
      s.available || s.writer.Woken? || s.writer.Fetching? || s.writer.Taking?
  }

  /** A waiting sender: the slot is still full, or the event is set, or the write thread is about to set it. */
  predicate WaiterReleased(s: State) {
    Active(s).Waiting? ==> s.slot.Some? || s.written || s.writer.Sending? || s.writer.Reporting?
  }

  predicate Inv(s: State) { Locks(s) && InOrder(s) && NoLostWakeup(s) && WaiterReleased(s) }

  lemma InitialInv(s: State)
    requires Initial(s)
    ensures Inv(s)
  {
  }

  /** A step of sender i, which has the write lock or takes it. */
  predicate BySide(a: Action, i: nat) {
    match a
    case Begin(j, _) => j == i
    case NotAttached(j) => j == i
    case Lock(j) => j == i
    case Test(j) => j == i
    case WaitReturns(j, _) => j == i
    case WaitTimesOut(j) => j == i
    case ResetWritten(j) => j == i
    case SetAvailable(j) => j == i
    case _ => false
  }

  predicate ByWriteThread(a: Action) {
    a.Wake? || a.SpuriousWake? || a.TimedOut? || a.Quit? || a.ResetAvailable? || a.WriterLock? || a.Take? || a.Send?
    || a.SetWritten?
  }

  lemma SenderOf(a: Action) returns (i: nat)
    ensures BySide(a, i) || ByWriteThread(a)
  {
    match a
    case Begin(j, _) => return j;
    case NotAttached(j) => return j;
    case Lock(j) => return j;
    case Test(j) => return j;
    case WaitReturns(j, _) => return j;
    case WaitTimesOut(j) => return j;
    case ResetWritten(j) => return j;
    case SetAvailable(j) => return j;
    case _ => return 0;
  }

  /** A sender's step changes that sender only; the others are idle before and after. */
  lemma SenderStep(s: State, a: Action, i: nat, autoReset: bool)
    requires Locks(s) && Enabled(s, a, autoReset) && BySide(a, i)
    ensures i < |s.senders| && forall j :: 0 <= j < |s.senders| && j != i ==> s.senders[j].Idle?
    ensures var t := Do(s, a, autoReset);
      && t.senders == s.senders[i := t.senders[i]] && t.writer == s.writer
      && t.writeLock == (if t.senders[i].Idle? then None else Some(i))
      && (s.outputLock.ByWriter? <==> t.outputLock.ByWriter?)
      && (t.outputLock.BySender? <==> t.senders[i].Holding? || t.senders[i].Filled?)
      && (t.outputLock.BySender? ==> t.outputLock.i == i)
  {
  }

  lemma LocksAfterSender(s: State, t: State, i: nat)
    requires i < |s.senders| && forall j :: 0 <= j < |s.senders| && j != i ==> s.senders[j].Idle?
    requires |t.senders| == |s.senders| && t.senders == s.senders[i := t.senders[i]]
    requires t.writeLock == (if t.senders[i].Idle? then None else Some(i))
    requires t.writer.Taking? <==> t.outputLock.ByWriter?
    requires t.outputLock.BySender? <==> t.senders[i].Holding? || t.senders[i].Filled?
    requires t.outputLock.BySender? ==> t.outputLock.i == i
    ensures Locks(t)
  {
  }

  lemma WriterStepLocks(s: State, a: Action, autoReset: bool)
    requires Locks(s) && Enabled(s, a, autoReset) && ByWriteThread(a)
    ensures Locks(Do(s, a, autoReset))
  {
    var t := Do(s, a, autoReset);
    assert t.senders == s.senders && t.writeLock == s.writeLock && Active(t) == Active(s);
  }

  lemma StepLocks(s: State, a: Action, autoReset: bool)
    requires Locks(s) && Enabled(s, a, autoReset)
    ensures Locks(Do(s, a, autoReset))
  {
    var i := SenderOf(a);
    if ByWriteThread(a) {
      WriterStepLocks(s, a, autoReset);
    } else {
      SenderStep(s, a, i, autoReset);
      assert s.writer.Taking? <==> s.outputLock.ByWriter?;
      hide Enabled, Do, Locks;
      LocksAfterSender(s, Do(s, a, autoReset), i);
    }
  }

  lemma StepInOrder(s: State, a: Action, autoReset: bool)
    requires InOrder(s) && Enabled(s, a, autoReset)
    ensures InOrder(Do(s, a, autoReset))
  {
    var t := Do(s, a, autoReset);
    if a.Send? { assert t.sent[..|t.sent| - 1] == s.sent; }
  }

  lemma SenderStepWakeups(s: State, a: Action, i: nat, autoReset: bool)
    requires Locks(s) && NoLostWakeup(s) && WaiterReleased(s) && Enabled(s, a, autoReset) && BySide(a, i)
    ensures NoLostWakeup(Do(s, a, autoReset)) && WaiterReleased(Do(s, a, autoReset))
  {
    SenderStep(s, a, i, autoReset);
    hide Locks;
    var t := Do(s, a, autoReset);
    assert Active(t) == t.senders[i];
    assert !a.Begin? ==> Active(s) == s.senders[i];
  }

  lemma StepWakeups(s: State, a: Action, autoReset: bool)
    requires Locks(s) && NoLostWakeup(s) && WaiterReleased(s) && Enabled(s, a, autoReset)
    ensures NoLostWakeup(Do(s, a, autoReset)) && WaiterReleased(Do(s, a, autoReset))
  {
    var i := SenderOf(a);
    if ByWriteThread(a) {
      assert Active(Do(s, a, autoReset)) == Active(s);
      hide Locks;
    } else {
      SenderStepWakeups(s, a, i, autoReset);
    }
  }

  lemma {:induction false} RunInv(s: State, run: seq<Action>, autoReset: bool)
    requires Inv(s) && Possible(s, run, autoReset)
    ensures Inv(After(s, run, autoReset))
    decreases |run|
  {
    hide Locks, InOrder, NoLostWakeup, WaiterReleased, Do, Enabled;
    if run != [] {
      StepLocks(s, run[0], autoReset);
      StepInOrder(s, run[0], autoReset);
      StepWakeups(s, run[0], autoReset);
      RunInv(Do(s, run[0], autoReset), run[1..], autoReset);
    }
  }

  /**
   * Whatever the interleaving, with one sender or many: packets leave in the order in which they were accepted,
   * none lost or repeated, no wakeup lost, no waiting sender forgotten, and of two senders one is idle.
   */
  lemma EveryInterleaving(s: State, run: seq<Action>, autoReset: bool)
    requires Initial(s) && Possible(s, run, autoReset)
    ensures var t := After(s, run, autoReset);
      && |t.senders| == |s.senders|
      && (forall i, j :: 0 <= i < j < |t.senders| ==> t.senders[i].Idle? || t.senders[j].Idle?)
      && t.taken + Contents(t.slot) == t.accepted
      && Packets(t.sent) + InFlight(t.writer) == t.taken
      && NoLostWakeup(t) && WaiterReleased(t)
  {
    hide Possible, After, NoLostWakeup, WaiterReleased;
    InitialInv(s);
    RunInv(s, run, autoReset);
    SendersStay(s, run, autoReset);
  }

  lemma {:induction false} SendersStay(s: State, run: seq<Action>, autoReset: bool)
    requires Possible(s, run, autoReset)
    ensures |After(s, run, autoReset).senders| == |s.senders|
    decreases |run|
  {
    if run != [] { SendersStay(Do(s, run[0], autoReset), run[1..], autoReset); }
  }

  // ----- packets of zeros

  /** No wait returned as if by its event without it. */
  predicate Spurious(a: Action) { a.SpuriousWake? || (a.WaitReturns? && !a.byEvent) }

  predicate NoneSpurious(run: seq<Action>) { forall i :: 0 <= i < |run| ==> !Spurious(run[i]) }

  /** The write thread's waits ended by the event or on a timeout. */
  predicate NoSpuriousWake(run: seq<Action>) { forall i :: 0 <= i < |run| ==> run[i] != SpuriousWake }

  /** The write thread has come to know of a packet. */
  predicate Alert(w: Writer) { w.Woken? || w.Fetching? || w.Taking? }

  predicate NoZeros(s: State) {
    (s.writer.Sending? ==> s.writer.packet.Some?) && forall i :: 0 <= i < |s.sent| ==> s.sent[i].Some?
  }

  /** The write thread looks at the slot only while it is full. */
  predicate LooksAtFull(s: State) {
    && (s.available || Alert(s.writer) ==> s.slot.Some?)
    && (Active(s).Filled? || Active(s).Signalling? ==> s.slot.Some? && !s.available && !Alert(s.writer))
    && (s.available ==> !s.writer.Fetching? && !s.writer.Taking?)
  }

  lemma SenderLooksAtFull(s: State, a: Action, i: nat, autoReset: bool)
    requires Locks(s) && LooksAtFull(s) && Enabled(s, a, autoReset) && BySide(a, i)
    ensures LooksAtFull(Do(s, a, autoReset))
  {
    SenderStep(s, a, i, autoReset);
    hide Locks;
    var t := Do(s, a, autoReset);
    assert Active(t) == t.senders[i];
    assert !a.Begin? ==> Active(s) == s.senders[i];
  }

  lemma WriterLooksAtFull(s: State, a: Action, autoReset: bool)
    requires Locks(s) && LooksAtFull(s) && Enabled(s, a, autoReset) && ByWriteThread(a) && a != SpuriousWake
    ensures LooksAtFull(Do(s, a, autoReset))
  {
    var t := Do(s, a, autoReset);
    assert Active(t) == Active(s);
  }

  lemma StepLooksAtFull(s: State, a: Action, autoReset: bool)
    requires Locks(s) && LooksAtFull(s) && NoZeros(s) && Enabled(s, a, autoReset) && a != SpuriousWake
    ensures LooksAtFull(Do(s, a, autoReset)) && NoZeros(Do(s, a, autoReset))
  {
    var i := SenderOf(a);
    if ByWriteThread(a) {
      WriterLooksAtFull(s, a, autoReset);
    } else {
      SenderLooksAtFull(s, a, i, autoReset);
    }
    hide Locks;
  }

  lemma {:induction false} RunLooksAtFull(s: State, run: seq<Action>, autoReset: bool)
    requires Locks(s) && LooksAtFull(s) && NoZeros(s) && Possible(s, run, autoReset) && NoSpuriousWake(run)
    ensures NoZeros(After(s, run, autoReset))
    decreases |run|
  {
    hide Locks, LooksAtFull, Do, Enabled, NoZeros;
    if run != [] {
      StepLocks(s, run[0], autoReset);
      StepLooksAtFull(s, run[0], autoReset);
      RunLooksAtFull(Do(s, run[0], autoReset), run[1..], autoReset);
    }
  }

  lemma {:induction false} NoneOnWindows(s: State, run: seq<Action>)
    requires Possible(s, run, true)
    ensures NoSpuriousWake(run)
    decreases |run|
  {
    if run != [] {
      NoneOnWindows(Do(s, run[0], true), run[1..]);
      forall i | 0 <= i < |run| ensures run[i] != SpuriousWake {
        if i > 0 { assert run[i] == run[1..][i - 1]; }
      }
    }
  }

  /**
   * A packet of zeros is never sent, timeouts or not, on Windows, nor on POSIX as long as no wait of the write
   * thread wakes spuriously.
   */
  lemma NoZerosUnlessSpurious(s: State, run: seq<Action>, autoReset: bool)
    requires Initial(s) && Possible(s, run, autoReset) && (autoReset || NoSpuriousWake(run))
    ensures var t := After(s, run, autoReset); forall i :: 0 <= i < |t.sent| ==> t.sent[i].Some?
  {
    hide Possible, After, Enabled;
    InitialInv(s);
    if autoReset { NoneOnWindows(s, run); }
    RunLooksAtFull(s, run, autoReset);
  }

  // ----- particular runs

  predicate Step(s: State, a: Action, t: State, autoReset: bool) {
    Enabled(s, a, autoReset) && Do(s, a, autoReset) == t
  }

  /** Make one more step at the end of a run. */
  lemma {:induction false} Then(s: State, run: seq<Action>, a: Action, t: State, autoReset: bool)
    returns (longer: seq<Action>)
    requires Possible(s, run, autoReset) && Step(After(s, run, autoReset), a, t, autoReset)
    ensures longer == run + [a] && Possible(s, longer, autoReset) && After(s, longer, autoReset) == t
    decreases |run|
  {
    hide Enabled, Do;
    longer := run + [a];
    if run == [] {
      assert longer[1..] == [] && Possible(t, [], autoReset);
    } else {
      assert longer[1..] == run[1..] + [a];
      var _ := Then(Do(s, run[0], autoReset), run[1..], a, t, autoReset);
    }
  }

  function At(s: State, i: nat, sender: Sender): State
    requires i < |s.senders|
  {
    s.(senders := s.senders[i := sender])
  }

  predicate TwoSteps(s: State, a: Action, m: State, b: Action, t: State, autoReset: bool) {
    Step(s, a, m, autoReset) && Step(m, b, t, autoReset)
  }

  lemma ThenTwo(s: State, run: seq<Action>, a: Action, m: State, b: Action, t: State, autoReset: bool)
    returns (longer: seq<Action>)
    requires Possible(s, run, autoReset) && TwoSteps(After(s, run, autoReset), a, m, b, t, autoReset)
    ensures longer == run + [a, b] && Possible(s, longer, autoReset) && After(s, longer, autoReset) == t
  {
    hide Possible, After, Step;
    longer := Then(s, run, a, m, autoReset);
    longer := Then(s, longer, b, t, autoReset);
  }

  /** What is left when the write thread has taken what is in the slot. */
  function Emptied(t: State): State {
    t.(writer := Sending(t.slot), slot := None, available := false, taken := t.taken + Contents(t.slot))
  }

  lemma TakingSteps(t: State, wake: Action) returns (t1: State, t2: State, t3: State)
    requires wake == Wake || wake == SpuriousWake
    requires t.writer.Sleeping? && (wake == Wake ==> t.available) && t.outputLock.Free?
    ensures TwoSteps(t, wake, t1, ResetAvailable, t2, false) && TwoSteps(t2, WriterLock, t3, Take, Emptied(t), false)
  {
    t1 := t.(writer := Woken);
    t2 := t.(writer := Fetching, available := false);
    t3 := t2.(writer := Taking, outputLock := ByWriter);
  }

  /** The write thread wakes and takes what is in the slot. */
  lemma Taken(s: State, run: seq<Action>, wake: Action) returns (longer: seq<Action>)
    requires Possible(s, run, false) && (wake == Wake || wake == SpuriousWake)
    requires var t := After(s, run, false); t.writer.Sleeping? && (wake == Wake ==> t.available) && t.outputLock.Free?
    ensures Possible(s, longer, false) && After(s, longer, false) == Emptied(After(s, run, false))
    ensures NoneSpurious(run) && wake == Wake ==> NoneSpurious(longer)
  {
    hide Possible, After, TwoSteps, Emptied;
    var t := After(s, run, false);
    var t1, t2, t3 := TakingSteps(t, wake);
    longer := ThenTwo(s, run, wake, t1, ResetAvailable, t2, false);
    longer := ThenTwo(s, longer, WriterLock, t3, Take, Emptied(t), false);
  }

  /** It sends what it has taken and says so. */
  lemma Reported(s: State, run: seq<Action>) returns (longer: seq<Action>)
    requires Possible(s, run, false) && After(s, run, false).writer.Sending?
    ensures Possible(s, longer, false)
    ensures var t := After(s, run, false);
      After(s, longer, false) ==
      t.(writer := Sleeping, written := true, sent := t.sent + [t.writer.packet])
    ensures NoneSpurious(run) ==> NoneSpurious(longer)
  {
    var t := After(s, run, false);
    hide Possible, After;
    var t1 := t.(writer := Reporting(true), sent := t.sent + [t.writer.packet]);
    var t2 := t1.(writer := Sleeping, written := true);
    assert Step(t, Send(true), t1, false) && Step(t1, SetWritten, t2, false);
    hide Step;
    longer := Then(s, run, Send(true), t1, false);
    longer := Then(s, longer, SetWritten, t2, false);
  }

  /** What a sender finds when it looks at the slot: full, and it waits, or empty, and it fills it. */
  function Seen(t: State, packet: Packet): State
    requires |t.senders| > 0
  {
    if t.slot.Some? then At(t, 0, Waiting(packet)).(writeLock := Some(0))
    else At(t, 0, Filled).(writeLock := Some(0), outputLock := BySender(0), slot := Some(packet),
                           accepted := t.accepted + [packet])
  }

  lemma Looking(t: State, packet: Packet) returns (t1: State, t2: State)
    requires |t.senders| > 0 && t.senders[0].Idle? && t.writeLock.None? && t.outputLock.Free?
    ensures TwoSteps(t, Begin(0, packet), t1, Lock(0), t2, false) && Step(t2, Test(0), Seen(t, packet), false)
  {
    t1 := At(t, 0, Again(packet)).(writeLock := Some(0));
    t2 := At(t, 0, Holding(packet)).(writeLock := Some(0), outputLock := BySender(0));
    assert t1.senders[0 := Holding(packet)] == t2.senders;
    assert t2.senders[0 := Waiting(packet)] == t.senders[0 := Waiting(packet)];
    assert t2.senders[0 := Filled] == t.senders[0 := Filled];
  }

  lemma Looked(s: State, run: seq<Action>, packet: Packet) returns (longer: seq<Action>)
    requires Possible(s, run, false)
    requires var t := After(s, run, false);
      |t.senders| > 0 && t.senders[0].Idle? && t.writeLock.None? && t.outputLock.Free?
    ensures Possible(s, longer, false) && After(s, longer, false) == Seen(After(s, run, false), packet)
    ensures NoneSpurious(run) ==> NoneSpurious(longer)
  {
    hide Possible, After, TwoSteps, Step, Seen;
    var t := After(s, run, false);
    var t1, t2 := Looking(t, packet);
    longer := ThenTwo(s, run, Begin(0, packet), t1, Lock(0), t2, false);
    longer := Then(s, longer, Test(0), Seen(t, packet), false);
  }

  /** It lets go of the output lock and then of the write lock. */
  lemma Signalled(s: State, run: seq<Action>) returns (middle: seq<Action>, longer: seq<Action>)
    requires Possible(s, run, false)
    requires var t := After(s, run, false); |t.senders| > 0 && t.senders[0].Filled?
    ensures Possible(s, middle, false) && Possible(s, longer, false)
    ensures var t := After(s, run, false);
      && After(s, middle, false) == At(t, 0, Signalling).(written := false, outputLock := Free)
      && After(s, longer, false) ==
           At(t, 0, Idle).(written := false, outputLock := Free, writeLock := None, available := true)
    ensures NoneSpurious(run) ==> NoneSpurious(longer)
  {
    var t := After(s, run, false);
    hide Possible, After;
    var t1 := At(t, 0, Signalling).(written := false, outputLock := Free);
    var t2 := At(t, 0, Idle).(written := false, outputLock := Free, writeLock := None, available := true);
    assert Step(t, ResetWritten(0), t1, false) && Step(t1, SetAvailable(0), t2, false);
    hide Step;
    middle := Then(s, run, ResetWritten(0), t1, false);
    longer := Then(s, middle, SetAvailable(0), t2, false);
  }

  /** One packet goes from a sender into the slot. */
  lemma Queued(s: State, run: seq<Action>, packet: Packet) returns (longer: seq<Action>)
    requires Possible(s, run, false)
    requires var t := After(s, run, false);
      |t.senders| > 0 && t.senders[0].Idle? && t.writeLock.None? && t.outputLock.Free? && t.slot.None?
    ensures Possible(s, longer, false)
    ensures var t := After(s, run, false);
      After(s, longer, false) ==
      t.(slot := Some(packet), available := true, written := false, accepted := t.accepted + [packet])
    ensures NoneSpurious(run) ==> NoneSpurious(longer)
  {
    var t := After(s, run, false);
    hide Possible, After;
    longer := Looked(s, run, packet);
    var _, signalled := Signalled(s, longer);
    longer := signalled;
    assert t.senders[0 := Filled][0 := Idle] == t.senders;
  }

  lemma SpinSteps(t: State, packet: Packet) returns (t1: State, t2: State)
    requires |t.senders| > 0 && t.senders[0] == Waiting(packet) && t.written && t.slot.Some? && t.outputLock.Free?
    ensures TwoSteps(t, WaitReturns(0, true), t1, Lock(0), t2, false) && Step(t2, Test(0), t, false)
  {
    t1, t2 := At(t, 0, Again(packet)), At(t, 0, Holding(packet)).(outputLock := BySender(0));
    assert t2.senders[0 := Waiting(packet)] == t.senders;
  }

  lemma Spins(s: State, run: seq<Action>) returns (again: seq<Action>)
    requires Possible(s, run, false) && NoneSpurious(run)
    requires var t := After(s, run, false);
      |t.senders| > 0 && t.senders[0].Waiting? && t.written && t.slot.Some? && t.outputLock.Free?
    ensures again != [] && Possible(s, run + again, false) && NoneSpurious(run + again)
    ensures After(s, run + again, false) == After(s, run, false)
  {
    hide Possible, After, TwoSteps, Step;
    var t := After(s, run, false);
    var t1, t2 := SpinSteps(t, t.senders[0].packet);
    again := [WaitReturns(0, true), Lock(0), Test(0)];
    var longer := ThenTwo(s, run, WaitReturns(0, true), t1, Lock(0), t2, false);
    longer := Then(s, longer, Test(0), t, false);
    assert longer == run + again;
  }

  /**
   * On POSIX a waiting sender may spin: the event set for one packet can come after the reset for the next,
   * and then every wait returns at once although the slot is full.
   */
  lemma WaiterMaySpin(s: State, packet: Packet) returns (run: seq<Action>, again: seq<Action>)
    requires Initial(s) && |s.senders| > 0
    ensures Possible(s, run, false) && Active(After(s, run, false)).Waiting?
    ensures again != [] && Possible(s, run + again, false) && NoneSpurious(run + again)
    ensures After(s, run + again, false) == After(s, run, false)
  {
    Nothing(s, false);
    hide Possible, After;
    run := Queued(s, [], packet);
    run := Taken(s, run, Wake);
    run := Queued(s, run, packet);
    run := Reported(s, run);
    run := Looked(s, run, packet);
    again := Spins(s, run);
  }

  lemma LateSignal(t: State) returns (u: State)
    requires |t.senders| > 0 && t.senders[0].Signalling?
    ensures Step(t, SetAvailable(0), u, false)
    ensures u.available && u.writer == t.writer && u.outputLock == t.outputLock && u.slot == t.slot && u.sent == t.sent
  {
    u := At(t, 0, Idle).(writeLock := None, available := true);
  }

  /**
   * It takes one spurious wake: the write thread has already passed its event when the sender sets it, so it
   * sends the packet, wakes again, finds the slot empty and sends zeros.
   */
  lemma ZerosAfterSpuriousWake(s: State, packet: Packet) returns (run: seq<Action>)
    requires Initial(s) && |s.senders| > 0
    ensures Possible(s, run, false) && After(s, run, false).sent == [Some(packet), None]
  {
    Nothing(s, false);
    hide Possible, After, Step;
    var filled := Looked(s, [], packet);
    var middle, _ := Signalled(s, filled);
    run := Taken(s, middle, SpuriousWake);
    run := Reported(s, run);
    var u := LateSignal(After(s, run, false));
    run := Then(s, run, SetAvailable(0), u, false);
    run := Taken(s, run, Wake);
    run := Reported(s, run);
  }

  lemma Nothing(s: State, autoReset: bool)
    ensures Possible(s, [], autoReset) && After(s, [], autoReset) == s
  {
  }

  // ----- progress

  /** No timeout, no failure, nobody new. */
  predicate Orderly(a: Action) {
    match a
    case Begin(_, _) => false
    case NotAttached(_) => false
    case WaitTimesOut(_) => false
    case WaitReturns(_, byEvent) => byEvent
    case SpuriousWake => false
    case TimedOut => false
    case Quit => false
    case Send(ok) => ok
    case _ => true
  }

  predicate AllOrderly(run: seq<Action>) { forall i :: 0 <= i < |run| ==> Orderly(run[i]) }

  /** The steps the write thread has left before it sleeps. */
  function Left(w: Writer): nat {
    match w
    case Sleeping => 0
    case Woken => 5
    case Fetching => 4
    case Taking => 3
    case Sending(_) => 2
    case Reporting(_) => 1
    case Exited => 0
  }

  function WriterAction(w: Writer): Action {
    match w
    case Sleeping => Wake
    case Woken => ResetAvailable
    case Fetching => WriterLock
    case Taking => Take
    case Sending(_) => Send(true)
    case Reporting(_) => SetWritten
    case Exited => SetWritten
  }

  predicate Running(w: Writer) { !w.Exited? && (w.Reporting? ==> w.ok) }

  /** What the write thread leaves alone. */
  predicate SameSenders(s: State, t: State) {
    t.senders == s.senders && t.writeLock == s.writeLock && t.accepted == s.accepted
  }

  lemma WriterStep(s: State, autoReset: bool)
    requires Locks(s) && Active(s).Waiting? && Running(s.writer) && (s.writer.Sleeping? ==> s.available)
    ensures Enabled(s, WriterAction(s.writer), autoReset) && Orderly(WriterAction(s.writer))
    ensures var t := Do(s, WriterAction(s.writer), autoReset);
      && SameSenders(s, t) && Running(t.writer)
      && (s.writer.Sleeping? ==> t.writer.Woken? && t.slot == s.slot)
      && (!s.writer.Sleeping? ==> Left(t.writer) == Left(s.writer) - 1)
      && t.slot == (if s.writer.Taking? then None else s.slot)
  {
    assert s.writer.Fetching? ==> s.outputLock.Free?;
    hide Locks, Active;
    match s.writer
    case Sleeping =>
    case Woken =>
    case Fetching =>
    case Taking =>
    case Sending(_) =>
    case Reporting(_) =>
  }

  /** The write thread finishes what it is doing. */
  lemma {:induction false} Finishes(s: State, run: seq<Action>, autoReset: bool) returns (longer: seq<Action>)
    requires Possible(s, run, autoReset) && AllOrderly(run) && Inv(After(s, run, autoReset))
    requires Active(After(s, run, autoReset)).Waiting? && Running(After(s, run, autoReset).writer)
    ensures Possible(s, longer, autoReset) && AllOrderly(longer)
    ensures |longer| == |run| + Left(After(s, run, autoReset).writer)
    ensures var t, u := After(s, run, autoReset), After(s, longer, autoReset);
      && Inv(u) && SameSenders(t, u) && u.writer.Sleeping?
      && u.slot == (if Left(t.writer) >= 3 then None else t.slot)
    decreases Left(After(s, run, autoReset).writer)
  {
    hide Possible, After, Locks, InOrder, NoLostWakeup, WaiterReleased, Do, Enabled, Orderly, WriterAction;
    longer := run;
    var t := After(s, run, autoReset);
    if !t.writer.Sleeping? {
      WriterStep(t, autoReset);
      longer := Then(s, run, WriterAction(t.writer), Do(t, WriterAction(t.writer), autoReset), autoReset);
      OneStepInv(t, WriterAction(t.writer), autoReset);
      longer := Finishes(s, longer, autoReset);
    }
  }

  lemma OneStepInv(s: State, a: Action, autoReset: bool)
    requires Inv(s) && Enabled(s, a, autoReset)
    ensures Inv(Do(s, a, autoReset))
  {
    hide Locks, InOrder, NoLostWakeup, WaiterReleased, Do, Enabled;
    StepLocks(s, a, autoReset);
    StepInOrder(s, a, autoReset);
    StepWakeups(s, a, autoReset);
  }

  /** The write thread empties the slot for a waiting sender and says so. */
  lemma SlotFreed(s: State, autoReset: bool) returns (run: seq<Action>)
    requires Inv(s) && Active(s).Waiting? && Running(s.writer)
    ensures Possible(s, run, autoReset) && AllOrderly(run) && |run| <= 11
    ensures var t := After(s, run, autoReset);
      Inv(t) && SameSenders(s, t) && t.writer.Sleeping? && t.slot.None? && t.written
  {
    hide Possible, After, Locks, InOrder, Do, Enabled, Orderly, WriterAction;
    Nothing(s, autoReset);
    run := Finishes(s, [], autoReset);
    var t := After(s, run, autoReset);
    if t.slot.Some? {
      WriterStep(t, autoReset);
      OneStepInv(t, WriterAction(t.writer), autoReset);
      run := Then(s, run, WriterAction(t.writer), Do(t, WriterAction(t.writer), autoReset), autoReset);
      run := Finishes(s, run, autoReset);
    }
  }

  lemma LockFree(s: State)
    requires Locks(s) && Active(s).Waiting? && s.writer.Sleeping?
    ensures s.outputLock.Free? && s.writeLock.Some? && s.writeLock.value < |s.senders|
    ensures s.senders[s.writeLock.value] == Active(s)
  {
  }

  /** From every reachable state, as long as the write thread lives, a waiting sender gets its packet in. */
  lemma WaiterCompletes(s: State, autoReset: bool) returns (run: seq<Action>)
    requires Inv(s) && Active(s).Waiting? && Running(s.writer)
    ensures Possible(s, run, autoReset) && AllOrderly(run) && |run| <= 16
    ensures var t := After(s, run, autoReset);
      t.accepted == s.accepted + [Active(s).packet] && t.slot == Some(Active(s).packet) && t.available
  {
    hide Possible, After, Locks, InOrder, NoLostWakeup, WaiterReleased, Do, Enabled, Running;
    run := SlotFreed(s, autoReset);
    var t := After(s, run, autoReset);
    LockFree(t);
    run := Retried(s, run, s.writeLock.value, autoReset);
  }

  /** A waiting sender that finds the slot empty fills it. */
  lemma Filling(t: State, i: nat, p: Packet, autoReset: bool) returns (t1: State, t2: State, t3: State)
    requires i < |t.senders| && t.senders[i] == Waiting(p) && t.outputLock.Free? && t.slot.None? && t.written
    ensures TwoSteps(t, WaitReturns(i, true), t1, Lock(i), t2, autoReset) && Step(t2, Test(i), t3, autoReset)
    ensures |t3.senders| == |t.senders| && t3.senders[i].Filled?
    ensures t3.accepted == t.accepted + [p] && t3.slot == Some(p)
  {
    t1 := At(t, i, Again(p)).(written := !autoReset);
    t2 := At(t1, i, Holding(p)).(outputLock := BySender(i));
    t3 := At(t2, i, Filled).(slot := Some(p), accepted := t.accepted + [p]);
  }

  lemma Releasing(t: State, i: nat, autoReset: bool) returns (t1: State, t2: State)
    requires i < |t.senders| && t.senders[i].Filled?
    ensures TwoSteps(t, ResetWritten(i), t1, SetAvailable(i), t2, autoReset)
    ensures t2.accepted == t.accepted && t2.slot == t.slot && t2.available
  {
    t1 := At(t, i, Signalling).(written := false, outputLock := Free);
    t2 := At(t1, i, Idle).(writeLock := None, available := true);
  }

  lemma Retried(s: State, run: seq<Action>, i: nat, autoReset: bool) returns (longer: seq<Action>)
    requires Possible(s, run, autoReset) && AllOrderly(run)
    requires var t := After(s, run, autoReset);
      i < |t.senders| && t.senders[i].Waiting? && t.outputLock.Free? && t.slot.None? && t.written
    ensures Possible(s, longer, autoReset) && AllOrderly(longer) && |longer| == |run| + 5
    ensures var t, u := After(s, run, autoReset), After(s, longer, autoReset); var p := t.senders[i].packet;
      u.accepted == t.accepted + [p] && u.slot == Some(p) && u.available
  {
    var t := After(s, run, autoReset);
    hide Possible, After, TwoSteps, Step;
    var t1, t2, t3 := Filling(t, i, t.senders[i].packet, autoReset);
    var t4, t5 := Releasing(t3, i, autoReset);
    longer := ThenTwo(s, run, WaitReturns(i, true), t1, Lock(i), t2, autoReset);
    longer := Then(s, longer, Test(i), t3, autoReset);
    longer := ThenTwo(s, longer, ResetWritten(i), t4, SetAvailable(i), t5, autoReset);
  }
}
