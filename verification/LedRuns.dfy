/** Whole runs of the LED queue: it drains, the board ends up as asked, and every slot is a queue of depth one. */
module LedRuns {
  import opened Modulo
  import opened Rings
  import opened LedQueue

  // ----- draining

  function CountEligible(leds: seq<Led>): nat {
    if leds == [] then 0 else CountEligible(leds[..|leds| - 1]) + (if Eligible(leds[|leds| - 1]) then 1 else 0)
  }

  function One(b: bool): nat { if b then 1 else 0 }

  /** How many packets are still to go out: control, brightness by fours, and the two halves. */
  function Load(q: Queue): nat
    requires |q.leds| == LEDS
  {
    One(q.control) + (CountEligible(q.leds) + 3) / 4 + One(AnyChanged(q.leds[..32])) + One(AnyChanged(q.leds[32..]))
  }

  lemma {:induction false} EligibleBound(leds: seq<Led>)
    ensures CountEligible(leds) <= |leds|
  {
    if leds != [] { EligibleBound(leds[..|leds| - 1]); }
  }

  lemma {:induction false} EligibleMonotone(a: seq<Led>, b: seq<Led>)
    requires |a| == |b| && forall i :: 0 <= i < |a| ==> Eligible(a[i]) ==> Eligible(b[i])
    ensures CountEligible(a) <= CountEligible(b)
  {
    if a != [] { EligibleMonotone(a[..|a| - 1], b[..|b| - 1]); }
  }

  lemma {:induction false} EligibleSome(leds: seq<Led>, i: nat)
    requires i < |leds| && Eligible(leds[i])
    ensures CountEligible(leds) > 0
  {
    if i < |leds| - 1 { EligibleSome(leds[..|leds| - 1], i); }
  }

  /** A brightness packet carries four eligible LEDs, or all of them. */
  lemma {:induction false} BrightnessTakes(leds: seq<Led>, n: nat)
    requires Good(leds) && n <= LEDS
    ensures |Settings(leds, n)| == (if CountEligible(leds[..n]) < 4 then CountEligible(leds[..n]) else 4)
    ensures CountEligible(Brightened(leds)[..n]) == CountEligible(leds[..n]) - |Settings(leds, n)|
  {
    if n > 0 {
      BrightnessTakes(leds, n - 1);
      assert leds[..n][..n - 1] == leds[..n - 1];
      assert Brightened(leds)[..n][..n - 1] == Brightened(leds)[..n - 1];
    }
  }

  lemma ChangedSubset(a: seq<Led>, b: seq<Led>)
    requires |a| == |b| && forall i :: 0 <= i < |a| ==> a[i].changed ==> b[i].changed
    ensures One(AnyChanged(a)) <= One(AnyChanged(b))
  {
  }

  lemma BrightnessDrains(q: Queue)
    requires Valid(q) && !q.control && AnyNeedsBrightness(q.leds)
    ensures Load(Get(q).0) < Load(q)
  {
    hide Settings, Fill, Chosen, CountEligible, AnyChanged;
    var i :| 0 <= i < LEDS && NeedsBrightness(q.leds[i]);
    EligibleSome(q.leds, i);
    BrightnessTakes(q.leds, LEDS);
    var t := Brightened(q.leds);
    assert q.leds[..LEDS] == q.leds && t[..LEDS] == t;
    ChangedSubset(t[..32], q.leds[..32]);
    ChangedSubset(t[32..], q.leds[32..]);
  }

  lemma SwitchedHalf(leds: seq<Led>, upper: bool)
    requires Good(leds)
    ensures var t := Switched(leds, Half(upper));
      && !AnyChanged(if upper then t[32..] else t[..32])
      && (if upper then t[..32] == leds[..32] else t[32..] == leds[32..])
  {
  }

  lemma ChangedSomewhere(leds: seq<Led>)
    requires Good(leds) && AnyChanged(leds)
    ensures AnyChanged(leds[..32]) || AnyChanged(leds[32..])
  {
    var i :| 0 <= i < LEDS && leds[i].changed;
    if i < 32 { assert leds[..32][i].changed; } else { assert leds[32..][i - 32].changed; }
  }

  lemma OutputDrains(q: Queue)
    requires Valid(q) && !q.control && !AnyNeedsBrightness(q.leds) && AnyChanged(q.leds)
    ensures Load(Get(q).0) < Load(q)
  {
    hide CountEligible, AnyChanged, AnyNeedsBrightness, OnBits;
    var upper := UpperTurn(q);
    ChangedSomewhere(q.leds);
    SwitchedHalf(q.leds, upper);
    EligibleMonotone(Switched(q.leds, Half(upper)), q.leds);
  }

  lemma Loaded(q: Queue)
    requires Valid(q)
    ensures Load(q) <= 19
    ensures Load(q) > 0 <==> q.control || AnyChanged(q.leds)
  {
    hide AnyChanged;
    EligibleBound(q.leds);
    if AnyChanged(q.leds) {
      ChangedSomewhere(q.leds);
    } else {
      NothingEligible(q.leds);
    }
  }

  lemma {:induction false} NothingEligible(leds: seq<Led>)
    requires !AnyChanged(leds)
    ensures CountEligible(leds) == 0
    ensures forall k :: 0 <= k <= |leds| ==> !AnyChanged(leds[..k]) && !AnyChanged(leds[k..])
  {
    if leds != [] {
      assert !leds[|leds| - 1].changed;
      NothingEligible(leds[..|leds| - 1]);
    }
  }

  /** Every packet leaves less to send. */
  lemma GetDrains(q: Queue)
    requires Valid(q) && Load(q) > 0
    ensures Load(Get(q).0) < Load(q)
  {
    hide CountEligible, AnyChanged, AnyNeedsBrightness;
    if !q.control {
      Loaded(q);
      if AnyNeedsBrightness(q.leds) { BrightnessDrains(q); } else { OutputDrains(q); }
    }
  }

  /** changeRequests counts the changed flags, so it is zero just when no LED has one. */
  lemma {:induction false} RequestsCount(leds: seq<Led>)
    ensures CountChanged(leds) == 0 <==> !AnyChanged(leds)
  {
    if leds != [] {
      var n := |leds| - 1;
      RequestsCount(leds[..n]);
      if AnyChanged(leds) {
        var i :| 0 <= i <= n && leds[i].changed;
        if i < n { assert leds[..n][i].changed; }
      } else {
        assert !leds[n].changed;
      }
    }
  }

  // ----- runs

  /** A sender's request, a change of the current limit or voltage, getPacket, or the packet reaching the board. */
  datatype Event = Request(i: nat, v: real) | Adjust(limit: nat, voltage: nat) | Fetch | Deliver

  /** The queue, the board, the packet between them, and for every LED the levels accepted and taken out. */
  datatype System = System(q: Queue, board: seq<Lamp>, inFlight: Option<Packet>,
    initial: seq<Power>, accepted: seq<seq<Power>>, taken: seq<seq<Power>>)

  predicate Can(s: System, e: Event) {
    match e
    case Request(i, v) => i < LEDS && 0.0 <= v <= 100.0
    case Adjust(limit, voltage) => 1 <= limit <= 4 && 1 <= voltage <= 4
    case Fetch => s.inFlight.None?
    case Deliver => s.inFlight.Some?
  }

  /** The new level of an LED whose pending value has been taken out. */
  function TakenNow(before: Led, after: Led): seq<Power> {
    if before.changed && !after.changed then [after.power] else []
  }

  predicate Shape(s: System) {
    && Valid(s.q) && Board(s.board) && |s.initial| == |s.accepted| == |s.taken| == LEDS
    && (s.inFlight.Some? ==> WellFormed(s.inFlight.value))
  }

  function Step(s: System, e: Event): (t: System)
    requires Shape(s) && Can(s, e)
  {
    match e
    case Request(i, v) =>
      var (q, ok) := Ask(s.q, i, v);
      s.(q := q, accepted := if ok then s.accepted[i := s.accepted[i] + [Level(v)]] else s.accepted)
    case Adjust(limit, voltage) => s.(q := s.q.(control := true, limit := limit, voltage := voltage))
    case Fetch =>
      var (q, p) := Get(s.q);
      s.(q := q, inFlight := Some(p),
         taken := seq(LEDS, i requires 0 <= i < LEDS => s.taken[i] + TakenNow(s.q.leds[i], q.leds[i])))
    case Deliver => s.(board := Receive(s.board, s.inFlight.value), inFlight := None)
  }

  lemma StepShape(s: System, e: Event)
    requires Shape(s) && Can(s, e) && Settled(s)
    ensures Shape(Step(s, e)) && Settled(Step(s, e))
  {
    hide AllAgree, Ask, Get, Receive;
    match e
    case Request(i, v) =>
      AskValid(s.q, i, v);
      AskAgrees(s.q, Landed(s), i, v);
    case Adjust(_, _) =>
    case Fetch =>
      GetValid(s.q);
      GetAgrees(s.q, s.board);
    case Deliver =>
  }

  /** The board once the packet in flight has landed. */
  function Landed(s: System): (b: seq<Lamp>)
    requires Shape(s)
    ensures Board(b)
  {
    if s.inFlight.Some? then Receive(s.board, s.inFlight.value) else s.board
  }

  predicate Settled(s: System)
    requires Shape(s)
  {
    AllAgree(s.q.leds, Landed(s))
  }

  lemma AskAgrees(q: Queue, b: seq<Lamp>, i: nat, v: real)
    requires Valid(q) && i < LEDS && 0.0 <= v <= 100.0 && AllAgree(q.leds, b)
    ensures AllAgree(Ask(q, i, v).0.leds, b)
  {
    hide Code;
    AskValid(q, i, v);
    var t := Ask(q, i, v).0.leds;
    forall j | 0 <= j < LEDS ensures Agrees(t[j], b[j]) {
      assert Agrees(q.leds[j], b[j]);
    }
  }

  // ----- the queue of depth one

  function Last(initial: Power, s: seq<Power>): Power { if s == [] then initial else s[|s| - 1] }

  /** The levels without those that repeat the one before. */
  function Distinct(initial: Power, s: seq<Power>): seq<Power> {
    if s == [] then []
    else
      var before, p := Distinct(initial, s[..|s| - 1]), s[|s| - 1];
      if p == Last(initial, before) then before else before + [p]
  }

  lemma {:induction false} LastDistinct(initial: Power, s: seq<Power>)
    ensures Last(initial, Distinct(initial, s)) == Last(initial, s)
  {
    if s != [] { LastDistinct(initial, s[..|s| - 1]); }
  }

  lemma DistinctSnoc(initial: Power, s: seq<Power>, p: Power)
    ensures Distinct(initial, s + [p]) ==
      if p == Last(initial, Distinct(initial, s)) then Distinct(initial, s) else Distinct(initial, s) + [p]
  {
    assert (s + [p])[..|s + [p]| - 1] == s;
  }

  function Pending(l: Led): seq<Power> { if l.changed then [l.next] else [] }

  /** What has been taken out and what is pending are the accepted levels, without repeats. */
  predicate InOrder(l: Led, initial: Power, accepted: seq<Power>, taken: seq<Power>) {
    taken + Pending(l) == Distinct(initial, accepted) && l.power == Last(initial, taken)
  }

  predicate AllInOrder(s: System)
    requires Shape(s)
  {
    forall i :: 0 <= i < LEDS ==> InOrder(s.q.leds[i], s.initial[i], s.accepted[i], s.taken[i])
  }

  lemma AskInOrder(q: Queue, i: nat, v: real, initial: Power, accepted: seq<Power>, taken: seq<Power>)
    requires Valid(q) && i < LEDS && 0.0 <= v <= 100.0 && InOrder(q.leds[i], initial, accepted, taken)
    ensures var (t, ok) := Ask(q, i, v);
      |t.leds| == LEDS && InOrder(t.leds[i], initial, if ok then accepted + [Level(v)] else accepted, taken)
  {
    assert |q.leds| == LEDS;
    hide Distinct, Good, CountChanged;
    DistinctSnoc(initial, accepted, Level(v));
    assert taken + [] == taken;
    var l := q.leds[i];
    assert l.changed ==> Last(initial, taken + [l.next]) == l.next;
  }

  /** getPacket either leaves an LED alone or takes out its pending level. */
  lemma GetTakes(q: Queue, i: nat)
    requires Valid(q) && i < LEDS
    ensures var (l, m) := (q.leds[i], Get(q).0.leds[i]);
      (m == l) || (l.changed && !m.changed && m.power == l.next)
  {
    hide Settings, Fill, AnyNeedsBrightness, UpperTurn, CountChanged;
  }

  lemma TakeInOrder(l: Led, m: Led, initial: Power, accepted: seq<Power>, taken: seq<Power>)
    requires InOrder(l, initial, accepted, taken)
    requires m == l || (l.changed && !m.changed && m.power == l.next)
    ensures InOrder(m, initial, accepted, taken + TakenNow(l, m))
  {
    assert taken + [] == taken;
    assert taken + TakenNow(l, m) + [] == taken + TakenNow(l, m);
  }

  lemma StepInOrder(s: System, e: Event)
    requires Shape(s) && Can(s, e) && AllInOrder(s) && Shape(Step(s, e))
    ensures AllInOrder(Step(s, e))
  {
    hide Shape, InOrder, Get, Receive, TakenNow;
    var t := Step(s, e);
    ShapeValid(s);
    ShapeValid(t);
    forall i | 0 <= i < LEDS ensures InOrder(t.q.leds[i], t.initial[i], t.accepted[i], t.taken[i]) {
      assert InOrder(s.q.leds[i], s.initial[i], s.accepted[i], s.taken[i]);
      match e
      case Request(j, v) =>
        if i == j { AskInOrder(s.q, i, v, s.initial[i], s.accepted[i], s.taken[i]); }
      case Adjust(_, _) =>
      case Fetch =>
        GetTakes(s.q, i);
        TakeInOrder(s.q.leds[i], t.q.leds[i], s.initial[i], s.accepted[i], s.taken[i]);
      case Deliver =>
    }
  }

  lemma ShapeValid(s: System)
    requires Shape(s)
    ensures Valid(s.q) && |s.q.leds| == |s.initial| == |s.accepted| == |s.taken| == LEDS
  {
  }

  // ----- from attachment on

  /** The level a register stands for, as the device echoes it. */
  function Echo(reg: nat): Power { Level(reg as real / 127.0 * 100.0) }

  lemma EchoOfRegister(reg: nat)
    requires reg <= 127
    ensures InRange(Echo(reg)) && Code(Echo(reg).v) == reg
    ensures Echo(reg).v > 0.0 <==> reg > 0
  {
  }

  /** Which LEDs' levels a report brings; the first also brings the on bits of all. */
  predicate LevelRead(i: nat, first: bool, second: bool) { if i < 24 then first else second }

  /**
   * After attachment: the library believes what the two reports that arrived in time said. A level that was not
   * read is Unknown; an LED whose on bit was not read, or is clear, is believed to be off.
   */
  predicate Attached(s: System, first: bool, second: bool) {
    && Shape(s) && s.inFlight.None? && s.q.requests == 0 && !s.q.control && s.q.lastOutput == 0
    && forall i :: 0 <= i < LEDS ==>
      && s.board[i].reg <= 127 && s.initial[i] == s.q.leds[i].power && s.accepted[i] == s.taken[i] == []
      && !s.q.leds[i].changed
      && s.q.leds[i].last == (if LevelRead(i, first, second) then Echo(s.board[i].reg) else Unknown)
      && s.q.leds[i].power == (if first && s.board[i].on then s.q.leds[i].last else OFF)
  }

  /** What the library believes is what the board shows just when the on bits were read or no LED is lit. */
  lemma AttachedAgreesIff(s: System, first: bool, second: bool)
    requires Attached(s, first, second)
    ensures AllInOrder(s)
    ensures Settled(s) <==> first || forall i :: 0 <= i < LEDS ==> Shown(s.board[i]) == 0
  {
    hide Code, Shape;
    ShapeValid(s);
    CodeOfZero();
    assert Landed(s) == s.board;
    assert Good(s.q.leds) && Board(s.board) by { BoardShape(s); }
    forall i | 0 <= i < LEDS
      ensures Agrees(s.q.leds[i], s.board[i]) <==> first || Shown(s.board[i]) == 0
      ensures InOrder(s.q.leds[i], s.initial[i], s.accepted[i], s.taken[i])
    {
      EchoOfRegister(s.board[i].reg);
      assert [] + Pending(s.q.leds[i]) == Distinct(s.initial[i], []);
    }
  }

  /** Without the on bits a request to turn a lit LED off is taken for done: nothing is queued, it stays lit. */
  lemma LitLedStaysOn(s: System, second: bool, i: nat)
    requires Attached(s, false, second) && i < LEDS && Shown(s.board[i]) > 0
    ensures var t := Step(s, Request(i, 0.0));
      t == s.(accepted := s.accepted[i := [Level(0.0)]]) && Load(t.q) == 0 && Shown(t.board[i]) > 0
  {
    hide Load, Shape;
    ShapeValid(s);
    Loaded(s.q);
    assert s.q.leds[i].power == Level(0.0) && !s.q.leds[i].changed;
    assert [] + [Level(0.0)] == [Level(0.0)];
    assert Ask(s.q, i, 0.0) == (s.q, true);
  }

  lemma BoardShape(s: System)
    requires Shape(s)
    ensures Good(s.q.leds) && Board(s.board)
  {
  }

  /** What holds in every reachable state. */
  predicate Inv(s: System) { Shape(s) && Settled(s) && AllInOrder(s) }

  lemma StepInv(s: System, e: Event)
    requires Inv(s) && Can(s, e)
    ensures Inv(Step(s, e))
  {
    hide Shape, Settled, AllInOrder, Step;
    StepShape(s, e);
    StepInOrder(s, e);
  }

  predicate Possible(s: System, events: seq<Event>)
    requires Shape(s)
    decreases |events|
  {
    events == [] || (Can(s, events[0]) && Shape(Step(s, events[0])) && Possible(Step(s, events[0]), events[1..]))
  }

  function After(s: System, events: seq<Event>): (t: System)
    requires Shape(s) && Possible(s, events)
    ensures Shape(t)
    decreases |events|
  {
    if events == [] then s else After(Step(s, events[0]), events[1..])
  }

  /**
   * Whatever the interleaving of requests with the write thread: for every LED the levels taken out and the
   * pending one are the accepted requests in order without repeats, and once the packet in flight has landed
   * the board shows the last level taken out.
   */
  lemma {:induction false} EveryInterleaving(s: System, events: seq<Event>, i: nat)
    requires Inv(s) && Possible(s, events) && i < LEDS
    ensures var t := After(s, events); var believed := Last(t.initial[i], t.taken[i]);
      && Inv(t)
      && t.taken[i] + Pending(t.q.leds[i]) == Distinct(t.initial[i], t.accepted[i])
      && (believed.Level? ==> InRange(believed) && Shown(Landed(t)[i]) == Code(believed.v))
    decreases |events|
  {
    hide Shape, Settled, AllInOrder, Step, Code, Can;
    if events != [] {
      StepInv(s, events[0]);
      EveryInterleaving(Step(s, events[0]), events[1..], i);
    } else {
      InvAt(s, i);
    }
  }

  lemma InvAt(s: System, i: nat)
    requires Inv(s) && i < LEDS
    ensures InOrder(s.q.leds[i], s.initial[i], s.accepted[i], s.taken[i])
    ensures GoodLed(s.q.leds[i]) && Agrees(s.q.leds[i], Landed(s)[i])
  {
    hide InOrder, Agrees;
  }

  // ----- and in the end

  /** Let the packet in flight land, then send n more. */
  function Flush(s: System, n: nat): (t: System)
    requires Inv(s)
    ensures Inv(t)
    decreases n, One(s.inFlight.Some?)
  {
    if s.inFlight.Some? then StepInv(s, Deliver); Flush(Step(s, Deliver), n)
    else if n == 0 then s
    else
      StepInv(s, Fetch);
      Flush(Step(s, Fetch), n - 1)
  }

  lemma FetchDrains(s: System)
    requires Inv(s) && s.inFlight.None?
    ensures var t := Step(s, Fetch);
      (Load(s.q) > 0 ==> Load(t.q) < Load(s.q)) && (Load(s.q) == 0 ==> Load(t.q) == 0)
  {
    hide Load, Get;
    InvValid(s);
    if Load(s.q) > 0 { GetDrains(s.q); } else { GetIdle(s.q); }
  }

  lemma StepKeeps(s: System, e: Event)
    requires Shape(s) && Can(s, e) && (e.Fetch? || e.Deliver?)
    ensures var t := Step(s, e);
      t.initial == s.initial && t.accepted == s.accepted && (e.Deliver? ==> t.q == s.q) && t.inFlight.Some? == e.Fetch?
  {
    hide Get, Receive, TakenNow;
  }

  lemma FlushLands(s: System, n: nat)
    requires Inv(s) && s.inFlight.Some?
    ensures Inv(Step(s, Deliver)) && Flush(s, n) == Flush(Step(s, Deliver), n)
  {
    hide Inv, Step, Shape, Can;
    assert Can(s, Deliver) by { CanNext(s); }
    StepInv(s, Deliver);
  }

  lemma FlushFetches(s: System, n: nat)
    requires Inv(s) && s.inFlight.None? && n > 0
    ensures Inv(Step(s, Fetch)) && Flush(s, n) == Flush(Step(s, Fetch), n - 1)
  {
    hide Inv, Step, Shape, Can;
    assert Can(s, Fetch) by { CanNext(s); }
    StepInv(s, Fetch);
  }

  lemma CanNext(s: System)
    ensures Can(s, if s.inFlight.Some? then Deliver else Fetch)
  {
  }

  lemma FlushEnds(s: System)
    requires Inv(s) && s.inFlight.None?
    ensures Flush(s, 0) == s
  {
    hide Inv;
  }

  lemma SizeOf(s: System)
    requires Inv(s)
    ensures |s.q.leds| == LEDS && Shape(s)
  {
  }

  lemma {:induction false} FlushEmpties(s: System, n: nat)
    requires Inv(s) && |s.q.leds| == LEDS && Load(s.q) <= n
    ensures var t := Flush(s, n);
      |t.q.leds| == LEDS && Load(t.q) == 0 && t.inFlight.None? && t.initial == s.initial && t.accepted == s.accepted
    decreases n, One(s.inFlight.Some?)
  {
    hide Load, Inv, Step, Shape, Flush, Can;
    SizeOf(s);
    CanNext(s);
    if s.inFlight.Some? {
      FlushLands(s, n);
      StepKeeps(s, Deliver);
      FlushEmpties(Step(s, Deliver), n);
    } else if n > 0 {
      FlushFetches(s, n);
      SizeOf(Step(s, Fetch));
      StepKeeps(s, Fetch);
      FetchDrains(s);
      FlushEmpties(Step(s, Fetch), n - 1);
    } else {
      FlushEnds(s);
    }
  }

  lemma InvValid(s: System)
    requires Inv(s)
    ensures Shape(s) && Valid(s.q) && |s.q.leds| == LEDS
  {
  }

  /** With nothing to send, getPacket repeats what the board shows. */
  lemma GetIdle(q: Queue)
    requires Valid(q) && Load(q) == 0
    ensures Load(Get(q).0) == 0
  {
    hide AnyChanged, CountEligible;
    Loaded(q);
    NothingNeeded(q.leds);
    var t := Switched(q.leds, Half(UpperTurn(q)));
    assert t == q.leds by { Unswitched(q.leds, Half(UpperTurn(q))); }
  }

  lemma NothingNeeded(leds: seq<Led>)
    requires !AnyChanged(leds)
    ensures !AnyNeedsBrightness(leds)
  {
  }

  lemma Unswitched(leds: seq<Led>, lo: nat)
    requires Good(leds) && lo <= 32 && !AnyChanged(leds)
    ensures Switched(leds, lo) == leds
  {
  }

  /** When the senders pause, at most nineteen packets later every LED shows the last level asked of it. */
  lemma BoardShowsLastRequest(s: System, i: nat)
    requires Inv(s) && i < LEDS
    ensures var t := Flush(s, 19); var wanted := Last(s.initial[i], s.accepted[i]);
      && t.inFlight.None?
      && (wanted.Level? ==>
            && InRange(wanted) && Shown(t.board[i]) == Code(wanted.v)
            && Nearest(Shown(t.board[i]), wanted.v * 127.0 / 100.0))
  {
    hide Load, Flush, Code, Shape, Settled, AllInOrder;
    InvValid(s);
    Loaded(s.q);
    FlushEmpties(s, 19);
    var t := Flush(s, 19);
    InvValid(t);
    Loaded(t.q);
    InvAt(t, i);
    NotChanged(t.q.leds, i);
    LastDistinct(s.initial[i], s.accepted[i]);
    assert t.taken[i] + [] == t.taken[i];
    var wanted := Last(s.initial[i], s.accepted[i]);
    if wanted.Level? { CodeNearest(wanted.v); }
  }

  lemma NotChanged(leds: seq<Led>, i: nat)
    requires i < |leds| && !AnyChanged(leds)
    ensures !leds[i].changed
  {
  }
}
