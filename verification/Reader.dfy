/** The RFID reader object: ring buffers, pointers and flags updated in place, packet by packet. */
module Reader {
  import opened Rings
  import opened LineCode
  import opened Receiver
  import Em4100
  import Em4100Encode
  import FdxB
  import PhidgetTag

  class RfidReader {
    const dataBuffer: array<Pulse>
    var dataReadPtr: nat
    var dataWritePtr: nat

    var shortClocks: nat
    var longClocks: nat

    const manBuffer: array<bool>
    var manReadPtr: nat
    var manWritePtr: nat
    var manLockedIn: bool
    var manShortChange: bool

    const biphaseBuffer: array<bool>
    var biphaseReadPtr: nat
    var biphaseWritePtr: nat
    var biphaseLockedIn: bool
    var biphaseShortChange: bool

    /** The reports handed to tagEvent, oldest first. */
    var reports: seq<Report>

    ghost predicate Valid()
      reads this
    {
      && dataBuffer.Length == manBuffer.Length == biphaseBuffer.Length == SIZE
      && manBuffer != biphaseBuffer && dataBuffer as object != manBuffer && dataBuffer as object != biphaseBuffer
      && dataReadPtr < SIZE && dataWritePtr < SIZE
      && manReadPtr < SIZE && manWritePtr < SIZE
      && biphaseReadPtr < SIZE && biphaseWritePtr < SIZE
    }

    ghost function Data(): (r: Ring<Pulse>)
      reads this, dataBuffer
      requires Valid()
      ensures r.Valid()
    {
      Ring(dataBuffer[..], dataReadPtr, dataWritePtr)
    }

    ghost function Man(): (l: Line)
      reads this, manBuffer
      requires Valid()
      ensures l.Valid()
    {
      Line(Ring(manBuffer[..], manReadPtr, manWritePtr), manLockedIn, manShortChange)
    }

    ghost function Biphase(): (l: Line)
      reads this, biphaseBuffer
      requires Valid()
      ensures l.Valid()
    {
      Line(Ring(biphaseBuffer[..], biphaseReadPtr, biphaseWritePtr), biphaseLockedIn, biphaseShortChange)
    }

    ghost function State(): (s: Rx)
      reads this, dataBuffer, manBuffer, biphaseBuffer
      requires Valid()
      ensures s.Valid() && |s.pulses| < SIZE
    {
      Rx(Data().Queue(), shortClocks, longClocks, Man(), Biphase())
    }

    /** The state set up after the device is opened. */
    constructor ()
      ensures Valid() && fresh(dataBuffer) && fresh(manBuffer) && fresh(biphaseBuffer)
      ensures State() == Rx([], 0, 0, Man(), Biphase()) && reports == []
      ensures Man() == ResetLine(Man()) && Biphase() == ResetLine(Biphase())
    {
      dataBuffer := new Pulse[SIZE](_ => Space);
      manBuffer, biphaseBuffer := new bool[SIZE](_ => false), new bool[SIZE](_ => false);
      dataReadPtr, dataWritePtr, shortClocks, longClocks := 0, 0, 0, 0;
      manReadPtr, manWritePtr, manLockedIn, manShortChange := 0, 0, false, false;
      biphaseReadPtr, biphaseWritePtr, biphaseLockedIn, biphaseShortChange := 0, 0, false, false;
      reports := [];
    }

    /** resetValuesFromSpace */
    method ResetValuesFromSpace()
      requires Valid()
      modifies this`shortClocks, this`longClocks,
               this`manReadPtr, this`manWritePtr, this`manLockedIn, this`manShortChange,
               this`biphaseReadPtr, this`biphaseWritePtr, this`biphaseLockedIn, this`biphaseShortChange
      ensures Valid() && shortClocks == longClocks == 0
      ensures Man() == ResetLine(old(Man())) && Biphase() == ResetLine(old(Biphase()))
    {
      shortClocks, longClocks := 0, 0;
      ResetManchester();
      ResetBiphase();
    }

    method ResetManchester()
      requires Valid()
      modifies this`manReadPtr, this`manWritePtr, this`manLockedIn, this`manShortChange
      ensures Valid() && Man() == ResetLine(old(Man()))
    {
      manLockedIn, manReadPtr, manWritePtr := false, 0, 0;
      manShortChange := false;
    }

    method ResetBiphase()
      requires Valid()
      modifies this`biphaseReadPtr, this`biphaseWritePtr, this`biphaseLockedIn, this`biphaseShortChange
      ensures Valid() && Biphase() == ResetLine(old(Biphase()))
    {
      biphaseReadPtr, biphaseWritePtr := 0, 0;
      biphaseShortChange, biphaseLockedIn := false, false;
    }

    method PushMan(bit: bool)
      requires Valid()
      modifies this`manReadPtr, this`manWritePtr, manBuffer
      ensures Valid() && Man() == old(Man()).(ring := old(Man()).ring.Push(bit))
    {
      manBuffer[manWritePtr] := bit;
      manWritePtr := Slot(manWritePtr, 1);
      if manWritePtr == manReadPtr { manReadPtr := Slot(manReadPtr, 1); }
    }

    method PushBiphase(bit: bool)
      requires Valid()
      modifies this`biphaseReadPtr, this`biphaseWritePtr, biphaseBuffer
      ensures Valid() && Biphase() == old(Biphase()).(ring := old(Biphase()).ring.Push(bit))
    {
      biphaseBuffer[biphaseWritePtr] := bit;
      biphaseWritePtr := Slot(biphaseWritePtr, 1);
      if biphaseWritePtr == biphaseReadPtr { biphaseReadPtr := Slot(biphaseReadPtr, 1); }
    }

    /** The unread pulses before slot readToPtr. */
    ghost function Upto(readToPtr: nat): (ps: seq<Pulse>)
      reads this, dataBuffer
      requires Valid() && readToPtr < SIZE
    {
      Ring(dataBuffer[..], dataReadPtr, readToPtr).Queue()
    }

    method ManPulse(p: Pulse)
      requires Valid() && p.Pulse?
      modifies this`manReadPtr, this`manWritePtr, this`manLockedIn, this`manShortChange, manBuffer
      ensures Valid() && Man() == ManStep(old(Man()), longClocks, p)
    {
      if p.clocks == longClocks {
        // half a bit is left over, so the bits so far were cut in the wrong phase: drop them
        if manShortChange { manReadPtr := manWritePtr; }
        PushMan(p.high);
        manLockedIn, manShortChange := true, false;
      } else if !manLockedIn {
        if p.high { manShortChange, manLockedIn := true, true; }
      } else if manShortChange {
        PushMan(p.high);
        manShortChange := false;
      } else {
        manShortChange := true;
      }
    }

    /** add_manchester_data */
    method AddManchesterData(readToPtr: nat)
      requires Valid() && readToPtr < SIZE && Pulses(Upto(readToPtr))
      modifies this`manReadPtr, this`manWritePtr, this`manLockedIn, this`manShortChange, manBuffer
      ensures Valid() && Man() == ManAll(old(Man()), longClocks, old(Upto(readToPtr)))
    {
      hide ManStep, ManAll;
      ghost var ps, l := Upto(readToPtr), Man();
      ManNone(l, longClocks);
      ghost var n := 0;
      var myReadPtr := dataReadPtr;
      assert ps[..0] == [];
      while myReadPtr != readToPtr
        invariant Valid() && 0 <= n <= |ps| && myReadPtr == Slot(dataReadPtr, n)
        invariant myReadPtr == readToPtr <==> n == |ps|
        invariant Man() == ManAll(l, longClocks, ps[..n])
        decreases |ps| - n
      {
        assert dataBuffer[myReadPtr] == ps[n];
        ManSnoc(l, longClocks, ps, n);
        ManPulse(dataBuffer[myReadPtr]);
        myReadPtr := Slot(myReadPtr, 1);
        n := n + 1;
      }
      assert ps[..n] == ps;
    }

    method BiphasePulse(p: Pulse) returns (ok: bool)
      requires Valid() && p.Pulse?
      modifies this`biphaseReadPtr, this`biphaseWritePtr, this`biphaseLockedIn, this`biphaseShortChange, biphaseBuffer
      ensures Valid() && ok == (p.clocks == longClocks || p.clocks == shortClocks)
      ensures Biphase() == if ok then BipStep(old(Biphase()), longClocks, p) else BipGiveUp(old(Biphase()))
    {
      ok := true;
      if p.clocks == longClocks {
        PushBiphase(true);
        biphaseLockedIn, biphaseShortChange := true, false;
      } else if p.clocks == shortClocks {
        if biphaseLockedIn && biphaseShortChange {
          PushBiphase(false);
          biphaseShortChange := false;
        } else {
          biphaseShortChange := true;
        }
      } else {
        biphaseLockedIn := false;
        biphaseReadPtr := biphaseWritePtr;
        ok := false;
      }
    }

    /** add_biphase_data; false stands for EPHIDGET_NOTFOUND */
    method AddBiphaseData(readToPtr: nat) returns (ok: bool)
      requires Valid() && readToPtr < SIZE && Pulses(Upto(readToPtr))
      modifies this`biphaseReadPtr, this`biphaseWritePtr, this`biphaseLockedIn, this`biphaseShortChange, biphaseBuffer
      ensures Valid() && (Biphase(), ok) == BipAll(old(Biphase()), shortClocks, longClocks, old(Upto(readToPtr)))
    {
      hide BipStep, BipGiveUp;
      ghost var ps, l := Upto(readToPtr), Biphase();
      assert BipAll(l, shortClocks, longClocks, []) == (l, true);
      hide BipAll;
      ghost var n := 0;
      var myReadPtr := dataReadPtr;
      assert ps[..0] == [];
      while myReadPtr != readToPtr
        invariant Valid() && 0 <= n <= |ps| && myReadPtr == Slot(dataReadPtr, n)
        invariant myReadPtr == readToPtr <==> n == |ps|
        invariant (Biphase(), true) == BipAll(l, shortClocks, longClocks, ps[..n])
        decreases |ps| - n
      {
        assert dataBuffer[myReadPtr] == ps[n];
        BipSnoc(l, shortClocks, longClocks, ps, n);
        ok := BiphasePulse(dataBuffer[myReadPtr]);
        if !ok {
          BipStops(l, shortClocks, longClocks, ps, n + 1);
          return false;
        }
        myReadPtr := Slot(myReadPtr, 1);
        n := n + 1;
      }
      assert ps[..n] == ps;
      return true;
    }

    /** A pulse's length is one of the two known, or becomes one of them, or does not fit. */
    method FitPulse(clocks: nat) returns (fits: bool)
      requires Valid()
      modifies this`shortClocks, this`longClocks
      ensures Valid() && (shortClocks, longClocks, fits) == Fit(old(shortClocks), old(longClocks), clocks)
    {
      if shortClocks == 0 {
        shortClocks := clocks;
      } else if clocks != shortClocks {
        if longClocks == 0 {
          if shortClocks * 2 == clocks || shortClocks / 2 == clocks {
            longClocks := clocks;
          } else {
            return false;
          }
        } else if clocks != longClocks {
          return false;
        }
      }
      return true;
    }

    /** Read on for pulses that fit two clock lengths, one twice the other. */
    method ScanRate() returns (myReadPtr: nat, bytesRead: nat, bad: bool)
      requires Valid()
      modifies this`shortClocks, this`longClocks
      ensures Valid() && myReadPtr < SIZE
      ensures var q := Data().Queue(); var rate := Scan(q, old(shortClocks), old(longClocks), 0);
        && (bytesRead, bad) == (rate.n, rate.bad) && myReadPtr == Slot(dataReadPtr, bytesRead)
        && (!bad ==> (shortClocks, longClocks) == (rate.short, rate.long))
    {
      hide Scan, Fit;
      ghost var q := Data().Queue();
      ghost var rate := Scan(q, shortClocks, longClocks, 0);
      bytesRead, myReadPtr := 0, dataReadPtr;
      while myReadPtr != dataWritePtr
        invariant Valid() && 0 <= bytesRead <= |q| && myReadPtr == Slot(dataReadPtr, bytesRead)
        invariant myReadPtr == dataWritePtr <==> bytesRead == |q|
        invariant Scan(q, shortClocks, longClocks, bytesRead) == rate
        decreases |q| - bytesRead
      {
        var p := dataBuffer[myReadPtr];
        assert p == q[bytesRead];
        ScanOne(q, shortClocks, longClocks, bytesRead);
        if p.Space? { break; }
        var fits := FitPulse(p.clocks);
        if !fits { return myReadPtr, bytesRead, true; }
        myReadPtr := Slot(myReadPtr, 1);
        bytesRead := bytesRead + 1;
      }
      if myReadPtr == dataWritePtr { ScanEnd(q, shortClocks, longClocks); }
      return myReadPtr, bytesRead, false;
    }

    method LookForEm4100()
      requires Valid()
      modifies this`manReadPtr, this`reports
      ensures Valid() && (Man(), reports) == (FindEm(old(Man())).0, old(reports) + FindEm(old(Man())).1)
    {
      hide Em4100.Locate, Em4100.Payload, Em4100Encode.TagText;
      var found, decoded, newStart := Em4100.Decode(manBuffer, manReadPtr, manWritePtr);
      ghost var o := Em4100.Locate(Man().ring);
      if found {
        assert o.Some?;
        Em4100Encode.TextOfBytes(decoded, Em4100.Payload(Man().ring.All()[o.value..o.value + 64]));
        reports := reports + [Tag(EM4100, Em4100Encode.HexText(decoded))];
        manReadPtr := newStart;
      }
      assert old(reports) + [] == old(reports);
    }

    method LookForPhidgetTag()
      requires Valid()
      modifies this`biphaseReadPtr, this`reports
      ensures Valid()
      ensures (Biphase(), reports) == (FindPhidget(old(Biphase())).0, old(reports) + FindPhidget(old(Biphase())).1)
    {
      hide PhidgetTag.Locate, PhidgetTag.TagText;
      var found, text, newStart := PhidgetTag.Decode(biphaseBuffer, biphaseReadPtr, biphaseWritePtr);
      if found {
        reports := reports + [Tag(PHIDGETS, text)];
        biphaseReadPtr := newStart;
      }
      assert old(reports) + [] == old(reports);
    }

    method LookForFdxB()
      requires Valid()
      modifies this`biphaseReadPtr, this`reports
      ensures Valid()
      ensures (Biphase(), reports) == (FindFdx(old(Biphase())).0, old(reports) + FindFdx(old(Biphase())).1)
    {
      hide FdxB.Locate, FdxB.TelegramText, FdxB.Data;
      var found, text, newStart := FdxB.Decode(biphaseBuffer, biphaseReadPtr, biphaseWritePtr);
      if found {
        reports := reports + [Tag(ISO11785_FDX_B, text)];
        biphaseReadPtr := newStart;
      }
      assert old(reports) + [] == old(reports);
    }

    /** Everything but the pulse queue. */
    ghost function Decoders(): (s: Rx)
      reads this, manBuffer, biphaseBuffer
      requires Valid()
      ensures s.Valid()
    {
      Rx([], shortClocks, longClocks, Man(), Biphase())
    }

    /** Shift data into the line decoders and let the frame decoders look. */
    method DecodeBatch(readToPtr: nat)
      requires Valid() && readToPtr < SIZE && Pulses(Upto(readToPtr))
      modifies this`manReadPtr, this`manWritePtr, this`manLockedIn, this`manShortChange, manBuffer,
               this`biphaseReadPtr, this`biphaseWritePtr, this`biphaseLockedIn, this`biphaseShortChange, biphaseBuffer,
               this`reports
      ensures Valid()
      ensures Decoders() == Batch(old(Decoders()), old(Upto(readToPtr))).0
      ensures reports == old(reports) + Batch(old(Decoders()), old(Upto(readToPtr))).1
    {
      hide FindEm, FindPhidget, FindFdx, ManAll, BipAll, Pulses;
      ghost var ps := Upto(readToPtr);
      AddManchesterData(readToPtr);
      assert Upto(readToPtr) == ps;
      LookForEm4100();
      assert Upto(readToPtr) == ps;
      DecodeBiphase(readToPtr);
      ReportsJoined(old(reports), old(Decoders()), ps);
    }

    /** Biphase: if every pulse was usable, both frame decoders look. */
    method DecodeBiphase(readToPtr: nat)
      requires Valid() && readToPtr < SIZE && Pulses(Upto(readToPtr))
      modifies this`biphaseReadPtr, this`biphaseWritePtr, this`biphaseLockedIn, this`biphaseShortChange, biphaseBuffer,
               this`reports
      ensures Valid()
      ensures (Biphase(), reports) ==
        var r := BiphaseBatch(old(Biphase()), shortClocks, longClocks, old(Upto(readToPtr)));
        (r.0, old(reports) + r.1)
    {
      hide FindPhidget, FindFdx, BipAll, Pulses;
      ghost var was := reports;
      var ok := AddBiphaseData(readToPtr);
      if ok {
        ghost var bip := Biphase();
        LookForPhidgetTag();
        LookForFdxB();
        assert was + FindPhidget(bip).1 + FindFdx(FindPhidget(bip).0).1
               == was + (FindPhidget(bip).1 + FindFdx(FindPhidget(bip).0).1);
      }
      assert was + [] == was;
    }

    /** A gap or a pulse that does not fit: skip it and start over. */
    method DropPulse()
      requires Valid() && dataReadPtr != dataWritePtr
      modifies this
      ensures Valid() && State() == Reset(old(State()).(pulses := old(State()).pulses[1..]))
      ensures dataWritePtr == old(dataWritePtr) && reports == old(reports)
    {
      Data().SkipQueue(1);
      dataReadPtr := Slot(dataReadPtr, 1);
      ResetValuesFromSpace();
    }

    /** Pass over the gaps at the front; each of them forgets what went before. */
    method SkipSpaces()
      requires Valid()
      modifies this
      ensures Valid() && reports == old(reports)
      ensures Analyze(State()) == Analyze(old(State())) && |State().pulses| <= |old(State()).pulses|
      ensures State().pulses != [] ==> State().pulses[0].Pulse?
    {
      hide Scan, Batch, Ordered;
      while dataReadPtr != dataWritePtr
        invariant Valid() && reports == old(reports)
        invariant Analyze(State()) == Analyze(old(State())) && |State().pulses| <= |old(State()).pulses|
        decreases |State().pulses|
      {
        assert dataBuffer[dataReadPtr] == State().pulses[0];
        if dataBuffer[dataReadPtr].Pulse? { break; }
        DropPulse();
      }
    }

    /** The smaller of the two lengths is the short one. */
    method OrderClocks(ghost rate: Rate)
      requires Valid() && (shortClocks, longClocks) == (rate.short, rate.long)
      modifies this`shortClocks, this`longClocks
      ensures Valid() && Decoders() == Ordered(old(Decoders()), rate)
    {
      if longClocks < shortClocks { shortClocks, longClocks := longClocks, shortClocks; }
    }

    /** One pass from one gap to the next; done says that there is nothing more to do for now. */
    method AnalyzeOnce() returns (done: bool)
      requires Valid() && (State().pulses != [] ==> State().pulses[0].Pulse?)
      modifies this, manBuffer, biphaseBuffer
      ensures Valid()
      ensures !done ==> |State().pulses| < |old(State()).pulses|
      ensures var r := Analyze(old(State()));
        if done then (State(), reports) == (r.0, old(reports) + r.1)
        else r.0 == Analyze(State()).0 && old(reports) + r.1 == reports + Analyze(State()).1
    {
      hide Analyze, Scan, Batch;
      ghost var s := State();
      var bytesToRead: int := dataWritePtr - dataReadPtr;
      if dataReadPtr > dataWritePtr { bytesToRead := bytesToRead + SIZE; }
      var myReadPtr, bytesRead, bad := ScanRate();
      ghost var rate := Scan(s.pulses, s.short, s.long, 0);
      if bad {
        // a third length, or a second that is not twice the first: give up the oldest pulse
        DropPulse();
        AnalyzeBad(s);
        assert reports + Analyze(State()).1 == old(reports) + Analyze(s).1;
        return false;
      }
      done := Settle(s, rate, myReadPtr, bytesRead, bytesToRead);
    }

    /** The pulses up to the next gap fit: decode them, or wait for a second length. */
    method Settle(ghost s: Rx, ghost rate: Rate, myReadPtr: nat, bytesRead: nat, bytesToRead: int) returns (done: bool)
      requires Valid() && s.Valid() && |s.pulses| < SIZE && (s.pulses != [] ==> s.pulses[0].Pulse?)
      requires rate == Scan(s.pulses, s.short, s.long, 0) && !rate.bad
      requires State() == s.(short := rate.short, long := rate.long)
      requires bytesRead == rate.n && bytesToRead == |s.pulses| && myReadPtr == Slot(dataReadPtr, bytesRead)
      modifies this, manBuffer, biphaseBuffer
      ensures Valid()
      ensures !done ==> |State().pulses| < |s.pulses|
      ensures var r := Analyze(s);
        if done then (State(), reports) == (r.0, old(reports) + r.1)
        else r.0 == Analyze(State()).0 && old(reports) + r.1 == reports + Analyze(State()).1
    {
      hide Analyze, Scan, Batch;
      if shortClocks == 0 || longClocks == 0 {
        // stopped by a gap: go on behind it; out of pulses: nothing to do until more arrive
        done := bytesRead == bytesToRead;
        if !done { MovePast(myReadPtr, bytesRead); }
        AnalyzeGap(s);
        assert reports == old(reports) + [];
      } else {
        DecodePulses(myReadPtr, rate);
        AnalyzeBatch(s);
        done := dataReadPtr == dataWritePtr;
        assert done <==> State().pulses == [];
        assert !done ==> old(reports) + Analyze(s).1 == reports + Analyze(State()).1;
      }
    }

    method MovePast(myReadPtr: nat, ghost n: nat)
      requires Valid() && n <= |State().pulses| && myReadPtr == Slot(dataReadPtr, n)
      modifies this`dataReadPtr
      ensures Valid() && State() == old(State()).(pulses := old(State()).pulses[n..])
    {
      Data().SkipQueue(n);
      dataReadPtr := myReadPtr;
    }

    /** The pulses scanned go through the decoders; the read pointer moves past them. */
    method DecodePulses(myReadPtr: nat, ghost rate: Rate)
      requires Valid() && (shortClocks, longClocks) == (rate.short, rate.long)
      requires rate.n <= |State().pulses| && Pulses(State().pulses[..rate.n]) && myReadPtr == Slot(dataReadPtr, rate.n)
      modifies this, manBuffer, biphaseBuffer
      ensures Valid() && dataWritePtr == old(dataWritePtr) && dataReadPtr == myReadPtr
      ensures var s := old(State());
        var r := Batch(Ordered(s, rate).(pulses := s.pulses[rate.n..]), s.pulses[..rate.n]);
        (State(), reports) == (r.0, old(reports) + r.1)
    {
      hide Batch;
      ghost var s := State();
      Data().SkipQueue(rate.n);
      OrderClocks(rate);
      assert Upto(myReadPtr) == s.pulses[..rate.n];
      ghost var d := Decoders();
      DecodeBatch(myReadPtr);
      BatchIgnoresRest(d, s.pulses[..rate.n], s.pulses[rate.n..]);
      dataReadPtr := myReadPtr;
    }

    /** analyze_data */
    method AnalyzeData()
      requires Valid()
      modifies this, manBuffer, biphaseBuffer
      ensures Valid()
      ensures (State(), reports) == (Analyze(old(State())).0, old(reports) + Analyze(old(State())).1)
    {
      hide Analyze;
      var done := false;
      while !done
        invariant Valid()
        invariant var r := Analyze(old(State()));
          if done then (State(), reports) == (r.0, old(reports) + r.1)
          else r.0 == Analyze(State()).0 && old(reports) + r.1 == reports + Analyze(State()).1
        decreases !done, |State().pulses|
      {
        SkipSpaces();
        done := AnalyzeOnce();
      }
    }

    /** The pulse lengths of a packet go into the ring; if there were any they are analysed. */
    method DataInput(data: seq<nat>)
      requires Valid() && forall i :: 0 <= i < |data| ==> data[i] < 256
      modifies this, dataBuffer, manBuffer, biphaseBuffer
      ensures Valid()
      ensures (State(), reports) == (Input(old(State()), data).0, old(reports) + Input(old(State()), data).1)
    {
      hide Analyze, Quantize;
      ghost var s := State();
      var i := 0;
      assert data[..0] == [];
      while i < |data|
        invariant Valid() && 0 <= i <= |data| && reports == old(reports)
        invariant State() == s.(pulses := EnqueueAll(s.pulses, data[..i]))
      {
        assert data[..i + 1][..i] == data[..i];
        PushPulse(Quantize(data[i]));
        i := i + 1;
      }
      assert data[..i] == data;
      if |data| > 0 { AnalyzeData(); } else { assert old(reports) + [] == reports; }
    }

    method PushPulse(p: Pulse)
      requires Valid()
      modifies this`dataReadPtr, this`dataWritePtr, dataBuffer
      ensures Valid() && State() == old(State()).(pulses := Enqueue(old(State()).pulses, p))
    {
      Data().PushQueue(p);
      dataBuffer[dataWritePtr] := p;
      dataWritePtr := Slot(dataWritePtr, 1);
      // a full ring loses its oldest entry
      if dataWritePtr == dataReadPtr { dataReadPtr := Slot(dataReadPtr, 1); }
      assert Data() == old(Data()).Push(p);
    }
  }

  lemma ReportsJoined(was: seq<Report>, d: Rx, ps: seq<Pulse>)
    requires d.Valid() && Pulses(ps)
    ensures var em := FindEm(ManAll(d.man, d.long, ps)).1; var bip := BiphaseBatch(d.bip, d.short, d.long, ps).1;
      was + Batch(d, ps).1 == was + em + bip
  {
    hide FindEm, FindPhidget, FindFdx, ManAll, BipAll;
  }

  /** The two clock lengths after a pulse of the given length, and whether it fits them. */
  function Fit(short: nat, long: nat, clocks: nat): (nat, nat, bool) {
    if short == 0 then (clocks, long, true)
    else if clocks == short || (clocks == long && long != 0) then (short, long, true)
    else if long == 0 && (short * 2 == clocks || short / 2 == clocks) then (short, clocks, true)
    else (short, long, false)
  }

  lemma ScanOne(ps: seq<Pulse>, short: nat, long: nat, i: nat)
    requires i < |ps|
    ensures Scan(ps, short, long, i) ==
      if ps[i].Space? then Rate(short, long, i, false)
      else
        var (s, l, fits) := Fit(short, long, ps[i].clocks);
        if fits then Scan(ps, s, l, i + 1) else Rate(short, long, i, true)
  {
  }

  lemma ScanEnd(ps: seq<Pulse>, short: nat, long: nat)
    ensures Scan(ps, short, long, |ps|) == Rate(short, long, |ps|, false)
  {
  }

  lemma AnalyzeBad(s: Rx)
    requires s.Valid() && s.pulses != [] && s.pulses[0].Pulse? && Scan(s.pulses, s.short, s.long, 0).bad
    ensures Analyze(s) == Analyze(Reset(s.(pulses := s.pulses[1..])))
  {
    hide Batch, Scan;
  }

  lemma AnalyzeGap(s: Rx)
    requires s.Valid() && (s.pulses != [] ==> s.pulses[0].Pulse?)
    requires var rate := Scan(s.pulses, s.short, s.long, 0); !rate.bad && (rate.short == 0 || rate.long == 0)
    ensures var rate := Scan(s.pulses, s.short, s.long, 0); var t := s.(short := rate.short, long := rate.long);
      Analyze(s) == if rate.n == |s.pulses| then (t, []) else Analyze(t.(pulses := s.pulses[rate.n..]))
  {
    hide Batch, Scan;
  }

  lemma AnalyzeBatch(s: Rx)
    requires s.Valid() && (s.pulses != [] ==> s.pulses[0].Pulse?)
    requires var rate := Scan(s.pulses, s.short, s.long, 0); !rate.bad && rate.short != 0 && rate.long != 0
    ensures var rate := Scan(s.pulses, s.short, s.long, 0);
      var (t, found) := Batch(Ordered(s, rate).(pulses := s.pulses[rate.n..]), s.pulses[..rate.n]);
      Analyze(s) == if t.pulses == [] then (t, found) else (Analyze(t).0, found + Analyze(t).1)
  {
    hide Batch, Scan;
  }

  /** The decoders do not look at what follows the batch. */
  lemma BatchIgnoresRest(s: Rx, ps: seq<Pulse>, rest: seq<Pulse>)
    requires s.Valid() && Pulses(ps)
    ensures Batch(s.(pulses := rest), ps) == (Batch(s, ps).0.(pulses := rest), Batch(s, ps).1)
  {
    hide FindEm, FindPhidget, FindFdx, ManAll, BipAll;
  }

  lemma ManNone(l: Line, long: nat)
    requires l.Valid()
    ensures ManAll(l, long, []) == l
  {
  }

  lemma ManSnoc(l: Line, long: nat, ps: seq<Pulse>, n: nat)
    requires l.Valid() && Pulses(ps) && n < |ps|
    ensures ManAll(l, long, ps[..n + 1]) == ManStep(ManAll(l, long, ps[..n]), long, ps[n])
  {
    hide ManStep;
    assert ps[..n + 1][..n] == ps[..n];
  }

  lemma BipSnoc(l: Line, short: nat, long: nat, ps: seq<Pulse>, n: nat)
    requires l.Valid() && Pulses(ps) && n < |ps| && BipAll(l, short, long, ps[..n]).1
    ensures var m := BipAll(l, short, long, ps[..n]).0;
      BipAll(l, short, long, ps[..n + 1]) ==
        if ps[n].clocks == long || ps[n].clocks == short then (BipStep(m, long, ps[n]), true) else (BipGiveUp(m), false)
  {
    hide BipStep, BipGiveUp;
    assert ps[..n + 1][..n] == ps[..n];
  }

  /** After the first unusable pulse the biphase decoder does nothing more. */
  lemma {:induction false} BipStops(l: Line, short: nat, long: nat, ps: seq<Pulse>, n: nat)
    requires l.Valid() && Pulses(ps) && n <= |ps| && !BipAll(l, short, long, ps[..n]).1
    ensures BipAll(l, short, long, ps) == BipAll(l, short, long, ps[..n])
    decreases |ps|
  {
    if n == |ps| {
      assert ps[..n] == ps;
    } else {
      assert ps[..|ps| - 1][..n] == ps[..n];
      BipStops(l, short, long, ps[..|ps| - 1], n);
    }
  }
}
