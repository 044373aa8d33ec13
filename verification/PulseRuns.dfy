/** From packets to pieces: how analyze_data hands the pulses of a clean stream on to the two line decoders. */
module PulseRuns {
  import opened Rings
  import opened LineCode
  import opened Receiver
  import opened EndToEnd

  // ----- each line decoder with its frame decoders, piece by piece

  predicate AllPulses(pieces: seq<seq<Pulse>>) { forall i :: 0 <= i < |pieces| ==> Pulses(pieces[i]) }

  function ManRun(l: Line, long: nat, pieces: seq<seq<Pulse>>): (r: (Line, seq<Report>))
    requires l.Valid() && AllPulses(pieces)
    ensures r.0.Valid()
  {
    if pieces == [] then (l, [])
    else
      var (m, before) := ManRun(l, long, pieces[..|pieces| - 1]);
      var (t, found) := FindEm(ManAll(m, long, pieces[|pieces| - 1]));
      (t, before + found)
  }

  function BipRun(l: Line, short: nat, long: nat, pieces: seq<seq<Pulse>>): (r: (Line, seq<Report>))
    requires l.Valid() && AllPulses(pieces)
    ensures r.0.Valid()
  {
    if pieces == [] then (l, [])
    else
      var (m, before) := BipRun(l, short, long, pieces[..|pieces| - 1]);
      var (t, found) := BiphaseBatch(m, short, long, pieces[|pieces| - 1]);
      (t, before + found)
  }

  function Joined(pieces: seq<seq<Pulse>>): seq<Pulse> {
    if pieces == [] then [] else Joined(pieces[..|pieces| - 1]) + pieces[|pieces| - 1]
  }

  // ----- whose reports

  /** The reports of the Manchester side, or those of the bi-phase side. */
  function Of(manchester: bool, found: seq<Report>): (r: seq<Report>)
    ensures forall i :: 0 <= i < |r| ==> r[i] in found && manchester == (r[i].protocol == EM4100)
  {
    if found == [] then []
    else
      var before, last := Of(manchester, found[..|found| - 1]), found[|found| - 1];
      if manchester == (last.protocol == EM4100) then before + [last] else before
  }

  lemma {:induction false} OfJoined(manchester: bool, a: seq<Report>, b: seq<Report>)
    ensures Of(manchester, a + b) == Of(manchester, a) + Of(manchester, b)
    decreases |b|
  {
    if b == [] {
      assert a + b == a;
    } else {
      assert (a + b)[..|a + b| - 1] == a + b[..|b| - 1];
      OfJoined(manchester, a, b[..|b| - 1]);
    }
  }

  lemma {:induction false} OfOneSide(manchester: bool, side: bool, found: seq<Report>)
    requires forall i :: 0 <= i < |found| ==> side == (found[i].protocol == EM4100)
    ensures Of(manchester, found) == if manchester == side then found else []
  {
    if found != [] {
      OfOneSide(manchester, side, found[..|found| - 1]);
      assert found[..|found| - 1] + [found[|found| - 1]] == found;
    }
  }

  /** Every report is of one of the two sides. */
  lemma {:induction false} OfCovers(found: seq<Report>, i: nat)
    requires i < |found|
    ensures found[i] in Of(found[i].protocol == EM4100, found)
  {
    if i < |found| - 1 { OfCovers(found[..|found| - 1], i); }
  }

  lemma EmReports(l: Line)
    requires l.Valid()
    ensures forall i :: 0 <= i < |FindEm(l).1| ==> FindEm(l).1[i].protocol == EM4100
  {
  }

  lemma PhidgetReports(l: Line)
    requires l.Valid()
    ensures forall i :: 0 <= i < |FindPhidget(l).1| ==> FindPhidget(l).1[i].protocol == PHIDGETS
  {
  }

  lemma FdxReports(l: Line)
    requires l.Valid()
    ensures forall i :: 0 <= i < |FindFdx(l).1| ==> FindFdx(l).1[i].protocol == ISO11785_FDX_B
  {
  }

  lemma BiphaseReports(l: Line, short: nat, long: nat, ps: seq<Pulse>)
    requires l.Valid() && Pulses(ps)
    ensures var found := BiphaseBatch(l, short, long, ps).1;
      forall i :: 0 <= i < |found| ==> found[i].protocol != EM4100
  {
    hide BipAll, FindPhidget, FindFdx;
    var bip := BipAll(l, short, long, ps).0;
    PhidgetReports(bip);
    FdxReports(FindPhidget(bip).0);
  }

  lemma SidesOfBatch(s: Rx, ps: seq<Pulse>)
    requires s.Valid() && Pulses(ps)
    ensures var (t, found) := Batch(s, ps);
      && t == s.(man := FindEm(ManAll(s.man, s.long, ps)).0, bip := BiphaseBatch(s.bip, s.short, s.long, ps).0)
      && Of(true, found) == FindEm(ManAll(s.man, s.long, ps)).1
      && Of(false, found) == BiphaseBatch(s.bip, s.short, s.long, ps).1
  {
    hide ManAll, BipAll, FindEm, BiphaseBatch, Of;
    var em, bip := FindEm(ManAll(s.man, s.long, ps)).1, BiphaseBatch(s.bip, s.short, s.long, ps).1;
    EmReports(ManAll(s.man, s.long, ps));
    BiphaseReports(s.bip, s.short, s.long, ps);
    OfJoined(true, em, bip);
    OfJoined(false, em, bip);
    OfOneSide(true, true, em);
    OfOneSide(false, true, em);
    OfOneSide(true, false, bip);
    OfOneSide(false, false, bip);
  }

  // ----- the pieces

  /** A run of pulses of one length only. */
  predicate OneLength(ps: seq<Pulse>) {
    Pulses(ps) && forall i :: 0 <= i < |ps| ==> ps[i].clocks == ps[0].clocks
  }

  /** Of more than so many pulses the first ones are not all of one length. */
  predicate MixedBy(ps: seq<Pulse>, bound: nat) { |ps| > bound ==> !OneLength(ps[..bound + 1]) }

  /**
   * The first piece is what came while only one length was known, and the packet in which the second one appeared;
   * each later piece is one packet.
   */
  predicate FirstPiece(p: seq<Pulse>, waited: nat) {
    waited < |p| <= waited + 63 && OneLength(p[..waited]) && !OneLength(p)
  }

  predicate Pieces(pieces: seq<seq<Pulse>>, waited: nat) {
    && AllPulses(pieces) && pieces != [] && FirstPiece(pieces[0], waited)
    && forall i :: 0 < i < |pieces| ==> 1 <= |pieces[i]| <= 63
  }

  /** Only one length has been seen: all pulses are still unread, and the line decoders have not been touched. */
  predicate Unread(s: Rx, t: Rx, ps: seq<Pulse>) {
    OneLength(ps) && t == s.(pulses := ps, short := if ps == [] then 0 else ps[0].clocks)
  }

  /** Both lengths are known, and the line decoders have had all pieces. */
  predicate Decoded(s: Rx, t: Rx, found: seq<Report>, short: nat, long: nat, pieces: seq<seq<Pulse>>)
    requires s.Valid() && AllPulses(pieces)
  {
    var man, bip := ManRun(s.man, long, pieces), BipRun(s.bip, short, long, pieces);
    t == Rx([], short, long, man.0, bip.0) && Of(true, found) == man.1 && Of(false, found) == bip.1
  }

  lemma NotMixed(ps: seq<Pulse>, k: nat, bound: nat)
    requires MixedBy(ps, bound) && k <= |ps| && OneLength(ps[..k])
    ensures k <= bound
  {
  }

  /** One packet while only one length is known. */
  lemma UnreadPacket(s: Rx, t: Rx, ps: seq<Pulse>, k: nat, short: nat, long: nat, data: seq<nat>, bound: nat)
    requires AfterReset(s) && Clocks(short, long) && TwoLengths(ps, short, long) && k <= |ps| && bound <= 900
    requires MixedBy(ps, bound) && Unread(s, t, ps[..k])
    requires 1 <= |data| <= 63 && |ps| == k + |data| && Jittered(data, ps[k..])
    ensures t.Valid() && |t.pulses| < SIZE
    ensures if OneLength(ps) then Input(t, data) == (s.(pulses := ps, short := ps[0].clocks), [])
            else Input(t, data) == Batch(s.(short := short, long := long), ps)
  {
    hide Input, Analyze, Scan, Batch;
    NotMixed(ps, k, bound);
    InputFits(t, data, ps[k..]);
    assert ps[..k] + ps[k..] == ps;
    var u := t.(pulses := ps);
    assert k > 0 ==> ps[..k][0] == ps[0];
    AnalyzeFits(u, short, long);
    var r := Scan(ps, u.short, 0, 0);
    ScanTwoLengths(ps, u.short, 0, 0, short, long);
    ScanOfOneLength(ps, u.short, short, long, k);
  }

  /** The scan comes to know the second length just when there is one. */
  lemma ScanOfOneLength(ps: seq<Pulse>, a: nat, short: nat, long: nat, k: nat)
    requires Clocks(short, long) && TwoLengths(ps, short, long) && k <= |ps| && ps != []
    requires a == if k == 0 then 0 else ps[0].clocks
    ensures var r := Scan(ps, a, 0, 0);
      && (r.long == 0 <==> OneLength(ps)) && (r.long == 0 ==> r.short == ps[0].clocks)
  {
    hide Scan;
    ScanTwoLengths(ps, a, 0, 0, short, long);
    if OneLength(ps) { ScanSame(ps, ps[0].clocks, a, 0); }
  }

  lemma {:induction false} ScanSame(ps: seq<Pulse>, clocks: nat, a: nat, i: nat)
    requires i <= |ps| && clocks > 0 && (a == 0 || a == clocks)
    requires forall j :: 0 <= j < |ps| ==> ps[j].Pulse? && ps[j].clocks == clocks
    ensures Scan(ps, a, 0, i).long == 0
    decreases |ps| - i
  {
    if i < |ps| { ScanSame(ps, clocks, clocks, i + 1); }
  }

  /** One packet when both lengths are known. */
  lemma DecodedPacket(t: Rx, q: seq<Pulse>, short: nat, long: nat, data: seq<nat>)
    requires t.Valid() && t.pulses == [] && t.short == short && t.long == long && Clocks(short, long)
    requires TwoLengths(q, short, long) && 1 <= |data| <= 63 && Jittered(data, q)
    ensures Input(t, data) == Batch(t, q)
  {
    hide Input, Analyze, Scan, Batch;
    InputFits(t, data, q);
    assert [] + q == q;
    var u := t.(pulses := q);
    AnalyzeFits(u, short, long);
    ScanTwoLengths(q, short, long, 0, short, long);
    assert u.(short := short, long := long, pulses := []) == t;
  }

  lemma OneMorePiece(s: Rx, t: Rx, found: seq<Report>, short: nat, long: nat, pieces: seq<seq<Pulse>>, q: seq<Pulse>)
    requires s.Valid() && t.Valid() && AllPulses(pieces) && Pulses(q) && Decoded(s, t, found, short, long, pieces)
    ensures AllPulses(pieces + [q])
    ensures var (u, more) := Batch(t, q); Decoded(s, u, found + more, short, long, pieces + [q])
    ensures Joined(pieces + [q]) == Joined(pieces) + q
  {
    hide Batch, FindEm, BiphaseBatch, ManAll;
    var more := Batch(t, q).1;
    assert (pieces + [q])[..|pieces|] == pieces;
    SidesOfBatch(t, q);
    OfJoined(true, found, more);
    OfJoined(false, found, more);
  }

  lemma NoPieces(s: Rx, short: nat, long: nat)
    requires AfterReset(s)
    ensures Decoded(s, s.(short := short, long := long), [], short, long, []) && Joined([]) == []
  {
  }

  lemma PartOfTwo(ps: seq<Pulse>, short: nat, long: nat, k: nat)
    requires TwoLengths(ps, short, long) && k <= |ps|
    ensures TwoLengths(ps[..k], short, long) && TwoLengths(ps[k..], short, long) && ps[..k] + ps[k..] == ps
  {
  }

  lemma PartMixed(ps: seq<Pulse>, k: nat, bound: nat)
    requires MixedBy(ps, bound) && k <= |ps|
    ensures MixedBy(ps[..k], bound)
  {
    if k > bound { assert ps[..k][..bound + 1] == ps[..bound + 1]; }
  }

  lemma JitteredParts(d: seq<nat>, ps: seq<Pulse>, k: nat)
    requires Jittered(d, ps) && k <= |d|
    ensures |d| == |ps| && Jittered(d[..k], ps[..k]) && Jittered(d[k..], ps[k..])
  {
  }

  /** What a run over a clean stream has come to: still waiting for the second length, or all pulses decoded. */
  ghost predicate Reached(s: Rx, t: Rx, found: seq<Report>, ps: seq<Pulse>, short: nat, long: nat,
      pieces: seq<seq<Pulse>>, waited: nat)
    requires s.Valid()
  {
    if pieces == [] then found == [] && Unread(s, t, ps)
    else Pieces(pieces, waited) && Joined(pieces) == ps && Decoded(s, t, found, short, long, pieces)
  }

  /** The reports of the two sides are those of the two line decoders. */
  lemma Sides(s: Rx, t: Rx, found: seq<Report>, ps: seq<Pulse>, short: nat, long: nat, pieces: seq<seq<Pulse>>,
      waited: nat)
    requires s.Valid() && Reached(s, t, found, ps, short, long, pieces, waited)
    ensures pieces == [] ==> Of(true, found) == Of(false, found) == []
    ensures pieces != [] ==>
      && Pieces(pieces, waited) && AllPulses(pieces) && Joined(pieces) == ps
      && t == Rx([], short, long, ManRun(s.man, long, pieces).0, BipRun(s.bip, short, long, pieces).0)
      && Of(true, found) == ManRun(s.man, long, pieces).1 && Of(false, found) == BipRun(s.bip, short, long, pieces).1
  {
    hide ManRun, BipRun;
  }

  lemma {:induction false} RunInPieces(s: Rx, packets: seq<seq<nat>>, ps: seq<Pulse>, short: nat, long: nat, bound: nat)
    returns (pieces: seq<seq<Pulse>>, waited: nat)
    requires AfterReset(s) && Packets(packets) && Jittered(Received(packets), ps)
    requires Clocks(short, long) && TwoLengths(ps, short, long) && MixedBy(ps, bound) && bound <= 900
    ensures var (t, found) := Run(s, packets); Reached(s, t, found, ps, short, long, pieces, waited)
    decreases |packets|
  {
    hide Input, TwoLengths, MixedBy, Jittered, Pieces, Decoded;
    assert |Received(packets)| == |ps| by { JitteredParts(Received(packets), ps, 0); }
    if packets == [] {
      pieces, waited := [], 0;
      assert ps == [];
    } else {
      var p, before := packets[|packets| - 1], packets[..|packets| - 1];
      var k := |Received(before)|;
      assert Received(packets) == Received(before) + p;
      JitteredParts(Received(packets), ps, k);
      assert Received(packets)[..k] == Received(before) && Received(packets)[k..] == p;
      PartOfTwo(ps, short, long, k);
      PartMixed(ps, k, bound);
      pieces, waited := RunInPieces(s, before, ps[..k], short, long, bound);
      var (t, found) := Run(s, before);
      if p == [] {
        EmptyPacket(t);
        assert found + [] == found && ps[..k] == ps;
      } else {
        pieces, waited := PacketReaches(s, t, found, ps, k, short, long, p, bound, pieces, waited);
      }
    }
  }

  /** One packet that is not empty. */
  lemma PacketReaches(s: Rx, t: Rx, found: seq<Report>, ps: seq<Pulse>, k: nat, short: nat, long: nat, data: seq<nat>,
      bound: nat, before: seq<seq<Pulse>>, already: nat) returns (pieces: seq<seq<Pulse>>, waited: nat)
    requires AfterReset(s) && t.Valid() && |t.pulses| < SIZE && Clocks(short, long) && TwoLengths(ps, short, long)
    requires MixedBy(ps, bound) && bound <= 900 && k <= |ps|
    requires 1 <= |data| <= 63 && |ps| == k + |data| && Jittered(data, ps[k..])
    requires Reached(s, t, found, ps[..k], short, long, before, already)
    ensures var (u, more) := Input(t, data); Reached(s, u, found + more, ps, short, long, pieces, waited)
    ensures before != [] ==> pieces == before + [ps[k..]] && waited == already
  {
    hide Input, Batch, MixedBy, Jittered, ManRun, BipRun;
    PartOfTwo(ps, short, long, k);
    if before != [] {
      var q := ps[k..];
      DecodedPacket(t, q, short, long, data);
      OneMorePiece(s, t, found, short, long, before, q);
      pieces, waited := before + [q], already;
    } else {
      UnreadPacket(s, t, ps, k, short, long, data, bound);
      if OneLength(ps) {
        pieces, waited := [], 0;
      } else {
        NoPieces(s, short, long);
        OneMorePiece(s, s.(short := short, long := long), [], short, long, [], ps);
        pieces, waited := [] + [ps], k;
        assert pieces == [ps] && [] + ps == ps;
        assert [] + Batch(s.(short := short, long := long), ps).1 == Batch(s.(short := short, long := long), ps).1;
      }
    }
  }

  /** One more pulse, in a packet of its own. */
  lemma LastPulse(s: Rx, packets: seq<seq<nat>>, ps: seq<Pulse>, short: nat, long: nat, bound: nat,
      pieces: seq<seq<Pulse>>, waited: nat, byte: nat)
    requires AfterReset(s) && Packets(packets) && Clocks(short, long) && TwoLengths(ps, short, long)
    requires |ps| > bound && MixedBy(ps, bound) && bound <= 900
    requires var (t, found) := Run(s, packets); Reached(s, t, found, ps, short, long, pieces, waited)
    requires byte < 256 && Quantize(byte).Pulse? && (Quantize(byte).clocks == short || Quantize(byte).clocks == long)
    ensures pieces != [] && Packets(packets + [[byte]])
    ensures var (u, all) := Run(s, packets + [[byte]]); var p := Quantize(byte);
      Reached(s, u, all, ps + [p], short, long, pieces + [[p]], waited)
  {
    var p := Quantize(byte);
    assert Jittered([byte], [p]);
    assert TwoLengths(ps + [p], short, long);
    hide Input, MixedBy, Jittered, Quantize, TwoLengths, Run, Packets, Reached;
    RunOneMore(s, packets, [byte]);
    var (t, found) := Run(s, packets);
    SomePieces(s, t, found, ps, short, long, pieces, waited, bound);
    assert (ps + [p])[|ps|..] == [p] && (ps + [p])[..|ps|] == ps;
    MixedLonger(ps, p, bound);
    var more, w := PacketReaches(s, t, found, ps + [p], |ps|, short, long, [byte], bound, pieces, waited);
  }

  lemma RunOneMore(s: Rx, packets: seq<seq<nat>>, data: seq<nat>)
    requires s.Valid() && |s.pulses| < SIZE && Packets(packets)
    requires |data| <= 63 && forall j :: 0 <= j < |data| ==> data[j] < 256
    ensures Packets(packets + [data])
    ensures var (t, found) := Run(s, packets); var (u, more) := Input(t, data);
      Run(s, packets + [data]) == (u, found + more)
  {
    hide Input;
    assert (packets + [data])[..|packets|] == packets;
  }

  lemma SomePieces(s: Rx, t: Rx, found: seq<Report>, ps: seq<Pulse>, short: nat, long: nat, pieces: seq<seq<Pulse>>,
      waited: nat, bound: nat)
    requires s.Valid() && Reached(s, t, found, ps, short, long, pieces, waited) && |ps| > bound && MixedBy(ps, bound)
    ensures pieces != []
  {
    hide Decoded;
    assert ps[..|ps|] == ps;
    if pieces == [] { NotMixed(ps, |ps|, bound); }
  }

  lemma MixedLonger(ps: seq<Pulse>, p: Pulse, bound: nat)
    requires |ps| > bound && MixedBy(ps, bound)
    ensures MixedBy(ps + [p], bound)
  {
    assert (ps + [p])[..bound + 1] == ps[..bound + 1];
  }
}
