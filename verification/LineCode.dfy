/** The two line decoders, Manchester and biphase, pulse by pulse. */
module LineCode {
  import opened Rings

  /** An entry of the pulse ring: a gap or unusable length, or a pulse of so many clocks at one level. */
  datatype Pulse = Space | Pulse(clocks: nat, high: bool)

  /** A line decoder: the ring of decoded bits, the lock-in flag, and the half-bit-seen flag. */
  datatype Line = Line(ring: Ring<bool>, locked: bool, change: bool) {
    predicate Valid() { ring.Valid() }
  }

  // ----- Manchester

  function ManStep(l: Line, long: nat, p: Pulse): (r: Line)
    requires l.Valid() && p.Pulse?
    ensures r.Valid()
  {
    if p.clocks == long then
      // out of step: drop what was decoded so far
      var ring := if l.change then l.ring.(rd := l.ring.wr) else l.ring;
      Line(ring.Push(p.high), true, false)
    else if !l.locked then
      if p.high then Line(l.ring, true, true) else l
    else if l.change then Line(l.ring.Push(p.high), true, false)
    else l.(change := true)
  }

  predicate Pulses(ps: seq<Pulse>) { forall i :: 0 <= i < |ps| ==> ps[i].Pulse? }

  function ManAll(l: Line, long: nat, ps: seq<Pulse>): (r: Line)
    requires l.Valid() && Pulses(ps)
    ensures r.Valid()
  {
    if ps == [] then l else ManStep(ManAll(l, long, ps[..|ps| - 1]), long, ps[|ps| - 1])
  }

  // ----- biphase

  function BipStep(l: Line, long: nat, p: Pulse): (r: Line)
    requires l.Valid() && p.Pulse?
    ensures r.Valid()
  {
    if p.clocks == long then Line(l.ring.Push(true), true, false)
    else if l.locked && l.change then Line(l.ring.Push(false), true, false)
    else l.(change := true)
  }

  /** A pulse that is neither short nor long: not biphase, so what was decoded is dropped. */
  function BipGiveUp(l: Line): (r: Line)
    requires l.Valid()
    ensures r.Valid()
  {
    Line(l.ring.(rd := l.ring.wr), false, l.change)
  }

  /** The line and whether every pulse was short or long; the first that is neither empties the queue. */
  function BipAll(l: Line, short: nat, long: nat, ps: seq<Pulse>): (r: (Line, bool))
    requires l.Valid() && Pulses(ps)
    ensures r.0.Valid()
  {
    if ps == [] then (l, true)
    else
      var (m, ok) := BipAll(l, short, long, ps[..|ps| - 1]);
      var p := ps[|ps| - 1];
      if !ok then (m, false)
      else if p.clocks == long || p.clocks == short then (BipStep(m, long, p), true)
      else (BipGiveUp(m), false)
  }

  // ----- how the pulses are cut into calls does not matter

  lemma {:induction false} ManSplit(l: Line, long: nat, a: seq<Pulse>, b: seq<Pulse>)
    requires l.Valid() && Pulses(a) && Pulses(b)
    ensures Pulses(a + b) && ManAll(l, long, a + b) == ManAll(ManAll(l, long, a), long, b)
    decreases |b|
  {
    if b == [] {
      assert a + b == a;
    } else {
      assert (a + b)[..|a + b| - 1] == a + b[..|b| - 1];
      ManSplit(l, long, a, b[..|b| - 1]);
    }
  }

  lemma {:induction false} BipSplit(l: Line, short: nat, long: nat, a: seq<Pulse>, b: seq<Pulse>)
    requires l.Valid() && Pulses(a) && Pulses(b) && BipAll(l, short, long, a).1
    ensures Pulses(a + b) && BipAll(l, short, long, a + b) == BipAll(BipAll(l, short, long, a).0, short, long, b)
    decreases |b|
  {
    if b == [] {
      assert a + b == a;
    } else {
      assert (a + b)[..|a + b| - 1] == a + b[..|b| - 1];
      BipSplit(l, short, long, a, b[..|b| - 1]);
    }
  }
}
