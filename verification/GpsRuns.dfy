/** Whole runs of the GPS parser: how the stream is cut into packets does not matter. */
module GpsRuns {
  import opened Octets
  import opened Gps

  function Concat(packets: seq<seq<Byte>>): seq<Byte> {
    if packets == [] then [] else Concat(packets[..|packets| - 1]) + packets[|packets| - 1]
  }

  /** Packet by packet; a call that never returns ends the run. */
  function Run(packets: seq<seq<Byte>>): (r: Parsed)
    ensures |r.rest| <= 255
  {
    if packets == [] then Parsed([], [], false)
    else
      var r := Run(packets[..|packets| - 1]);
      if r.spins then r
      else
        var p := Parse(PushAll(r.rest, packets[|packets| - 1]));
        Parsed(r.messages + p.messages, p.rest, p.spins)
  }

  /** The ring never overflows, unless the run has ended. */
  predicate Fits(packets: seq<seq<Byte>>) {
    packets == [] ||
    var r := Run(packets[..|packets| - 1]);
    Fits(packets[..|packets| - 1]) && (r.spins || |r.rest| + |packets[|packets| - 1]| <= 255)
  }

  /** No pass of any call takes a $GP line while fewer than six bytes are queued. */
  predicate NeverShortInRun(packets: seq<seq<Byte>>) {
    packets == [] ||
    var r := Run(packets[..|packets| - 1]);
    NeverShortInRun(packets[..|packets| - 1]) && (r.spins || NeverShort(r.rest + packets[|packets| - 1]))
  }

  lemma LongEnoughParts(a: seq<Message>, b: seq<Message>)
    requires LongEnough(a + b)
    ensures LongEnough(a) && LongEnough(b)
  {
    forall i | 0 <= i < |a| && a[i].Nmea? ensures |a[i].text| >= 5 { assert (a + b)[i] == a[i]; }
    forall i | 0 <= i < |b| && b[i].Nmea? ensures |b[i].text| >= 5 { assert (a + b)[|a| + i] == b[i]; }
  }

  /**
   * How the stream is cut into packets matters to nothing but the names of short $GP lines: the messages handed
   * on, whether a call never returns, and else the bytes left over are those of the whole stream, and the names
   * are too just when no pass of any call takes a $GP line while fewer than six bytes are queued.
   */
  lemma {:induction false} PacketsDoNotMatter(packets: seq<seq<Byte>>)
    requires Fits(packets)
    ensures var r, c := Run(packets), Cut(Concat(packets));
      && c.messages == NamedAll(r.messages) && c.spins == r.spins && (!c.spins ==> c.rest == r.rest)
      && (c.messages == r.messages <==> NeverShortInRun(packets))
    decreases |packets|
  {
    hide Cut, Parse, NeverShort, Named, PushAll;
    if packets == [] {
      CutNothing();
    } else {
      var before, last := packets[..|packets| - 1], packets[|packets| - 1];
      PacketsDoNotMatter(before);
      var r := Run(before);
      if r.spins {
        SpinsOn(Concat(before), last);
      } else {
        CutCompose(Concat(before), last);
        PushAllFits(r.rest, last);
        ParseIsCutIff(r.rest + last);
        var p := Parse(r.rest + last);
        NamedJoin(r.messages, p.messages);
        assert p == Cut(r.rest + last) <==> NamedAll(p.messages) == p.messages;
      }
    }
  }

  lemma NamedJoin(a: seq<Message>, b: seq<Message>)
    ensures NamedAll(a + b) == NamedAll(a) + NamedAll(b)
    ensures NamedAll(a + b) == a + b <==> NamedAll(a) == a && NamedAll(b) == b
  {
    hide Named;
    assert NamedAll(a + b) == NamedAll(a) + NamedAll(b);
    assert (a + b)[..|a|] == a && (a + b)[|a|..] == b;
    assert NamedAll(a + b)[..|a|] == NamedAll(a) && NamedAll(a + b)[|a|..] == NamedAll(b);
  }

  lemma CutNothing()
    ensures Cut([]) == Parsed([], [], false)
  {
  }

  lemma {:induction false} RestOfSpin(a: seq<Byte>)
    requires Cut(a).spins
    ensures One(Cut(a).rest).Spin? && One(Cut(a).rest).rest == Cut(a).rest
    decreases |a|
  {
    hide Advance, Line, Binary;
    match One(a)
    case Wait(_) =>
    case Spin(rest) => GoesOnOrSpins(a); SpinStays(a, []); assert rest + [] == rest;
    case Take(_, rest) => RestOfSpin(rest);
  }

  /** Nothing more is handed on once the parser spins. */
  lemma SpinsOn(a: seq<Byte>, b: seq<Byte>)
    requires Cut(a).spins
    ensures Cut(a + b).spins && Cut(a + b).messages == Cut(a).messages
  {
    hide One, Named;
    CutCompose(a, b);
    RestOfSpin(a);
    OneMore(Cut(a).rest, b);
    assert Cut(Cut(a).rest + b).messages == [];
    assert Cut(a).messages + [] == Cut(a).messages;
  }

  // ----- NMEA 0183 streams

  /** A sentence up to its newline: at most 82 characters with it. */
  predicate Sentence(s: seq<Byte>) {
    5 <= |s| <= 81 && s[0] == DOLLAR && s[1] == G && s[2] == P && NEWLINE !in s
  }

  /** The beginning of one. */
  predicate Beginning(s: seq<Byte>) { |s| <= 81 && NEWLINE !in s && (s != [] ==> s[0] == DOLLAR) }

  function Stream(ss: seq<seq<Byte>>): seq<Byte> {
    if ss == [] then [] else ss[0] + [NEWLINE] + Stream(ss[1..])
  }

  predicate Sentences(ss: seq<seq<Byte>>) { forall i :: 0 <= i < |ss| ==> Sentence(ss[i]) }

  function AllNmea(ss: seq<seq<Byte>>): (ms: seq<Message>)
    ensures |ms| == |ss|
  {
    seq(|ss|, i requires 0 <= i < |ss| => Nmea(ss[i]))
  }

  lemma TakeSentence(s: seq<Byte>, more: seq<Byte>)
    requires Sentence(s)
    ensures One(s + [NEWLINE] + more) == Take(Nmea(s), [NEWLINE] + more)
  {
    var q := s + [NEWLINE] + more;
    assert q[..|s|] == s && q[|s|..] == [NEWLINE] + more;
    FindAt(q, |s|);
  }

  lemma SkipNewline(more: seq<Byte>)
    ensures Cut([NEWLINE] + more) == Cut(more)
  {
    var q := [NEWLINE] + more;
    assert q[1..] == more;
    assert Advance(q) == Advance(more);
    CutUnfold(q, more);
  }

  lemma CutSentence(s: seq<Byte>, more: seq<Byte>)
    requires Sentence(s)
    ensures var r := Cut(more); Cut(s + [NEWLINE] + more) == Parsed([Nmea(s)] + r.messages, r.rest, r.spins)
  {
    hide One;
    TakeSentence(s, more);
    SkipNewline(more);
  }

  lemma StreamStep(ss: seq<seq<Byte>>, part: seq<Byte>)
    requires ss != []
    ensures Stream(ss) + part == ss[0] + [NEWLINE] + (Stream(ss[1..]) + part)
  {
  }

  lemma {:induction false} CutStream(ss: seq<seq<Byte>>, part: seq<Byte>)
    requires Sentences(ss) && Beginning(part)
    ensures Cut(Stream(ss) + part) == Parsed(AllNmea(ss), part, false)
    decreases |ss|
  {
    hide Sentence, Cut;
    if ss == [] {
      assert [] + part == part;
      CutBeginning(part);
    } else {
      StreamStep(ss, part);
      hide Stream;
      CutSentence(ss[0], Stream(ss[1..]) + part);
      CutStream(ss[1..], part);
      assert [Nmea(ss[0])] + AllNmea(ss[1..]) == AllNmea(ss);
    }
  }

  lemma CutBeginning(part: seq<Byte>)
    requires Beginning(part)
    ensures Cut(part) == Parsed([], part, false)
  {
    assert Advance(part) == part;
    if part != [] { assert Find(part).None?; }
  }

  lemma PrefixInFirst(s: seq<Byte>, tail: seq<Byte>, k: nat)
    requires k <= |s|
    ensures (s + [NEWLINE] + tail)[..k] == s[..k]
  {
  }

  lemma PrefixBeyondFirst(s: seq<Byte>, tail: seq<Byte>, k: nat)
    requires |s| < k <= |s| + 1 + |tail|
    ensures (s + [NEWLINE] + tail)[..k] == s + [NEWLINE] + tail[..k - |s| - 1]
  {
  }

  lemma StreamOfFirst(ss: seq<seq<Byte>>, j: nat)
    requires 0 < j <= |ss|
    ensures Stream(ss[..j]) == ss[0] + [NEWLINE] + Stream(ss[1..][..j - 1])
  {
    assert ss[..j][0] == ss[0] && ss[..j][1..] == ss[1..][..j - 1];
  }

  lemma BeginningOf(s: seq<Byte>, k: nat)
    requires k <= |s| && (Sentence(s) || Beginning(s))
    ensures Beginning(s[..k])
  {
  }

  lemma NoSentences(ss: seq<seq<Byte>>, part: seq<Byte>)
    ensures Stream(ss[..0]) + part == part
  {
  }

  /** Any beginning of a stream is some sentences and the beginning of one more. */
  lemma {:induction false} AnyPrefix(ss: seq<seq<Byte>>, part: seq<Byte>, k: nat) returns (j: nat, rest: seq<Byte>)
    requires Sentences(ss) && Beginning(part) && k <= |Stream(ss) + part|
    ensures j <= |ss| && Beginning(rest) && (Stream(ss) + part)[..k] == Stream(ss[..j]) + rest
    decreases |ss|
  {
    hide Beginning, Sentence;
    if ss == [] {
      NoSentences(ss, part);
      NoSentences(ss, part[..k]);
      BeginningOf(part, k);
      return 0, part[..k];
    }
    var s, tail := ss[0], Stream(ss[1..]) + part;
    StreamStep(ss, part);
    hide Stream;
    if k <= |s| {
      PrefixInFirst(s, tail, k);
      NoSentences(ss, s[..k]);
      BeginningOf(s, k);
      return 0, s[..k];
    }
    j, rest := AnyPrefix(ss[1..], part, k - |s| - 1);
    PrefixBeyondFirst(s, tail, k);
    StreamOfFirst(ss, j + 1);
    Regroup(s, Stream(ss[1..][..j]), rest);
    j := j + 1;
  }

  lemma Regroup(s: seq<Byte>, t: seq<Byte>, rest: seq<Byte>)
    ensures s + [NEWLINE] + (t + rest) == (s + [NEWLINE] + t) + rest
  {
  }

  lemma {:induction false} LongEnoughRun(packets: seq<seq<Byte>>)
    requires Fits(packets) && LongEnough(Cut(Concat(packets)).messages) && !Cut(Concat(packets)).spins
    ensures NeverShortInRun(packets)
    decreases |packets|
  {
    hide Cut, Run, LongEnough, NeverShort;
    if packets != [] {
      var before, last := packets[..|packets| - 1], packets[|packets| - 1];
      PacketsDoNotMatter(before);
      var r := Cut(Concat(before));
      if r.spins {
        SpinsOn(Concat(before), last);
      } else {
        CutCompose(Concat(before), last);
        LongEnoughParts(r.messages, Cut(r.rest + last).messages);
        LongEnoughRun(before);
        LongEnoughIsNeverShort(r.rest + last);
      }
    }
  }

  lemma AllLongEnough(ss: seq<seq<Byte>>)
    requires Sentences(ss)
    ensures LongEnough(AllNmea(ss))
  {
  }

  /**
   * NMEA sentences in packets of at most 63 bytes, cut anywhere: the ring never overflows, exactly the sentences
   * are handed on, in order, and what is left is the beginning of the next one.
   */
  lemma {:induction false} NmeaStream(ss: seq<seq<Byte>>, part: seq<Byte>, packets: seq<seq<Byte>>)
    requires Sentences(ss) && Beginning(part) && Concat(packets) == Stream(ss) + part
    requires forall i :: 0 <= i < |packets| ==> |packets[i]| <= 63
    ensures Fits(packets) && Run(packets) == Parsed(AllNmea(ss), part, false)
    decreases |packets|
  {
    hide Sentence, Cut, Run, NeverShortInRun, LongEnough, AllNmea, Stream;
    CutStream(ss, part);
    if packets != [] {
      var before := packets[..|packets| - 1];
      var k := |Concat(before)|;
      var j, rest := AnyPrefix(ss, part, k);
      assert Concat(before) == Concat(packets)[..k];
      assert Sentences(ss[..j]);
      NmeaStream(ss[..j], rest, before);
    }
    AllLongEnough(ss);
    LongEnoughRun(packets);
    PacketsDoNotMatter(packets);
  }
}
