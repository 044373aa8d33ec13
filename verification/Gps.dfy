/** The GPS receiver's byte queue as a value, and how it is cut into messages. */
module Gps {
  import opened Rings
  import opened Octets

  const DOLLAR: Byte := 36
  const NEWLINE: Byte := 10
  const G: Byte := 71
  const P: Byte := 80
  const SKYTRAQ: Byte := 0xa0

  /** An NMEA sentence without its newline, another line that starts with a dollar sign, or a binary response. */
  datatype Message = Nmea(text: seq<Byte>) | Other(text: seq<Byte>) | Response(bytes: seq<Byte>)

  /** One pass of the parser: it stops, takes a message, or goes on without having taken anything. */
  datatype Pass = Wait(rest: seq<Byte>) | Take(message: Message, rest: seq<Byte>) | Spin(rest: seq<Byte>)

  predicate Start(b: Byte) { b == DOLLAR || b == SKYTRAQ }

  /** Advance to a dollar sign or 0xa0. */
  function Advance(q: seq<Byte>): (r: seq<Byte>)
    ensures |r| <= |q| && (r != [] ==> Start(r[0]))
  {
    if q == [] || Start(q[0]) then q else Advance(q[1..])
  }

  /** Where the first newline is. */
  function Find(q: seq<Byte>): (r: Option<nat>)
    ensures r.Some? ==> r.value < |q| && q[r.value] == NEWLINE && forall i :: 0 <= i < r.value ==> q[i] != NEWLINE
    ensures r.None? ==> forall i :: 0 <= i < |q| ==> q[i] != NEWLINE
  {
    if q == [] then None
    else if q[0] == NEWLINE then Some(0)
    else
      match Find(q[1..])
      case None => None
      case Some(n) => Some(n + 1)
  }

  lemma FindAt(q: seq<Byte>, n: nat)
    requires n < |q| && q[n] == NEWLINE && NEWLINE !in q[..n]
    ensures Find(q) == Some(n)
  {
    forall i | 0 <= i < n ensures q[i] != NEWLINE { assert q[i] == q[..n][i]; }
  }

  predicate StartsGP(text: seq<Byte>) { |text| >= 3 && text[1] == G && text[2] == P }

  /** The size of a binary response, computed in one byte. */
  function ResponseSize(length: Byte): (n: nat)
    ensures n < 256
  {
    (7 + length) % 256
  }

  function Line(s: seq<Byte>, n: nat): Pass
    requires n < |s|
  {
    Take(if |s| >= 6 && StartsGP(s[..n]) then Nmea(s[..n]) else Other(s[..n]), s[n..])
  }

  function Binary(s: seq<Byte>): Pass {
    if |s| < 4 || |s| < ResponseSize(s[3]) then Wait(s)
    else if ResponseSize(s[3]) == 0 then Spin(s)
    else Take(Response(s[..ResponseSize(s[3])]), s[ResponseSize(s[3])..])
  }

  /** A line is handed on as NMEA if it starts with $GP and the whole queue holds at least six bytes. */
  function One(q: seq<Byte>): (r: Pass)
    ensures r.Take? ==> |r.rest| < |q|
  {
    var s := Advance(q);
    if s == [] then Wait(s)
    else if s[0] == SKYTRAQ then Binary(s)
    else if Find(s).None? then Wait(s)
    else Line(s, Find(s).value)
  }

  /** What a call of the parser hands on, what it leaves in the queue, and whether it never returns. */
  datatype Parsed = Parsed(messages: seq<Message>, rest: seq<Byte>, spins: bool)

  function Parse(q: seq<Byte>): (r: Parsed)
    ensures |r.rest| <= |q|
    decreases |q|
  {
    match One(q)
    case Wait(rest) => Parsed([], rest, false)
    case Spin(rest) => Parsed([], rest, true)
    case Take(m, rest) =>
      var r := Parse(rest);
      Parsed([m] + r.messages, r.rest, r.spins)
  }

  // ----- the ring

  /** A byte too many makes a full ring look empty. */
  function Push(q: seq<Byte>, b: Byte): (r: seq<Byte>)
    requires |q| <= 255
    ensures |r| <= 255
  {
    if |q| == 255 then [] else q + [b]
  }

  function PushAll(q: seq<Byte>, data: seq<Byte>): (r: seq<Byte>)
    requires |q| <= 255
    ensures |r| <= 255
  {
    if data == [] then q else Push(PushAll(q, data[..|data| - 1]), data[|data| - 1])
  }

  lemma {:induction false} PushAllFits(q: seq<Byte>, data: seq<Byte>)
    requires |q| + |data| <= 255
    ensures PushAll(q, data) == q + data
  {
    if data == [] {
      assert q + data == q;
    } else {
      PushAllFits(q, data[..|data| - 1]);
    }
  }

  // ----- progress

  /** A pass that goes on takes at least one byte, unless a response says that its length is 249. */
  lemma GoesOnOrSpins(q: seq<Byte>)
    ensures One(q).Take? ==> |One(q).rest| < |q|
    ensures One(q).Spin? <==> (var s := Advance(q); |s| >= 4 && s[0] == SKYTRAQ && s[3] == 249)
    ensures One(q).Spin? ==> One(One(q).rest) == One(q)
  {
    var s := Advance(q);
    if s != [] { assert Advance(s) == s; }
  }

  // ----- binary responses

  /** A response as the receiver sends it: two start bytes, the length, the payload, its checksum, two end bytes. */
  function Framed(payload: seq<Byte>, checksum: Byte): (f: seq<Byte>)
    requires |payload| < 256
    ensures |f| == |payload| + 7
  {
    [SKYTRAQ, 0xa1, 0, |payload|] + payload + [checksum, 13, 10]
  }

  lemma FrameFirst(payload: seq<Byte>, checksum: Byte, more: seq<Byte>)
    requires |payload| < 256
    ensures var f := Framed(payload, checksum); var q := f + more;
      && One(q) == Binary(q) && q[0] == SKYTRAQ && q[3] == |payload| && q[..|f|] == f && q[|f|..] == more
  {
    var f := Framed(payload, checksum);
    assert f[0] == SKYTRAQ && f[3] == |payload|;
  }

  /**
   * A response is handed on whole and the next message looked for behind it, just when its payload is at most 248 bytes
   * long: above, the size computed in one byte is too small.
   */
  lemma ResponseWholeIff(payload: seq<Byte>, checksum: Byte, more: seq<Byte>)
    requires |payload| < 256
    ensures var f := Framed(payload, checksum);
      && (One(f + more) == Take(Response(f), more) <==> |payload| <= 248)
      && (|payload| <= 248 ==>
            var r := Parse(more); Parse(f + more) == Parsed([Response(f)] + r.messages, r.rest, r.spins))
  {
    FrameFirst(payload, checksum, more);
    hide Framed, One;
    var f := Framed(payload, checksum);
    var q := f + more;
    if |payload| > 248 { assert ResponseSize(q[3]) < |f|; }
  }

  /** Of a longer one only the first bytes are handed on, and with 249 none ever. */
  lemma LongResponseCut(payload: seq<Byte>, checksum: Byte, more: seq<Byte>)
    requires 249 <= |payload| < 256
    ensures var q := Framed(payload, checksum) + more; var n := |payload| - 249;
      One(q) == if n == 0 then Spin(q) else Take(Response(q[..n]), q[n..])
  {
    FrameFirst(payload, checksum, more);
    hide Framed, One;
  }

  // ----- cutting the stream

  /** The same, but a line is NMEA because it starts with $GP, whatever follows it. */
  function Cut(q: seq<Byte>): (r: Parsed)
    ensures |r.rest| <= |q|
    decreases |q|
  {
    match One(q)
    case Wait(rest) => Parsed([], rest, false)
    case Spin(rest) => Parsed([], rest, true)
    case Take(m, rest) =>
      var r := Cut(rest);
      Parsed([Named(m)] + r.messages, r.rest, r.spins)
  }

  function Named(m: Message): Message {
    if m.Other? && StartsGP(m.text) then Nmea(m.text) else m
  }

  function NamedAll(ms: seq<Message>): (r: seq<Message>)
    ensures |r| == |ms|
  {
    seq(|ms|, i requires 0 <= i < |ms| => Named(ms[i]))
  }

  /** Before the next pass only a few bytes are queued, and a $GP line among them. */
  predicate TakesShort(q: seq<Byte>) {
    var s := Advance(q);
    s != [] && s[0] == DOLLAR && |s| < 6 && Find(s).Some? && StartsGP(s[..Find(s).value])
  }

  /** No pass takes a $GP line while fewer than six bytes are queued. */
  predicate NeverShort(q: seq<Byte>)
    decreases |q|
  {
    !TakesShort(q) && (One(q).Take? ==> NeverShort(One(q).rest))
  }

  lemma OneNamed(q: seq<Byte>)
    requires One(q).Take?
    ensures Named(One(q).message) == One(q).message <==> !TakesShort(q)
  {
    hide Find;
  }

  /**
   * The parser cuts its queue as the stream is to be cut, except for the names of some messages; and those
   * agree as well just when no pass takes a $GP line while fewer than six bytes are queued.
   */
  lemma {:induction false} ParseIsCutIff(q: seq<Byte>)
    ensures var p := Parse(q); Cut(q) == Parsed(NamedAll(p.messages), p.rest, p.spins)
    ensures Parse(q) == Cut(q) <==> NeverShort(q)
    decreases |q|
  {
    hide One, Named, TakesShort;
    var p := Parse(q);
    match One(q)
    case Wait(_) => NotTaken(q);
    case Spin(_) => NotTaken(q);
    case Take(m, rest) =>
      OneNamed(q);
      ParseIsCutIff(rest);
      var ms := Parse(rest).messages;
      assert p.messages == [m] + ms;
      assert NamedAll(p.messages) == [Named(m)] + NamedAll(ms);
      if Named(m) == m && NamedAll(ms) == ms {
        assert Cut(q) == p;
      } else {
        assert p.messages[0] == m && p.messages[1..] == ms;
        assert Cut(q).messages[0] == Named(m) && Cut(q).messages[1..] == NamedAll(ms);
      }
  }

  lemma NotTaken(q: seq<Byte>)
    requires !One(q).Take?
    ensures !TakesShort(q)
  {
    hide Find;
  }

  /** No NMEA sentence is too short to fill six bytes with its newline. */
  predicate LongEnough(messages: seq<Message>) {
    forall i :: 0 <= i < |messages| && messages[i].Nmea? ==> |messages[i].text| >= 5
  }

  lemma {:induction false} LongEnoughIsNeverShort(q: seq<Byte>)
    requires LongEnough(Cut(q).messages)
    ensures NeverShort(q)
    decreases |q|
  {
    hide Find;
    match One(q)
    case Wait(_) => NotTaken(q);
    case Spin(_) => NotTaken(q);
    case Take(m, rest) =>
      var ms := Cut(rest).messages;
      forall i | 0 <= i < |ms| && ms[i].Nmea? ensures |ms[i].text| >= 5 {
        assert Cut(q).messages[i + 1] == ms[i];
      }
      assert Cut(q).messages[0] == Named(m);
      LongEnoughIsNeverShort(rest);
  }

  lemma FirstLine(text: seq<Byte>, more: seq<Byte>)
    requires text != [] && text[0] == DOLLAR && NEWLINE !in text
    ensures var q := text + [NEWLINE] + more; One(q) == Line(q, |text|) && q[..|text|] == text
    ensures One(text + [NEWLINE] + more).rest == [NEWLINE] + more
  {
    var q := text + [NEWLINE] + more;
    assert q[..|text|] == text && q[|text|..] == [NEWLINE] + more;
    FindAt(q, |text|);
  }

  lemma NoLine(q: seq<Byte>)
    requires NEWLINE !in q && SKYTRAQ !in q
    ensures Parse([NEWLINE] + q).messages == []
  {
    var r := [NEWLINE] + q;
    assert r[1..] == q && Advance(r) == Advance(q);
    AdvanceSuffix(q);
    assert Find(Advance(q)) == None;
  }

  lemma {:induction false} AdvanceSuffix(q: seq<Byte>)
    ensures forall b :: b in Advance(q) ==> b in q
  {
    if q != [] && !Start(q[0]) { AdvanceSuffix(q[1..]); }
  }

  /** The same line, alone and with two more bytes queued behind it. */
  lemma ShortSentenceDependsOnQueue()
    ensures Parse([DOLLAR, G, P, NEWLINE]).messages == [Other([DOLLAR, G, P])]
    ensures Parse([DOLLAR, G, P, NEWLINE, DOLLAR, G]).messages == [Nmea([DOLLAR, G, P])]
  {
    hide One, Parse;
    ShortLine([]);
    ShortLine([DOLLAR, G]);
    assert [DOLLAR, G, P] + [NEWLINE] + [] == [DOLLAR, G, P, NEWLINE];
    assert [DOLLAR, G, P] + [NEWLINE] + [DOLLAR, G] == [DOLLAR, G, P, NEWLINE, DOLLAR, G];
  }

  lemma ShortLine(more: seq<Byte>)
    requires NEWLINE !in more && SKYTRAQ !in more
    ensures Parse([DOLLAR, G, P] + [NEWLINE] + more).messages ==
      [if |more| >= 2 then Nmea([DOLLAR, G, P]) else Other([DOLLAR, G, P])]
  {
    hide One;
    FirstLine([DOLLAR, G, P], more);
    NoLine(more);
  }

  // ----- the cut does not depend on the packets

  lemma {:induction false} AdvanceMore(a: seq<Byte>, b: seq<Byte>)
    ensures Advance(a + b) == if Advance(a) == [] then Advance(b) else Advance(a) + b
  {
    if a == [] {
      assert a + b == b;
    } else if !Start(a[0]) {
      assert (a + b)[1..] == a[1..] + b;
      AdvanceMore(a[1..], b);
    }
  }

  lemma {:induction false} FindMore(a: seq<Byte>, b: seq<Byte>)
    ensures Find(a).Some? ==> Find(a + b) == Find(a)
  {
    if a != [] && a[0] != NEWLINE {
      assert (a + b)[1..] == a[1..] + b;
      FindMore(a[1..], b);
    }
  }

  lemma LineMore(s: seq<Byte>, b: seq<Byte>, n: nat)
    requires n < |s|
    ensures Named(Line(s + b, n).message) == Named(Line(s, n).message) && Line(s + b, n).rest == Line(s, n).rest + b
  {
    assert (s + b)[..n] == s[..n] && (s + b)[n..] == s[n..] + b;
  }

  lemma BinaryMore(s: seq<Byte>, b: seq<Byte>)
    ensures Binary(s).Take? ==> Binary(s + b) == Take(Binary(s).message, Binary(s).rest + b)
    ensures Binary(s).Spin? ==> Binary(s + b) == Spin(s + b)
  {
    if |s| >= 4 {
      var n := ResponseSize(s[3]);
      if n <= |s| { assert (s + b)[..n] == s[..n] && (s + b)[n..] == s[n..] + b; }
    }
  }

  /** A pass that need not wait does the same however much follows. */
  lemma OneMore(a: seq<Byte>, b: seq<Byte>)
    ensures One(a).Take? ==>
      One(a + b).Take? && Named(One(a + b).message) == Named(One(a).message) && One(a + b).rest == One(a).rest + b
    ensures One(a).Spin? ==> One(a + b).Spin? && One(a + b).rest == One(a).rest + b
    ensures One(a).Wait? ==> One(a + b) == One(One(a).rest + b)
  {
    hide Find, Named, Line, Binary;
    AdvanceMore(a, b);
    var s := Advance(a);
    if s == [] {
      assert [] + b == b;
    } else {
      FixedPoint(s, b);
      FindMore(s, b);
      BinaryMore(s, b);
      if Find(s).Some? { LineMore(s, b, Find(s).value); }
      LineTakes(s, b);
    }
  }

  lemma FixedPoint(s: seq<Byte>, b: seq<Byte>)
    requires s != [] && Start(s[0])
    ensures Advance(s + b) == s + b && (s + b)[0] == s[0]
  {
  }

  lemma LineTakes(s: seq<Byte>, b: seq<Byte>)
    ensures forall n: nat :: n < |s| ==> Line(s, n).Take? && Line(s + b, n).Take?
    ensures Binary(s).Wait? || Binary(s).Spin? ==> Binary(s).rest == s
  {
  }

  /** Cutting one piece of the stream and then what is left with the next is cutting both at once. */
  lemma {:induction false} CutCompose(a: seq<Byte>, b: seq<Byte>)
    ensures Cut(a + b) == (var r := Cut(a); var t := Cut(r.rest + b); Parsed(r.messages + t.messages, t.rest, t.spins))
    decreases |a|
  {
    hide One, Named;
    OneMore(a, b);
    match One(a)
    case Wait(rest) =>
      CutUnfold(a + b, rest + b);
      assert [] + Cut(rest + b).messages == Cut(rest + b).messages;
    case Spin(rest) =>
      SpinStays(a, b);
      assert Cut(rest + b).messages == [];
    case Take(m, rest) =>
      CutCompose(rest, b);
      var r, t := Cut(rest), Cut(Cut(rest).rest + b);
      assert [Named(m)] + (r.messages + t.messages) == [Named(m)] + r.messages + t.messages;
  }

  lemma CutUnfold(q: seq<Byte>, r: seq<Byte>)
    requires One(q) == One(r)
    ensures Cut(q) == Cut(r)
  {
    hide One, Named;
  }

  lemma SpinStays(a: seq<Byte>, b: seq<Byte>)
    requires One(a).Spin?
    ensures One(One(a).rest + b).Spin? && One(One(a).rest + b).rest == One(a).rest + b
  {
    var s := Advance(a);
    assert Advance(s + b) == s + b;
  }
}
