/** The GPS device object: a ring of 256 bytes with one-byte pointers, and the loop that empties it. */
module GpsDevice {
  import opened Rings
  import opened Octets
  import opened Gps

  /** p + i in one byte. */
  function Wrap(p: Byte, i: nat): (s: Byte)
    requires i <= 256
  {
    if p + i < 256 then p + i else p + i - 256
  }

  function Between(rd: Byte, wr: Byte): (n: nat)
    ensures n <= 255
  {
    if wr >= rd then wr - rd else wr - rd + 256
  }

  /** The bytes from one pointer up to the other. */
  function Bytes(buf: seq<Byte>, rd: Byte, wr: Byte): (q: seq<Byte>)
    requires |buf| == 256
    ensures |q| == Between(rd, wr)
  {
    seq(Between(rd, wr), i requires 0 <= i <= 256 => buf[Wrap(rd, i)])
  }

  class GpsPhidget {
    const sckbuf: array<Byte>
    var sckbuf_write: Byte
    var sckbuf_read: Byte

    /** The messages handed on, oldest first. */
    var messages: seq<Message>

    ghost predicate Valid() { sckbuf.Length == 256 }

    ghost function Queue(): (q: seq<Byte>)
      reads this`sckbuf_read, this`sckbuf_write, sckbuf
      requires Valid()
      ensures |q| == Between(sckbuf_read, sckbuf_write)
    {
      Bytes(sckbuf[..], sckbuf_read, sckbuf_write)
    }

    method PushByte(b: Byte)
      requires Valid()
      modifies this`sckbuf_write, sckbuf
      ensures Queue() == Push(old(Queue()), b)
    {
      sckbuf[sckbuf_write] := b;
      sckbuf_write := Wrap(sckbuf_write, 1);
      assert |Queue()| == |Push(old(Queue()), b)|;
    }

    /** Move the read pointer past n bytes of the queue. */
    method Drop(n: nat)
      requires Valid() && n <= |Queue()|
      modifies this`sckbuf_read
      ensures Queue() == old(Queue())[n..]
    {
      sckbuf_read := Wrap(sckbuf_read, n);
      assert |Queue()| == |old(Queue())[n..]|;
    }

    /** Drop bytes until one that can start a message is in front. */
    method SkipToStart()
      requires Valid()
      modifies this`sckbuf_read
      ensures Queue() == Advance(old(Queue()))
    {
      var i := 0;
      while i < 255 && sckbuf_read != sckbuf_write
        invariant 0 <= i <= 255 && i + |Queue()| == |old(Queue())|
        invariant Advance(Queue()) == Advance(old(Queue()))
      {
        assert sckbuf[sckbuf_read] == Queue()[0];
        if sckbuf[sckbuf_read] == DOLLAR || sckbuf[sckbuf_read] == SKYTRAQ { break; }
        i := i + 1;
        Drop(1);
      }
      assert Queue() != [] ==> sckbuf[sckbuf_read] == Queue()[0];
    }

    /** Read msgsize bytes. */
    method ReadBytes(msgsize: nat) returns (tempbuffer: seq<Byte>)
      requires Valid() && msgsize <= |Queue()|
      modifies this`sckbuf_read
      ensures tempbuffer == old(Queue())[..msgsize] && Queue() == old(Queue())[msgsize..]
    {
      ghost var q := Queue();
      tempbuffer := [];
      var i := 0;
      while i < msgsize
        invariant 0 <= i <= msgsize && tempbuffer == q[..i] && Queue() == q[i..]
      {
        assert sckbuf[sckbuf_read] == Queue()[0] == q[i];
        tempbuffer := tempbuffer + [sckbuf[sckbuf_read]];
        Drop(1);
        i := i + 1;
      }
    }

    /** The index of the first newline; 0 stands for none. */
    method FindEnd(current_queuesize: nat) returns (msgsize: nat)
      requires Valid() && current_queuesize == |Queue()|
      ensures msgsize <= |Queue()|
      ensures Find(Queue()) == Some(msgsize) || (msgsize == 0 && Find(Queue()) == None)
    {
      var temp := sckbuf_read;
      var i := 0;
      while i < current_queuesize
        invariant 0 <= i <= current_queuesize && temp == Wrap(sckbuf_read, i)
        invariant NEWLINE !in Queue()[..i]
      {
        assert sckbuf[temp] == Queue()[i];
        if sckbuf[temp] == NEWLINE {
          FindAt(Queue(), i);
          return i;
        }
        i := i + 1;
        temp := Wrap(temp, 1);
      }
      assert Queue()[..i] == Queue();
      return 0;
    }

    /** One pass. Taking a response of size 0 is taking nothing: spins says that the loop can never end. */
    method ParseOnce() returns (result: bool, spins: bool)
      requires Valid()
      modifies this`sckbuf_read, this`messages
      ensures match One(old(Queue()))
        case Wait(rest) => !result && !spins && Queue() == rest && messages == old(messages)
        case Spin(rest) => result && spins && Queue() == rest && messages == old(messages) + [Response([])]
        case Take(m, rest) => result && !spins && Queue() == rest && messages == old(messages) + [m]
    {
      hide Find, Advance;
      spins := false;
      SkipToStart();
      ghost var s := Queue();
      var current_queuesize := Between(sckbuf_read, sckbuf_write);
      var size3 := sckbuf[Wrap(sckbuf_read, 3)];
      assert s != [] ==> sckbuf[sckbuf_read] == s[0];
      if sckbuf[sckbuf_read] == SKYTRAQ {
        if current_queuesize < 4 { return false, false; }
        assert size3 == s[3];
        var msgsize := ResponseSize(size3);
        if current_queuesize < msgsize { return false, false; }
        var tempbuffer := ReadBytes(msgsize);
        messages := messages + [Response(tempbuffer)];
        spins := msgsize == 0;
        assert spins ==> Queue() == s;
      } else {
        var msgsize := FindEnd(current_queuesize);
        if msgsize == 0 { NoNewlineAtStart(s); return false, false; }
        var tempbuffer := ReadBytes(msgsize);
        if current_queuesize >= 6 && StartsGP(tempbuffer) {
          messages := messages + [Nmea(tempbuffer)];
        } else {
          messages := messages + [Other(tempbuffer)];
        }
      }
      result := true;
    }

    /** parse_GPS_packets; spins says that the source never comes back. */
    method ParsePackets() returns (spins: bool)
      requires Valid()
      modifies this`sckbuf_read, this`messages
      ensures var r := Parse(old(Queue())); Queue() == r.rest && spins == r.spins
      ensures var ms := old(messages) + Parse(old(Queue())).messages;
        messages == if spins then ms + [Response([])] else ms
    {
      hide One;
      var result := true;
      spins := false;
      ghost var taken := [];
      ghost var r := Parse(Queue());
      assert messages == old(messages) + taken;
      while result && !spins
        invariant messages == old(messages) + taken + (if spins then [Response([])] else [])
        invariant r == if result && !spins then Joined(taken, Parse(Queue())) else Parsed(taken, Queue(), spins)
        decreases result && !spins, |Queue()|
      {
        Unroll(taken, Queue());
        taken := taken + (if One(Queue()).Take? then [One(Queue()).message] else []);
        result, spins := ParseOnce();
      }
    }

    /** dataInput: the first byte says how many follow. */
    method DataInput(buffer: seq<Byte>) returns (spins: bool)
      requires Valid() && buffer != [] && buffer[0] < |buffer|
      modifies this`sckbuf_read, this`sckbuf_write, this`messages, sckbuf
      ensures var r := Parse(PushAll(old(Queue()), buffer[1..buffer[0] + 1]));
        && Queue() == r.rest && spins == r.spins
        && messages == old(messages) + r.messages + (if spins then [Response([])] else [])
    {
      hide Push, Parse;
      ghost var q, data := Queue(), buffer[1..buffer[0] + 1];
      var i := 0;
      assert data[..0] == [];
      while i < buffer[0]
        invariant 0 <= i <= buffer[0] && Queue() == PushAll(q, data[..i]) && messages == old(messages)
      {
        assert data[..i + 1][..i] == data[..i] && data[i] == buffer[i + 1];
        PushByte(buffer[i + 1]);
        i := i + 1;
      }
      assert data[..i] == data;
      spins := ParsePackets();
    }
  }

  function Joined(taken: seq<Message>, r: Parsed): Parsed { Parsed(taken + r.messages, r.rest, r.spins) }

  lemma Unroll(taken: seq<Message>, q: seq<Byte>)
    ensures Joined(taken, Parse(q)) ==
      match One(q)
      case Wait(rest) => Parsed(taken, rest, false)
      case Spin(rest) => Parsed(taken, rest, true)
      case Take(m, rest) => Joined(taken + [m], Parse(rest))
  {
    hide One;
    match One(q)
    case Wait(_) => assert taken + [] == taken;
    case Spin(_) => assert taken + [] == taken;
    case Take(m, rest) => assert taken + ([m] + Parse(rest).messages) == taken + [m] + Parse(rest).messages;
  }

  lemma NoNewlineAtStart(s: seq<Byte>)
    requires s == [] || Start(s[0])
    ensures Find(s) != Some(0)
  {
  }
}
