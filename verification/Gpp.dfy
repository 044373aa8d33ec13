/** The general packet protocol: firmware sectors and configuration tables cut into USB packets. */
module Gpp {
  import opened Modulo
  import opened Octets

  const FLAG: Byte := 0x80
  const CONTINUATION: Byte := 0x03
  const WRITE_SECTOR: Byte := 0x06

  const SECTOR: nat := 0x1000

  // ----- the device

  /** A sector as the device collects it: its number, its announced length, the bytes so far. */
  datatype Sector = Sector(index: nat, length: nat, bytes: seq<Byte>)

  /** A sector packet announces a length and begins a sector; a continuation fills the last one up. */
  function Accept(s: seq<Sector>, p: seq<Byte>): (r: seq<Sector>)
    requires 4 <= |p|
  {
    if p[0] == FLAG + WRITE_SECTOR then
      var length: nat := p[2] as int + 256 * p[3] as int;
      s + [Sector(p[1], length, p[4..4 + Least(length, |p| - 4)])]
    else if p[0] == FLAG + CONTINUATION && s != [] && |s[|s| - 1].bytes| <= s[|s| - 1].length then
      var last := s[|s| - 1];
      s[..|s| - 1] + [last.(bytes := last.bytes + p[1..1 + Least(last.length - |last.bytes|, |p| - 1)])]
    else s
  }

  predicate Packets(packets: seq<seq<Byte>>, size: nat) { forall k :: 0 <= k < |packets| ==> |packets[k]| == size }

  function Receive(packets: seq<seq<Byte>>, size: nat): (s: seq<Sector>)
    requires 4 <= size && Packets(packets, size)
  {
    if packets == [] then [] else Accept(Receive(packets[..|packets| - 1], size), packets[|packets| - 1])
  }

  function Joined(s: seq<Sector>): seq<Byte> {
    if s == [] then [] else Joined(s[..|s| - 1]) + s[|s| - 1].bytes
  }

  // ----- what it is to receive

  /** The highest sector number, less one: four bits of the length. */
  function Top(length: nat): (q: nat)
    ensures q < 16
  {
    length / SECTOR % 16
  }

  /** Where sector k ends in the data. */
  function End(length: nat, k: nat): (e: nat)
    requires 1 <= k <= Top(length) + 1
  {
    length % SECTOR + (Top(length) + 1 - k) * SECTOR
  }

  function Begin(length: nat, k: nat): (b: nat)
    requires 1 <= k <= Top(length) + 1
    ensures b <= End(length, k)
  {
    if k == Top(length) + 1 then 0 else End(length, k) - SECTOR
  }

  lemma EndFits(length: nat, k: nat)
    requires 1 <= k <= Top(length) + 1
    ensures End(length, k) <= length
    ensures length <= 0xffff ==> End(length, 1) == length
  {
  }

  /** The sectors numbered above k, the highest number with the first bytes of the data. */
  function Sectors(data: seq<Byte>, k: nat): (s: seq<Sector>)
    requires k <= Top(|data|) + 1
    ensures |s| == Top(|data|) + 1 - k
    decreases Top(|data|) + 1 - k
  {
    if k == Top(|data|) + 1 then []
    else
      EndFits(|data|, k + 1);
      var b, e := Begin(|data|, k + 1), End(|data|, k + 1);
      Sectors(data, k + 1) + [Sector(k + 1, e - b, data[b..e])]
  }

  /** A sector begins where the one before it ends. */
  lemma Adjacent(length: nat, k: nat)
    requires 1 <= k <= Top(length) + 1
    ensures Begin(length, k) == if k == Top(length) + 1 then 0 else End(length, k + 1)
  {
  }

  lemma {:induction false} SectorsJoined(data: seq<Byte>, k: nat)
    requires k <= Top(|data|)
    ensures End(|data|, k + 1) <= |data| && Joined(Sectors(data, k)) == data[..End(|data|, k + 1)]
    decreases Top(|data|) - k
  {
    hide Begin, End, Top;
    EndFits(|data|, k + 1);
    Adjacent(|data|, k + 1);
    var s := Sectors(data, k);
    assert s[..|s| - 1] == Sectors(data, k + 1);
    var b, e := Begin(|data|, k + 1), End(|data|, k + 1);
    if k < Top(|data|) { SectorsJoined(data, k + 1); }
    assert data[..b] + data[b..e] == data[..e];
  }

  /** The numbers count down to 1. */
  lemma {:induction false} SectorNumbers(data: seq<Byte>, k: nat, i: nat)
    requires k <= Top(|data|) + 1 && i < Top(|data|) + 1 - k
    ensures var s := Sectors(data, k)[i]; s.index == Top(|data|) + 1 - i && s.length == |s.bytes| <= SECTOR
    decreases Top(|data|) + 1 - k
  {
    EndFits(|data|, k + 1);
    if i < Top(|data|) - k { SectorNumbers(data, k + 1, i); }
  }

  // ----- the sender

  /** Copy data from j on into the buffer from the given position on. */
  method Fill(buffer: array<Byte>, from: nat, data: seq<Byte>, j: nat, end: nat) returns (k: nat)
    requires from <= buffer.Length && j <= end <= |data|
    modifies buffer
    ensures k == j + Least(buffer.Length - from, end - j)
    ensures buffer[..from] == old(buffer[..from]) && buffer[from..from + (k - j)] == data[j..k]
  {
    var i := from;
    k := j;
    while i < buffer.Length && k < end
      invariant j <= k <= end && from <= i <= buffer.Length && i == from + (k - j)
      invariant forall p :: 0 <= p < from ==> buffer[p] == old(buffer[p])
      invariant forall p :: from <= p < i ==> buffer[p] == data[p - from + j]
    {
      buffer[i] := data[k];
      i, k := i + 1, k + 1;
    }
  }

  lemma ReceiveOne(packets: seq<seq<Byte>>, p: seq<Byte>, size: nat)
    requires 4 <= size && Packets(packets, size) && |p| == size
    ensures Packets(packets + [p], size) && Receive(packets + [p], size) == Accept(Receive(packets, size), p)
  {
    hide Accept;
    assert (packets + [p])[..|packets|] == packets;
  }

  lemma AcceptHeader(s: seq<Sector>, p: seq<Byte>, index: Byte, length: nat)
    requires 4 <= |p| && length < 0x10000
    requires p[0] == FLAG + WRITE_SECTOR && p[1] == index && p[2] == length % 256 && p[3] == length / 256
    ensures Accept(s, p) == s + [Sector(index, length, p[4..4 + Least(length, |p| - 4)])]
  {
    assert length == length % 256 + 256 * (length / 256);
  }

  lemma AcceptContinuation(s: seq<Sector>, last: Sector, p: seq<Byte>)
    requires 4 <= |p| && p[0] == FLAG + CONTINUATION && |last.bytes| <= last.length
    ensures Accept(s + [last], p) ==
      s + [last.(bytes := last.bytes + p[1..1 + Least(last.length - |last.bytes|, |p| - 1)])]
  {
    assert (s + [last])[..|s|] == s;
  }

  /** The packet that announces a sector, with the first bytes. */
  method SendHeader(buffer: array<Byte>, data: seq<Byte>, start: nat, indexEnd: nat, index: Byte, secLength: nat,
      sent: seq<seq<Byte>>) returns (packets: seq<seq<Byte>>, j: nat, ghost got: seq<Byte>)
    requires 4 <= buffer.Length && start <= indexEnd <= |data| && secLength <= SECTOR
    requires Packets(sent, buffer.Length)
    modifies buffer
    ensures start <= j <= indexEnd && Packets(packets, buffer.Length) && |got| <= secLength && |packets| == |sent| + 1
    ensures Receive(packets, buffer.Length) == Receive(sent, buffer.Length) + [Sector(index, secLength, got)]
    ensures indexEnd - start == secLength ==> got == data[start..j]
  {
    hide Accept, Receive;
    buffer[0] := FLAG + WRITE_SECTOR;
    buffer[1] := index;
    buffer[2] := secLength % 256;
    buffer[3] := secLength / 256;
    ghost var header := buffer[..4];
    j := Fill(buffer, 4, data, start, indexEnd);
    assert buffer[..4] == header && forall i :: 0 <= i < 4 ==> buffer[..][i] == header[i];
    packets := sent + [buffer[..]];
    got := buffer[..][4..4 + Least(secLength, buffer.Length - 4)];
    AcceptHeader(Receive(sent, buffer.Length), buffer[..], index, secLength);
    ReceiveOne(sent, buffer[..], buffer.Length);
  }

  /** The next bytes of a sector. */
  method SendContinuation(buffer: array<Byte>, data: seq<Byte>, start: nat, j: nat, indexEnd: nat,
      ghost before: seq<Sector>, ghost s: Sector, sent: seq<seq<Byte>>)
    returns (packets: seq<seq<Byte>>, k: nat, ghost got: seq<Byte>)
    requires 4 <= buffer.Length && start <= j < indexEnd <= |data| && |s.bytes| <= s.length
    requires Packets(sent, buffer.Length) && Receive(sent, buffer.Length) == before + [s]
    requires indexEnd - start == s.length ==> s.bytes == data[start..j]
    modifies buffer
    ensures j < k <= indexEnd && Packets(packets, buffer.Length) && |got| <= s.length && |packets| == |sent| + 1
    ensures Receive(packets, buffer.Length) == before + [s.(bytes := got)]
    ensures indexEnd - start == s.length ==> got == data[start..k]
  {
    hide Accept, Receive;
    buffer[0] := FLAG + CONTINUATION;
    assert buffer[..1][0] == FLAG + CONTINUATION;
    k := Fill(buffer, 1, data, j, indexEnd);
    assert buffer[..][0] == buffer[..1][0];
    packets := sent + [buffer[..]];
    ghost var more := buffer[..][1..1 + Least(s.length - |s.bytes|, buffer.Length - 1)];
    got := s.bytes + more;
    AcceptContinuation(before, s, buffer[..]);
    ReceiveOne(sent, buffer[..], buffer.Length);
    if indexEnd - start == s.length {
      assert more == data[j..k];
      assert data[start..j] + data[j..k] == data[start..k];
    }
  }

  /** What has reached the device of a sector: nothing, or its announcement and some of its bytes. */
  predicate Begun(before: seq<Sector>, after: seq<Sector>, s: Sector) { after == before || after == before + [s] }

  /**
   * One sector: a packet that announces its length, then continuations. The send of the given number, if it comes to
   * that, is refused, and then nothing more is sent.
   */
  method SendSector(buffer: array<Byte>, data: seq<Byte>, start: nat, indexEnd: nat, index: Byte, secLength: nat,
      sent: seq<seq<Byte>>, refused: nat) returns (ok: bool, packets: seq<seq<Byte>>, ghost got: seq<Byte>)
    requires 4 <= buffer.Length && start <= indexEnd <= |data| && secLength <= SECTOR
    requires Packets(sent, buffer.Length) && |sent| <= refused
    modifies buffer
    ensures Packets(packets, buffer.Length) && |got| <= SECTOR && |packets| <= refused && (!ok ==> |packets| == refused)
    ensures Begun(Receive(sent, buffer.Length), Receive(packets, buffer.Length), Sector(index, secLength, got))
    ensures ok ==> Receive(packets, buffer.Length) == Receive(sent, buffer.Length) + [Sector(index, secLength, got)]
    ensures indexEnd - start == secLength ==> got <= data[start..indexEnd] && (ok ==> got == data[start..indexEnd])
  {
    hide Accept, Receive;
    var j: nat;
    ghost var before := Receive(sent, buffer.Length);
    if |sent| == refused { return false, sent, []; }
    packets, j, got := SendHeader(buffer, data, start, indexEnd, index, secLength, sent);
    while j < indexEnd
      invariant start <= j <= indexEnd && Packets(packets, buffer.Length) && |got| <= secLength
      invariant Receive(packets, buffer.Length) == before + [Sector(index, secLength, got)] && |packets| <= refused
      invariant indexEnd - start == secLength ==> got == data[start..j]
    {
      if |packets| == refused { return false, packets, got; }
      packets, j, got :=
        SendContinuation(buffer, data, start, j, indexEnd, before, Sector(index, secLength, got), packets);
    }
    return true, packets, got;
  }

  /**
   * upgradeFirmware; the send of the given number, if there are so many, is refused. Whatever became of the sends,
   * the result is the device's response.
   */
  method UpgradeFirmware<R>(data: seq<Byte>, outputReportByteLength: nat, refused: nat, response: R)
    returns (result: R, sent: seq<seq<Byte>>, ghost all: bool)
    requires 4 <= outputReportByteLength <= 64
    ensures result == response
    ensures Packets(sent, outputReportByteLength) && |sent| <= refused && (!all ==> |sent| == refused)
    ensures all && |data| <= 0xffff ==> Receive(sent, outputReportByteLength) == Sectors(data, 0)
    ensures all ==> (Joined(Receive(sent, outputReportByteLength)) == data <==> |data| <= 0xffff)
    ensures |data| <= 0xffff ==> Joined(Receive(sent, outputReportByteLength)) <= data
  {
    hide Accept, Sectors, Short, Joined, Top, Begun;
    var length, size := |data|, outputReportByteLength;
    result := response;
    var buffer := new Byte[size](_ => 0);
    var index: Byte := Top(length) + 1;
    var indexEnd := length % SECTOR;
    var j := 0;
    sent := [];
    NoSectors(data);
    while index != 0
      invariant 0 <= index <= Top(length) + 1 && Packets(sent, size) && |sent| <= refused
      invariant indexEnd == length % SECTOR + (Top(length) + 1 - index) * SECTOR
      invariant j == if index == Top(length) + 1 then 0 else indexEnd - SECTOR
      invariant length <= 0xffff ==> Receive(sent, size) == Sectors(data, index)
      invariant Short(Receive(sent, size), Top(length) + 1 - index)
    {
      hide Receive;
      EndFits(length, index);
      Announced(length, index);
      var secLength := length - (index - 1) * SECTOR;
      if secLength > SECTOR { secLength := SECTOR; }
      ghost var before := Receive(sent, size);
      ghost var got;
      var ok;
      ok, sent, got := SendSector(buffer, data, j, indexEnd, index, secLength, sent, refused);
      NextSector(data, index);
      if !ok {
        if length <= 0xffff { PartOfSector(data, index, Receive(sent, size), Sector(index, secLength, got)); }
        all := false;
        return;
      }
      ShortStep(before, Sector(index, secLength, got), Top(length) + 1 - index);
      j := indexEnd;
      index := index - 1;
      indexEnd := indexEnd + SECTOR;
    }
    all := true;
    JoinedShort(Receive(sent, size), Top(length) + 1);
    if length <= 0xffff {
      SectorsJoined(data, 0);
      EndFits(length, 1);
      assert data[..length] == data;
    } else {
      TooLong(length);
    }
  }

  /** A transfer that stops inside a sector has delivered the beginning of the data. */
  lemma PartOfSector(data: seq<Byte>, index: nat, s: seq<Sector>, part: Sector)
    requires 1 <= index <= Top(|data|) + 1 && |data| <= 0xffff && End(|data|, index) <= |data|
    requires Begun(Sectors(data, index), s, part)
    requires part.bytes <= data[Begin(|data|, index)..End(|data|, index)]
    ensures Joined(s) <= data
  {
    hide Sectors, Joined, Top, Begin, End;
    var b := Begin(|data|, index);
    JoinedBefore(data, index);
    JoinedMore(Sectors(data, index), part);
    assert data[..b] + part.bytes == data[..b + |part.bytes|];
  }

  lemma JoinedBefore(data: seq<Byte>, index: nat)
    requires 1 <= index <= Top(|data|) + 1 && End(|data|, index) <= |data|
    ensures Joined(Sectors(data, index)) == data[..Begin(|data|, index)]
  {
    hide Begin, End, Top;
    Adjacent(|data|, index);
    if index <= Top(|data|) {
      hide Joined, Sectors;
      SectorsJoined(data, index);
    }
  }

  lemma JoinedMore(s: seq<Sector>, more: Sector)
    ensures Joined(s + [more]) == Joined(s) + more.bytes
  {
    assert (s + [more])[..|s|] == s;
  }

  lemma NoSectors(data: seq<Byte>)
    ensures Sectors(data, Top(|data|) + 1) == [] && Short([], 0)
  {
  }

  lemma NextSector(data: seq<Byte>, index: nat)
    requires 1 <= index <= Top(|data|) + 1
    ensures End(|data|, index) <= |data|
    ensures var b, e := Begin(|data|, index), End(|data|, index);
      Sectors(data, index - 1) == Sectors(data, index) + [Sector(index, e - b, data[b..e])]
  {
    EndFits(|data|, index);
  }

  /** Up to 0xffff bytes a sector announces just what it carries. */
  lemma Announced(length: nat, k: nat)
    requires 1 <= k <= Top(length) + 1
    ensures length <= 0xffff ==>
      End(length, k) - Begin(length, k) == Least(length - (k - 1) * SECTOR, SECTOR)
    ensures length > 0xffff ==> length - (k - 1) * SECTOR >= SECTOR
    ensures End(length, k) - Begin(length, k) <= SECTOR && length - (k - 1) * SECTOR >= 0
    ensures End(length, k) - Begin(length, k) <= length - (k - 1) * SECTOR
  {
  }

  lemma TooLong(length: nat)
    requires length > 0xffff
    ensures (Top(length) + 1) * SECTOR < length
  {
  }

  /** n sectors of at most 4096 bytes. */
  predicate Short(s: seq<Sector>, n: nat) { |s| == n && forall i :: 0 <= i < n ==> |s[i].bytes| <= SECTOR }

  lemma ShortStep(s: seq<Sector>, more: Sector, n: nat)
    requires Short(s, n) && |more.bytes| <= SECTOR
    ensures Short(s + [more], n + 1)
  {
  }

  lemma {:induction false} JoinedShort(s: seq<Sector>, n: nat)
    requires Short(s, n)
    ensures |Joined(s)| <= n * SECTOR
  {
    if n > 0 { JoinedShort(s[..n - 1], n - 1); }
  }

  // ----- configuration tables

  /** The bytes a table's packets carry: the first has two header bytes, a continuation one. */
  function TableBytes(packets: seq<seq<Byte>>, size: nat): (s: seq<Byte>)
    requires 2 <= size && Packets(packets, size)
  {
    if packets == [] then []
    else TableBytes(packets[..|packets| - 1], size) + Payload(packets[|packets| - 1], |packets| == 1)
  }

  function Payload(p: seq<Byte>, first: bool): seq<Byte>
    requires 2 <= |p|
  {
    if first then p[2..] else p[1..]
  }

  /** A first packet that names the table, continuations after it. */
  predicate TablePackets(packets: seq<seq<Byte>>, size: nat, index: Byte, packetType: Byte)
    requires 2 <= size && packetType < 0x40
  {
    && Packets(packets, size) && packets != [] && packets[0][0] == FLAG + packetType && packets[0][1] == index
    && forall k :: 1 <= k < |packets| ==> packets[k][0] == FLAG + CONTINUATION
  }

  lemma TableOne(packets: seq<seq<Byte>>, size: nat, index: Byte, packetType: Byte, p: seq<Byte>)
    requires 2 <= size == |p| && packetType < 0x40 && TablePackets(packets, size, index, packetType)
    requires p[0] == FLAG + CONTINUATION
    ensures TablePackets(packets + [p], size, index, packetType)
    ensures (packets + [p])[..|packets|] == packets
    ensures TableBytes(packets + [p], size) == TableBytes(packets, size) + p[1..]
  {
    assert (packets + [p])[..|packets|] == packets;
  }

  lemma TableFirst(p: seq<Byte>, size: nat)
    requires 2 <= size == |p|
    ensures TableBytes([p], size) == p[2..]
  {
    assert [p][..0] == [];
    assert TableBytes([], size) == [];
  }

  /** The next continuation of a table. */
  method ContinueTable(buffer: array<Byte>, data: seq<Byte>, j: nat, sent: seq<seq<Byte>>, index: Byte,
      packetType: Byte) returns (longer: seq<seq<Byte>>, k: nat)
    requires 2 <= buffer.Length && j < |data| && packetType < 0x40
    requires TableSoFar(sent, buffer.Length, index, packetType, data, j)
    modifies buffer
    ensures j < k && |longer| == |sent| + 1 && TableSoFar(longer, buffer.Length, index, packetType, data, k)
  {
    hide TableBytes, TablePackets;
    var size := buffer.Length;
    SoFar(sent, size, index, packetType, data, j);
    buffer[0] := FLAG + CONTINUATION;
    assert buffer[..1][0] == FLAG + CONTINUATION;
    k := Fill(buffer, 1, data, j, |data|);
    assert buffer[..][0] == buffer[..1][0];
    TableOne(sent, size, index, packetType, buffer[..]);
    assert (data[..j] + buffer[..][1..])[..k] == data[..j] + data[j..k] == data[..k];
    longer := sent + [buffer[..]];
  }

  /**
   * setConfigTable: the table, in order, in no more packets than it takes. The send of the given number, if it comes
   * to that, is refused, nothing more is sent, and the caller learns of it.
   */
  method SetConfigTable(data: seq<Byte>, index: Byte, packetType: Byte, outputReportByteLength: nat, refused: nat)
    returns (ok: bool, sent: seq<seq<Byte>>)
    requires 2 <= outputReportByteLength <= 64 && packetType < 0x40
    ensures sent == [] <==> refused == 0
    ensures sent != [] ==> TablePackets(sent, outputReportByteLength, index, packetType)
    ensures Packets(sent, outputReportByteLength) && |sent| <= refused
    ensures !ok ==> |sent| == refused
    ensures var got := TableBytes(sent, outputReportByteLength);
      ok <==> sent != [] && |data| <= |got|
    ensures var got := TableBytes(sent, outputReportByteLength);
      var n := Least(|data|, |got|); got[..n] == data[..n]
    ensures |sent| > 1 ==> |TableBytes(sent[..|sent| - 1], outputReportByteLength)| < |data|
  {
    assert TableBytes([], outputReportByteLength) == [];
    hide TableBytes, TablePackets, TableSoFar;
    var buffer := new Byte[outputReportByteLength](_ => 0);
    var j := BeginTable(buffer, data, index, packetType);
    if refused == 0 { return false, []; }
    sent := [buffer[..]];
    while j < |data|
      invariant j <= |data| && TableSoFar(sent, buffer.Length, index, packetType, data, j) && |sent| <= refused
    {
      SoFar(sent, buffer.Length, index, packetType, data, j);
      if |sent| == refused { return false, sent; }
      sent, j := ContinueTable(buffer, data, j, sent, index, packetType);
    }
    SoFar(sent, buffer.Length, index, packetType, data, j);
    return true, sent;
  }

  /** The packets carry the first j bytes of the table, and none of them is superfluous. */
  ghost predicate TableSoFar(sent: seq<seq<Byte>>, size: nat, index: Byte, packetType: Byte, data: seq<Byte>, j: nat)
    requires 2 <= size && packetType < 0x40
  {
    && j <= |data| && TablePackets(sent, size, index, packetType)
    && |TableBytes(sent, size)| >= j && TableBytes(sent, size)[..j] == data[..j]
    && (j < |data| ==> |TableBytes(sent, size)| == j)
    && (|sent| > 1 ==> |TableBytes(sent[..|sent| - 1], size)| < |data|)
  }

  lemma SoFar(sent: seq<seq<Byte>>, size: nat, index: Byte, packetType: Byte, data: seq<Byte>, j: nat)
    requires 2 <= size && packetType < 0x40 && TableSoFar(sent, size, index, packetType, data, j)
    ensures TablePackets(sent, size, index, packetType) && Packets(sent, size) && sent != []
    ensures |TableBytes(sent, size)| >= j && TableBytes(sent, size)[..j] == data[..j]
    ensures j < |data| ==> |TableBytes(sent, size)| == j && TableBytes(sent, size) == data[..j]
    ensures j == |data| ==> TableBytes(sent, size)[..j] == data
    ensures |sent| > 1 ==> |TableBytes(sent[..|sent| - 1], size)| < |data|
  {
    hide TableBytes;
    var got := TableBytes(sent, size);
    assert got[..|got|] == got && data[..|data|] == data;
  }

  /** The first packet of a table. */
  method BeginTable(buffer: array<Byte>, data: seq<Byte>, index: Byte, packetType: Byte) returns (j: nat)
    requires 2 <= buffer.Length && packetType < 0x40
    modifies buffer
    ensures TableSoFar([buffer[..]], buffer.Length, index, packetType, data, j)
  {
    hide TableBytes;
    buffer[0] := FLAG + packetType;
    buffer[1] := index;
    ghost var header := buffer[..2];
    j := Fill(buffer, 2, data, 0, |data|);
    assert buffer[..2] == header && forall i :: 0 <= i < 2 ==> buffer[..][i] == header[i];
    TableFirst(buffer[..], buffer.Length);
    assert buffer[..][2..][..j] == buffer[2..2 + j];
  }
}
