/** Words in sequence, and the order in which their bits are sent. */
module Blocks {
  import opened Words

  /** Block by block, most significant bit first. */
  function Stream(blocks: seq<Word>): seq<bool> {
    if blocks == [] then [] else Msb(blocks[0]) + Stream(blocks[1..])
  }

  /** The two blocks of a 64-bit word. */
  function Halves(w: Word): seq<Word>
    requires |w| == 64
  {
    [w[32..], w[..32]]
  }

  lemma StreamOfHalves(w: Word, rest: seq<Word>)
    requires |w| == 64
    ensures Stream(Halves(w) + rest) == Msb(w) + Stream(rest)
  {
    var b := Halves(w) + rest;
    assert b[1..][1..] == rest;
    assert Stream(b) == Msb(w[32..]) + (Msb(w[..32]) + Stream(rest));
  }

  // ----- bytes

  predicate Bytes(data: seq<Word>) { forall i :: 0 <= i < |data| ==> |data[i]| == 8 }

  lemma {:induction false} StreamLength(data: seq<Word>)
    requires Bytes(data)
    ensures |Stream(data)| == 8 * |data|
  {
    if data != [] { StreamLength(data[1..]); }
  }

  lemma {:induction false} StreamJoin(a: seq<Word>, b: seq<Word>)
    ensures Stream(a + b) == Stream(a) + Stream(b)
  {
    if a == [] {
      assert a + b == b;
    } else {
      assert (a + b)[1..] == a[1..] + b;
      StreamJoin(a[1..], b);
    }
  }

  lemma StreamSlice(data: seq<Word>, s: nat, e: nat)
    requires Bytes(data) && s <= e <= |data|
    ensures |Stream(data)| == 8 * |data| && Stream(data)[8 * s..8 * e] == Stream(data[s..e])
  {
    hide Stream;
    assert data == data[..s] + data[s..e] + data[e..];
    StreamJoin(data[..s] + data[s..e], data[e..]);
    StreamJoin(data[..s], data[s..e]);
    StreamLength(data[..s]);
    StreamLength(data[s..e]);
    StreamLength(data);
  }

  lemma StreamBit(data: seq<Word>, k: nat)
    requires Bytes(data) && k < 8 * |data|
    ensures |Stream(data)| == 8 * |data| && Stream(data)[k] == data[k / 8][7 - k % 8]
  {
    hide Stream;
    var q := k / 8;
    StreamSlice(data, q, q + 1);
    assert data[q..q + 1] == [data[q]];
    assert Stream([data[q]]) == Msb(data[q]) by { StreamOfOne(data[q]); }
    assert Stream(data)[8 * q..8 * (q + 1)][k - 8 * q] == Msb(data[q])[k - 8 * q];
  }

  lemma StreamOfOne(w: Word)
    ensures Stream([w]) == Msb(w)
  {
    assert [w][1..] == [];
  }
}
