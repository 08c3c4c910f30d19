/** Bytes, 32-bit words, chunk padding and the little-endian word codec of the
    SN32 bootloader protocol. */
module Codec {
  import opened Wrappers

  type byte = b: int | 0 <= b < 0x100
  type u32 = w: int | 0 <= w < 0x1_0000_0000

  /** Size of one HID feature report and of one firmware chunk. */
  const CHUNK_SIZE: nat := 64

  function Zeros(n: nat): (z: seq<byte>)
    ensures |z| == n
    ensures forall i :: 0 <= i < n ==> z[i] == 0
  {
    seq(n, _ => 0)
  }

  /** Zero-extends `data` to the next multiple of CHUNK_SIZE; an aligned
      buffer (the empty one included) comes back unchanged. */
  function Pad(data: seq<byte>): (r: seq<byte>)
    ensures |r| % CHUNK_SIZE == 0
    ensures |data| <= |r| < |data| + CHUNK_SIZE
    ensures r[..|data|] == data
    ensures forall i :: |data| <= i < |r| ==> r[i] == 0
    ensures |data| % CHUNK_SIZE == 0 ==> r == data
  {
    if |data| % CHUNK_SIZE == 0 then data
    else data + Zeros(CHUNK_SIZE - |data| % CHUNK_SIZE)
  }

  /** Any aligned zero extension shorter than one extra chunk is the padding:
      Pad is characterised by its contract alone. */
  lemma PadUnique(data: seq<byte>, r: seq<byte>)
    requires |r| % CHUNK_SIZE == 0
    requires |data| <= |r| < |data| + CHUNK_SIZE
    requires r[..|data|] == data
    requires forall i :: |data| <= i < |r| ==> r[i] == 0
    ensures r == Pad(data)
  {
    var p := Pad(data);
    assert |r| == |p|;
    forall i | 0 <= i < |r| ensures r[i] == p[i] {
      if i < |data| {
        assert r[i] == r[..|data|][i];
        assert p[i] == p[..|data|][i];
      }
    }
  }

  lemma PadIdempotent(data: seq<byte>)
    ensures Pad(Pad(data)) == Pad(data)
  {
  }

  /** The little-endian 32-bit word stored at bytes i .. i+3 (DataView.getUint32
      with littleEndian = true). */
  function WordAt(bs: seq<byte>, i: nat): u32
    requires i + 4 <= |bs|
  {
    bs[i] as int + 0x100 * (bs[i + 1] as int + 0x100 * (bs[i + 2] as int + 0x100 * bs[i + 3] as int))
  }

  /** The four bytes of `w`, least significant first (DataView.setUint32 with
      littleEndian = true). */
  function WordBytes(w: u32): (b: seq<byte>)
    ensures |b| == 4
    ensures WordAt(b, 0) == w
  {
    var q1 := w / 0x100;
    var q2 := q1 / 0x100;
    var q3 := q2 / 0x100;
    [w % 0x100, q1 % 0x100, q2 % 0x100, q3]
  }

  /** Four bytes are exactly the encoding of the word they decode to. */
  lemma WordBytesOfWordAt(bs: seq<byte>, i: nat)
    requires i + 4 <= |bs|
    ensures WordBytes(WordAt(bs, i)) == bs[i..i + 4]
  {
    var w := WordAt(bs, i);
    var hi := bs[i + 1] as int + 0x100 * (bs[i + 2] as int + 0x100 * bs[i + 3] as int);
    assert w / 0x100 == hi && w % 0x100 == bs[i];
    var hi2 := bs[i + 2] as int + 0x100 * bs[i + 3] as int;
    assert hi / 0x100 == hi2 && hi % 0x100 == bs[i + 1];
    assert hi2 / 0x100 == bs[i + 3] && hi2 % 0x100 == bs[i + 2];
  }

  /** Serialises words as consecutive little-endian 4-byte groups, no padding. */
  function Pack(ws: seq<u32>): (r: seq<byte>)
    ensures |r| == 4 * |ws|
    ensures forall i :: 0 <= i < |ws| ==> WordAt(r, 4 * i) == ws[i]
  {
    if ws == [] then []
    else
      var head := WordBytes(ws[0]);
      var tail := Pack(ws[1..]);
      assert forall i :: 1 <= i < |ws| ==> WordAt(head + tail, 4 * i) == WordAt(tail, 4 * (i - 1));
      head + tail
  }

  /** Reads little-endian words until the buffer is exhausted; a length that is
      not a multiple of 4 makes the last read run past the buffer, which the
      source reports as a thrown range error (None here). */
  function Unpack(bs: seq<byte>): (r: Option<seq<u32>>)
    ensures r.Some? <==> |bs| % 4 == 0
    ensures r.Some? ==> |r.value| == |bs| / 4
    ensures r.Some? ==> forall i :: 0 <= i < |r.value| ==> r.value[i] == WordAt(bs, 4 * i)
    decreases |bs|
  {
    if |bs| == 0 then Some([])
    else if |bs| < 4 then None
    else
      match Unpack(bs[4..])
      case None => None
      case Some(rest) =>
        assert forall i :: 1 <= i <= |rest| ==> WordAt(bs[4..], 4 * (i - 1)) == WordAt(bs, 4 * i);
        Some([WordAt(bs, 0)] + rest)
  }

  /** Decoding an encoding gives back the words. */
  lemma UnpackPack(ws: seq<u32>)
    ensures Unpack(Pack(ws)) == Some(ws)
  {
    var r := Unpack(Pack(ws));
    assert r.Some? && |r.value| == |ws|;
    assert forall i :: 0 <= i < |ws| ==> r.value[i] == ws[i];
    assert r.value == ws;
  }

  /** Encoding a decoding gives back the bytes: Pack and Unpack are inverse
      bijections between word sequences and 4-aligned byte buffers. */
  lemma {:induction false} PackUnpack(bs: seq<byte>)
    requires |bs| % 4 == 0
    ensures Pack(Unpack(bs).value) == bs
    decreases |bs|
  {
    if |bs| > 0 {
      var ws := Unpack(bs).value;
      assert Unpack(bs[4..]).value == ws[1..];
      PackUnpack(bs[4..]);
      WordBytesOfWordAt(bs, 0);
      assert bs == bs[0..4] + bs[4..];
    }
  }

  /** Zero padding never disturbs a word that lay inside the original buffer. */
  lemma WordAtPad(data: seq<byte>, i: nat)
    requires i + 4 <= |data|
    ensures WordAt(Pad(data), i) == WordAt(data, i)
  {
    var p := Pad(data);
    assert p[..|data|] == data;
    assert p[i] == data[i] && p[i + 1] == data[i + 1] && p[i + 2] == data[i + 2] && p[i + 3] == data[i + 3];
  }
}
