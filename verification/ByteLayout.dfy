/** Little-endian fields and the 64-byte r24 record header `<4sBBHQQII32s`. */
module ByteLayout {

  newtype byte = x: int | 0 <= x < 256

  type Bytes = seq<byte>

  const HEADER_BYTES := 64
  const CODEC_RAW := 0

  /** `CMA4` */
  const RECORD_MAGIC: Bytes := [67, 77, 65, 52]

  function Pow256(n: nat): (p: nat)
    ensures p > 0
  {
    if n == 0 then 1 else 256 * Pow256(n - 1)
  }

  /** Little-endian value of a field. */
  function Value(b: Bytes): nat {
    if b == [] then 0 else b[0] as nat + 256 * Value(b[1..])
  }

  /** The low `n` bytes of `v`, least significant first. */
  function FieldBytes(v: nat, n: nat): (b: Bytes)
    ensures |b| == n
  {
    if n == 0 then [] else [(v % 256) as byte] + FieldBytes(v / 256, n - 1)
  }

  /** Writing and reading a field are inverse as long as the value fits. */
  lemma {:induction false} ValueOfField(v: nat, n: nat)
    requires v < Pow256(n)
    ensures Value(FieldBytes(v, n)) == v
  {
    if n > 0 {
      assert v / 256 < Pow256(n - 1);
      ValueOfField(v / 256, n - 1);
    }
  }

  lemma LowByte(low: nat, rest: nat)
    requires low < 256
    ensures (low + 256 * rest) % 256 == low && (low + 256 * rest) / 256 == rest
  {
  }

  lemma {:induction false} FieldOfValue(b: Bytes)
    ensures Value(b) < Pow256(|b|)
    ensures FieldBytes(Value(b), |b|) == b
  {
    if b != [] {
      var low, rest := b[0], b[1..];
      FieldOfValue(rest);
      LowByte(low as nat, Value(rest));
      assert b == [low] + rest;
    }
  }

  datatype Header = Header(
    magic: Bytes, codec: nat, flags: nat, reserved: nat,
    usize: nat, csize: nat, metaLen: nat, crc: nat, digest: Bytes)

  function Unpack(b: Bytes): Header
    requires |b| == HEADER_BYTES
  {
    Header(b[..4], b[4] as nat, b[5] as nat, Value(b[6..8]), Value(b[8..16]), Value(b[16..24]),
           Value(b[24..28]), Value(b[28..32]), b[32..64])
  }

  predicate HeaderFits(h: Header) {
    && |h.magic| == 4 && h.codec < 256 && h.flags < 256 && h.reserved < Pow256(2)
    && h.usize < Pow256(8) && h.csize < Pow256(8) && h.metaLen < Pow256(4) && h.crc < Pow256(4)
    && |h.digest| == 32
  }

  function PackHeader(h: Header): (b: Bytes)
    requires HeaderFits(h)
    ensures |b| == HEADER_BYTES
  {
    h.magic + [h.codec as byte, h.flags as byte] + FieldBytes(h.reserved, 2)
    + FieldBytes(h.usize, 8) + FieldBytes(h.csize, 8)
    + FieldBytes(h.metaLen, 4) + FieldBytes(h.crc, 4) + h.digest
  }

  lemma PackSlices(h: Header)
    requires HeaderFits(h)
    ensures var b := PackHeader(h);
            && b[..4] == h.magic && b[4] as nat == h.codec && b[5] as nat == h.flags
            && b[6..8] == FieldBytes(h.reserved, 2)
            && b[8..16] == FieldBytes(h.usize, 8) && b[16..24] == FieldBytes(h.csize, 8)
            && b[24..28] == FieldBytes(h.metaLen, 4) && b[28..32] == FieldBytes(h.crc, 4) && b[32..64] == h.digest
  {
  }

  lemma UnpackOfPack(h: Header)
    requires HeaderFits(h)
    ensures Unpack(PackHeader(h)) == h
  {
    PackSlices(h);
    ValueOfField(h.reserved, 2);
    ValueOfField(h.usize, 8);
    ValueOfField(h.csize, 8);
    ValueOfField(h.metaLen, 4);
    ValueOfField(h.crc, 4);
  }

  lemma UnpackFits(b: Bytes)
    requires |b| == HEADER_BYTES
    ensures HeaderFits(Unpack(b))
    ensures PackHeader(Unpack(b)) == b
  {
    FieldOfValue(b[6..8]);
    FieldOfValue(b[8..16]);
    FieldOfValue(b[16..24]);
    FieldOfValue(b[24..28]);
    FieldOfValue(b[28..32]);
    var h := Unpack(b);
    assert b == b[..4] + [b[4], b[5]] + b[6..8] + b[8..16] + b[16..24] + b[24..28] + b[28..32] + b[32..64];
  }
}
