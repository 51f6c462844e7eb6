/** Bytes, and the little-endian integers of encoding/binary. */
module ByteData {

  newtype Byte = x: int | 0 <= x < 256
  type Bytes = seq<Byte>

  function Pow256(w: nat): (p: nat)
    ensures p > 0
  {
    if w == 0 then 1 else 256 * Pow256(w - 1)
  }

  /** The low `w` bytes of `v`, least significant first. */
  function LittleEndian(v: nat, w: nat): (b: Bytes)
    ensures |b| == w
  {
    if w == 0 then [] else [(v % 256) as Byte] + LittleEndian(v / 256, w - 1)
  }

  function FromLittleEndian(b: Bytes): nat {
    if b == [] then 0 else b[0] as int + 256 * FromLittleEndian(b[1..])
  }

  /** The least significant byte is first: each further byte weighs 256 times the
  one before it. */
  lemma {:induction false} ByteWeights(b: Bytes, x: Byte)
    ensures FromLittleEndian(b + [x]) == FromLittleEndian(b) + Pow256(|b|) * x as int
  {
    if b == [] {
      assert [x][1..] == [];
    } else {
      assert (b + [x])[1..] == b[1..] + [x];
      ByteWeights(b[1..], x);
      Scaled(FromLittleEndian(b[1..]), Pow256(|b| - 1), x as int);
    }
  }

  lemma {:induction false} Scaled(a: nat, p: nat, x: nat)
    ensures 256 * (a + p * x) == 256 * a + (256 * p) * x
  {
  }

  lemma {:induction false} LittleEndianRoundTrip(v: nat, w: nat)
    requires v < Pow256(w)
    ensures FromLittleEndian(LittleEndian(v, w)) == v
    decreases w
  {
    if w > 0 {
      LittleEndianRoundTrip(v / 256, w - 1);
      assert LittleEndian(v, w)[1..] == LittleEndian(v / 256, w - 1);
    }
  }

  /** And the other way: every string of bytes is the encoding of what it reads as. */
  lemma {:induction false} FromLittleEndianRoundTrip(b: Bytes)
    ensures FromLittleEndian(b) < Pow256(|b|) && LittleEndian(FromLittleEndian(b), |b|) == b
  {
    if b != [] {
      FromLittleEndianRoundTrip(b[1..]);
      var v := FromLittleEndian(b);
      assert v % 256 == b[0] as int && v / 256 == FromLittleEndian(b[1..]);
    }
  }

  /** PutUint16/32/64: the bytes written in place, the others left alone. */
  method PutLittleEndian(a: array<Byte>, off: nat, w: nat, v: nat)
    requires off + w <= a.Length
    modifies a
    ensures a[off..off + w] == LittleEndian(v, w)
    ensures a[..off] == old(a[..off]) && a[off + w..] == old(a[off + w..])
  {
    var i, x := 0, v;
    ghost var was := a[..];
    while i < w
      invariant 0 <= i <= w
      invariant a[off..off + i] + LittleEndian(x, w - i) == LittleEndian(v, w)
      invariant forall k :: 0 <= k < a.Length && !(off <= k < off + i) ==> a[k] == was[k]
    {
      ghost var done := a[off..off + i];
      a[off + i] := (x % 256) as Byte;
      assert a[off..off + i + 1] == done + [(x % 256) as Byte];
      assert LittleEndian(x, w - i) == [(x % 256) as Byte] + LittleEndian(x / 256, w - i - 1);
      i, x := i + 1, x / 256;
    }
    assert LittleEndian(x, 0) == [];
  }
}
