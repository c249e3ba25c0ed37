/** Bytes on the wire: little-endian fixed-width integers and their
    two's complement interpretation.  Every multi-byte UBX integer is sent
    least significant byte first, with no padding. */
module Wire {

  type Byte = b: int | 0 <= b < 256

  /** The status a read reports (the subset of comms::ErrorStatus that this
      layer can produce). */
  datatype ErrorStatus = Success | NotEnoughData

  function Pow2(k: nat): (r: nat)
    ensures r >= 1
  {
    if k == 0 then 1 else 2 * Pow2(k - 1)
  }

  function Pow256(n: nat): (r: nat)
    ensures r >= 1
  {
    if n == 0 then 1 else 256 * Pow256(n - 1)
  }

  lemma {:induction false} Pow2Add(a: nat, b: nat)
    ensures Pow2(a + b) == Pow2(a) * Pow2(b)
  {
    if a > 0 {
      Pow2Add(a - 1, b);
      assert Pow2(a + b) == 2 * Pow2(a - 1 + b);
    }
  }

  /** A width of n bytes is a width of 8 * n bits. */
  lemma {:induction false} Pow2Bytes(n: nat)
    ensures Pow2(8 * n) == Pow256(n)
  {
    if n > 0 {
      Pow2Bytes(n - 1);
      Pow2Add(8, 8 * (n - 1));
      assert Pow2(8) == 256;
    }
  }

  /** The unsigned value of a little-endian byte sequence. */
  function DecodeLE(s: seq<Byte>): (v: nat)
    ensures v < Pow256(|s|)
  {
    if s == [] then 0 else s[0] + 256 * DecodeLE(s[1..])
  }

  /** The n-byte little-endian encoding of an unsigned value that fits. */
  function EncodeLE(v: nat, n: nat): (s: seq<Byte>)
    requires v < Pow256(n)
    ensures |s| == n
  {
    if n == 0 then [] else [v % 256] + EncodeLE(v / 256, n - 1)
  }

  lemma {:induction false} DecodeEncode(v: nat, n: nat)
    requires v < Pow256(n)
    ensures DecodeLE(EncodeLE(v, n)) == v
  {
    if n > 0 {
      DecodeEncode(v / 256, n - 1);
      assert EncodeLE(v, n)[1..] == EncodeLE(v / 256, n - 1);
    }
  }

  lemma {:induction false} EncodeDecode(s: seq<Byte>)
    ensures EncodeLE(DecodeLE(s), |s|) == s
  {
    if s != [] {
      var v := DecodeLE(s);
      EncodeDecode(s[1..]);
      assert v % 256 == s[0] && v / 256 == DecodeLE(s[1..]);
      assert s == [s[0]] + s[1..];
    }
  }

  /** True when v is representable in n bytes, as two's complement when
      signed. */
  predicate InWidth(v: int, n: nat, signed: bool)
  {
    if signed then n >= 1 && -(Pow256(n) / 2) <= v < Pow256(n) / 2
    else 0 <= v < Pow256(n)
  }

  /** The raw (unsigned) wire image of a field value. */
  function ToRaw(v: int, n: nat, signed: bool): (u: nat)
    requires InWidth(v, n, signed)
    ensures u < Pow256(n)
  {
    if v < 0 then v + Pow256(n) else v
  }

  /** The field value a raw wire image stands for. */
  function FromRaw(u: nat, n: nat, signed: bool): (v: int)
    requires u < Pow256(n) && (signed ==> n >= 1)
    ensures InWidth(v, n, signed)
  {
    EvenWidth(n);
    if signed && u >= Pow256(n) / 2 then u - Pow256(n) else u
  }

  lemma EvenWidth(n: nat)
    ensures n >= 1 ==> Pow256(n) % 2 == 0
  {
    if n >= 1 {
      var h := Pow256(n - 1);
      assert Pow256(n) == 2 * (128 * h);
    }
  }

  lemma RawRoundTrip(v: int, n: nat, signed: bool)
    requires InWidth(v, n, signed)
    ensures FromRaw(ToRaw(v, n, signed), n, signed) == v
  {
    EvenWidth(n);
  }

  lemma RawRoundTripBack(u: nat, n: nat, signed: bool)
    requires u < Pow256(n) && (signed ==> n >= 1)
    ensures ToRaw(FromRaw(u, n, signed), n, signed) == u
  {
  }

  /** The integer a little-endian byte string encodes, two's complement
      when signed. */
  function LEInt(b: seq<Byte>, signed: bool): int
    requires |b| >= 1
  {
    FromRaw(DecodeLE(b), |b|, signed)
  }

  /** A one-byte unsigned integer is the byte itself. */
  lemma SingleByte(b: seq<Byte>, i: nat)
    requires i < |b|
    ensures LEInt(b[i..i + 1], false) == b[i] as int
  {
    assert b[i..i + 1] == [b[i]];
    assert [b[i]][1..] == [];
  }
}
