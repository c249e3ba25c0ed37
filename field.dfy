/** The generic field vocabulary the message schemas are built from, and
    each field's read (decode from a cursor), write (encode), validity and
    default value.

    - `Int`: a little-endian integer of a fixed number of bytes, signed or
      unsigned; with a `Check` it is also an enumeration with a valid range,
      a bitmask with reserved bits, or a value from a table.
    - `Bitfield`: members of declared bit widths packed into one unsigned
      container, first member in the least significant bits.
    - `Optional`: a field with a presence mode; only an `Exists` field is on
      the wire.
    - `Array`: a fixed number of elements of one kind, with no count prefix.

    A read takes the field's current value (the mode of an optional field is
    part of it, decided before the read) and the bytes left; it either
    succeeds and reports how many bytes it consumed, or reports
    NotEnoughData and leaves the field as it was. */
module Field {
  import opened Wire
  import opened Bits
  import SortedTable

  datatype Mode = Tentative | Exists | Missing

  /** What validity demands of an integer value. */
  datatype Check =
    | AnyValue
    | InRange(lo: int, hi: int)
    | ReservedBits(mask: nat, expected: nat)
    | OneOf(table: seq<int>)

  datatype Member = Member(bits: nat, check: Check)

  datatype Kind =
    | Int(bytes: nat, signed: bool, check: Check)
    | Bitfield(members: seq<Member>)
    | Optional(inner: Kind, defaultMode: Mode)
    | Array(elem: Kind, count: nat)

  datatype Value =
    | IntV(n: int)
    | BitsV(ms: seq<nat>)
    | OptV(mode: Mode, inner: Value)
    | ArrV(elems: seq<Value>)

  datatype Decoded = Decoded(status: ErrorStatus, value: Value, used: nat)

  datatype DecodedAll = DecodedAll(status: ErrorStatus, values: seq<Value>, used: nat)

  function Widths(ms: seq<Member>): (ws: seq<nat>)
    ensures |ws| == |ms| && forall i | 0 <= i < |ms| :: ws[i] == ms[i].bits
  {
    if ms == [] then [] else [ms[0].bits] + Widths(ms[1..])
  }

  /** The container width of a bitfield: the sum of its members' widths. */
  function BitLength(ms: seq<Member>): nat
  {
    SumBits(Widths(ms))
  }

  /** What a schema definition must satisfy: integers are at least one byte
      wide and a bitfield's members fill a whole number of bytes. */
  predicate WellFormed(k: Kind)
  {
    match k
    case Int(n, _, _) => n >= 1
    case Bitfield(ms) => BitLength(ms) % 8 == 0
    case Optional(inner, _) => WellFormed(inner)
    case Array(e, _) => WellFormed(e)
  }

  /** The largest number of bytes the field can occupy. */
  function MaxLength(k: Kind): nat
  {
    match k
    case Int(n, _, _) => n
    case Bitfield(ms) => BitLength(ms) / 8
    case Optional(inner, _) => MaxLength(inner)
    case Array(e, count) => count * MaxLength(e)
  }

  /** A field without optional parts always occupies MaxLength bytes. */
  predicate FixedLength(k: Kind)
  {
    match k
    case Int(_, _, _) => true
    case Bitfield(_) => true
    case Optional(_, _) => false
    case Array(e, _) => FixedLength(e)
  }

  /** The value has the field's shape and every integer fits its width. */
  predicate Fits(k: Kind, v: Value)
  {
    match k
    case Int(n, signed, _) => v.IntV? && InWidth(v.n, n, signed)
    case Bitfield(ms) => v.BitsV? && FitsWidths(Widths(ms), v.ms)
    case Optional(inner, _) => v.OptV? && Fits(inner, v.inner)
    case Array(e, count) =>
      v.ArrV? && |v.elems| == count && forall i | 0 <= i < count :: Fits(e, v.elems[i])
  }

  /** No optional part is left in the Tentative mode. */
  predicate Settled(v: Value)
  {
    match v
    case IntV(_) => true
    case BitsV(_) => true
    case OptV(mode, inner) => mode != Tentative && Settled(inner)
    case ArrV(elems) => forall i | 0 <= i < |elems| :: Settled(elems[i])
  }

  /** A default-constructed field: zero integers, zero members and the
      optional field's declared default mode. */
  function Default(k: Kind): (v: Value)
    requires WellFormed(k)
    ensures Fits(k, v)
    ensures k.Int? ==> v == IntV(0)
    ensures k.Bitfield? ==> v.BitsV? && forall j | 0 <= j < |v.ms| :: v.ms[j] == 0
    ensures k.Optional? ==> v.OptV? && v.mode == k.defaultMode
  {
    match k
    case Int(_, _, _) => IntV(0)
    case Bitfield(ms) => BitsV(seq(|ms|, i => 0))
    case Optional(inner, mode) => OptV(mode, Default(inner))
    case Array(e, count) => ArrV(seq(count, i => Default(e)))
  }

  /** What an optional field holds, whatever its mode. */
  function Inner(v: Value): Value
  {
    if v.OptV? then v.inner else v
  }

  /** The optional field with its mode set (setMode, setExists,
      setMissing); the value it holds is kept. */
  function SetMode(v: Value, m: Mode): Value
    requires v.OptV?
  {
    OptV(m, v.inner)
  }

  predicate Holds(c: Check, x: int)
  {
    match c
    case AnyValue => true
    case InRange(lo, hi) => lo <= x <= hi
    case ReservedBits(mask, expected) => Masked(x, mask) == expected
    case OneOf(table) => SortedTable.Accepts(table, x)
  }

  /** Field-level validity.  A missing optional field is valid whatever it
      holds. */
  predicate Valid(k: Kind, v: Value)
    requires Fits(k, v)
  {
    match k
    case Int(_, _, c) => Holds(c, v.n)
    case Bitfield(ms) => forall i | 0 <= i < |ms| :: Holds(ms[i].check, v.ms[i])
    case Optional(inner, _) => v.mode == Missing || Valid(inner, v.inner)
    case Array(e, _) => forall i | 0 <= i < |v.elems| :: Valid(e, v.elems[i])
  }

  /** The wire image of a field. */
  function Write(k: Kind, v: Value): seq<Byte>
    requires WellFormed(k) && Fits(k, v)
    decreases k, 0
  {
    match k
    case Int(n, signed, _) => EncodeLE(ToRaw(v.n, n, signed), n)
    case Bitfield(ms) =>
      var n := BitLength(ms) / 8;
      PackBound(Widths(ms), v.ms);
      Pow2Bytes(n);
      EncodeLE(Pack(Widths(ms), v.ms), n)
    case Optional(inner, _) => if v.mode == Exists then Write(inner, v.inner) else []
    case Array(e, _) => WriteAll(e, v.elems)
  }

  function WriteAll(e: Kind, vs: seq<Value>): seq<Byte>
    requires WellFormed(e) && forall i | 0 <= i < |vs| :: Fits(e, vs[i])
    decreases e, |vs| + 1
  {
    if vs == [] then [] else Write(e, vs[0]) + WriteAll(e, vs[1..])
  }

  /** Reads one field from the front of s, given its current value. */
  function Read(k: Kind, cur: Value, s: seq<Byte>): (r: Decoded)
    requires WellFormed(k) && Fits(k, cur)
    ensures Fits(k, r.value) && r.used <= |s|
    ensures r.status == NotEnoughData ==> r.value == cur && r.used == 0
    decreases k, 0
  {
    match k
    case Int(n, signed, _) =>
      if |s| < n then Decoded(NotEnoughData, cur, 0)
      else Decoded(Success, IntV(FromRaw(DecodeLE(s[..n]), n, signed)), n)
    case Bitfield(ms) =>
      var n := BitLength(ms) / 8;
      if |s| < n then Decoded(NotEnoughData, cur, 0)
      else Decoded(Success, BitsV(Split(Widths(ms), DecodeLE(s[..n]))), n)
    case Optional(inner, _) =>
      if cur.mode == Missing then Decoded(Success, cur, 0)
      else if cur.mode == Tentative && |s| == 0 then Decoded(Success, OptV(Missing, cur.inner), 0)
      else
        var r := Read(inner, cur.inner, s);
        if r.status == Success then Decoded(Success, OptV(Exists, r.value), r.used)
        else Decoded(r.status, cur, 0)
    case Array(e, _) =>
      var r := ReadAll(e, cur.elems, s);
      if r.status == Success then Decoded(Success, ArrV(r.values), r.used)
      else Decoded(r.status, cur, 0)
  }

  /** Reads |curs| consecutive elements of kind e. */
  function ReadAll(e: Kind, curs: seq<Value>, s: seq<Byte>): (r: DecodedAll)
    requires WellFormed(e) && forall i | 0 <= i < |curs| :: Fits(e, curs[i])
    ensures |r.values| == |curs| && r.used <= |s|
    ensures forall i | 0 <= i < |curs| :: Fits(e, r.values[i])
    ensures r.status == NotEnoughData ==> r.values == curs && r.used == 0
    decreases e, |curs| + 1
  {
    if curs == [] then DecodedAll(Success, [], 0)
    else
      var h := Read(e, curs[0], s);
      if h.status != Success then DecodedAll(h.status, curs, 0)
      else
        var t := ReadAll(e, curs[1..], s[h.used..]);
        if t.status != Success then DecodedAll(t.status, curs, 0)
        else DecodedAll(Success, [h.value] + t.values, h.used + t.used)
  }

  // ---------------------------------------------------------------------
  // Round trip

  /** cur takes the same path through a read as v: wherever v has an
      optional part, cur has it in the same mode, and a missing one holds
      the same value (a read leaves a missing field alone). */
  predicate ModesMatch(cur: Value, v: Value)
    decreases v
  {
    match v
    case IntV(_) => true
    case BitsV(_) => true
    case OptV(m, inner) =>
      cur.OptV? && cur.mode == m &&
      (m == Exists ==> ModesMatch(cur.inner, inner)) &&
      (m == Missing ==> cur.inner == inner)
    case ArrV(es) =>
      cur.ArrV? && |cur.elems| == |es| && forall i | 0 <= i < |es| :: ModesMatch(cur.elems[i], es[i])
  }

  /** Decoding a field's encoding into a field whose presence modes are
      already those of the value gives back the value and consumes exactly
      the encoding. */
  lemma {:induction false} ReadWrite(k: Kind, cur: Value, v: Value, rest: seq<Byte>)
    requires WellFormed(k) && Fits(k, cur) && Fits(k, v) && Settled(v) && ModesMatch(cur, v)
    ensures Read(k, cur, Write(k, v) + rest) == Decoded(Success, v, |Write(k, v)|)
    decreases k, 0
  {
    var w := Write(k, v);
    var s := w + rest;
    match k
    case Int(n, signed, _) =>
      assert s[..n] == w;
      DecodeEncode(ToRaw(v.n, n, signed), n);
      RawRoundTrip(v.n, n, signed);
    case Bitfield(ms) =>
      var n := BitLength(ms) / 8;
      assert s[..n] == w;
      PackBound(Widths(ms), v.ms);
      Pow2Bytes(n);
      DecodeEncode(Pack(Widths(ms), v.ms), n);
      SplitPack(Widths(ms), v.ms);
    case Optional(inner, _) =>
      if v.mode == Exists {
        ReadWrite(inner, cur.inner, v.inner, rest);
      }
    case Array(e, _) =>
      ReadWriteAll(e, cur.elems, v.elems, rest);
  }

  lemma {:induction false} ReadWriteAll(e: Kind, curs: seq<Value>, vs: seq<Value>, rest: seq<Byte>)
    requires WellFormed(e) && |curs| == |vs|
    requires forall i | 0 <= i < |vs| :: Fits(e, curs[i]) && Fits(e, vs[i]) && Settled(vs[i]) && ModesMatch(curs[i], vs[i])
    ensures ReadAll(e, curs, WriteAll(e, vs) + rest) == DecodedAll(Success, vs, |WriteAll(e, vs)|)
    decreases e, |vs| + 1
  {
    if vs != [] {
      ReadWrite(e, curs[0], vs[0], WriteAll(e, vs[1..]) + rest);
      ReadWriteAll(e, curs[1..], vs[1..], rest);
      ReadWriteAllStep(e, curs, vs, rest);
    }
  }

  /** The inductive step of ReadWriteAll: the head's and the tail's round
      trips make the whole sequence's. */
  lemma ReadWriteAllStep(e: Kind, curs: seq<Value>, vs: seq<Value>, rest: seq<Byte>)
    requires WellFormed(e) && |curs| == |vs| > 0
    requires forall i | 0 <= i < |vs| :: Fits(e, curs[i]) && Fits(e, vs[i])
    requires var head, tail := Write(e, vs[0]), WriteAll(e, vs[1..]);
             Read(e, curs[0], head + (tail + rest)) == Decoded(Success, vs[0], |head|)
    requires ReadAll(e, curs[1..], WriteAll(e, vs[1..]) + rest) == DecodedAll(Success, vs[1..], |WriteAll(e, vs[1..])|)
    ensures ReadAll(e, curs, WriteAll(e, vs) + rest) == DecodedAll(Success, vs, |WriteAll(e, vs)|)
  {
    var head, tail := Write(e, vs[0]), WriteAll(e, vs[1..]);
    var s := WriteAll(e, vs) + rest;
    WriteAllCons(e, vs);
    ConcatAssoc(head, tail, rest);
    DropPrefix(head, tail + rest);
    ReadAllCons(e, curs, s, Decoded(Success, vs[0], |head|), DecodedAll(Success, vs[1..], |tail|));
    assert [vs[0]] + vs[1..] == vs;
  }

  /** The encoding of a non-empty sequence is its head's followed by its
      tail's. */
  lemma WriteAllCons(e: Kind, vs: seq<Value>)
    requires WellFormed(e) && vs != [] && forall i | 0 <= i < |vs| :: Fits(e, vs[i])
    ensures WriteAll(e, vs) == Write(e, vs[0]) + WriteAll(e, vs[1..])
  {
  }

  lemma ConcatAssoc<T>(a: seq<T>, b: seq<T>, c: seq<T>)
    ensures (a + b) + c == a + (b + c)
  {
  }

  lemma DropPrefix<T>(a: seq<T>, b: seq<T>)
    ensures (a + b)[|a|..] == b
  {
  }

  /** ReadAll of a non-empty sequence whose head and tail both read. */
  lemma ReadAllCons(e: Kind, curs: seq<Value>, s: seq<Byte>, h: Decoded, t: DecodedAll)
    requires WellFormed(e) && curs != [] && forall i | 0 <= i < |curs| :: Fits(e, curs[i])
    requires Read(e, curs[0], s) == h && h.status == Success
    requires ReadAll(e, curs[1..], s[h.used..]) == t && t.status == Success
    ensures ReadAll(e, curs, s) == DecodedAll(Success, [h.value] + t.values, h.used + t.used)
  {
  }

  /** A field without optional parts matches any value of its kind, and
      such a value has nothing left Tentative. */
  lemma {:induction false} FixedModesMatch(k: Kind, cur: Value, v: Value)
    requires FixedLength(k) && Fits(k, cur) && Fits(k, v)
    ensures ModesMatch(cur, v) && Settled(v)
    decreases k
  {
    match k
    case Int(_, _, _) =>
    case Bitfield(_) =>
    case Array(e, count) =>
      forall i | 0 <= i < count
        ensures ModesMatch(cur.elems[i], v.elems[i]) && Settled(v.elems[i])
      {
        FixedModesMatch(e, cur.elems[i], v.elems[i]);
      }
  }

  // ---------------------------------------------------------------------
  // Lengths

  lemma MulSucc(n: int, m: int)
    ensures (n + 1) * m == n * m + m
  {
  }

  lemma MulNonNeg(n: nat, m: nat)
    ensures n * m >= 0
  {
  }

  /** A field without optional parts is always encoded in MaxLength
      bytes. */
  lemma {:induction false} WriteFixed(k: Kind, v: Value)
    requires WellFormed(k) && Fits(k, v) && FixedLength(k)
    ensures |Write(k, v)| == MaxLength(k)
    decreases k, 0
  {
    match k
    case Int(_, _, _) =>
    case Bitfield(_) =>
    case Array(e, _) => WriteAllFixed(e, v.elems);
  }

  lemma {:induction false} WriteAllFixed(e: Kind, vs: seq<Value>)
    requires WellFormed(e) && FixedLength(e) && forall i | 0 <= i < |vs| :: Fits(e, vs[i])
    ensures |WriteAll(e, vs)| == |vs| * MaxLength(e)
    decreases e, |vs| + 1
  {
    if vs != [] {
      WriteFixed(e, vs[0]);
      WriteAllFixed(e, vs[1..]);
      MulSucc(|vs| - 1, MaxLength(e));
    }
  }

  /** A field without optional parts reads successfully exactly when at
      least MaxLength bytes remain, and then consumes MaxLength bytes. */
  lemma {:induction false} ReadFixed(k: Kind, cur: Value, s: seq<Byte>)
    requires WellFormed(k) && Fits(k, cur) && FixedLength(k)
    ensures Read(k, cur, s).status == Success <==> |s| >= MaxLength(k)
    ensures Read(k, cur, s).status == Success ==> Read(k, cur, s).used == MaxLength(k)
    decreases k, 0
  {
    match k
    case Int(_, _, _) =>
    case Bitfield(_) =>
    case Array(e, _) => ReadAllFixed(e, cur.elems, s);
  }

  lemma {:induction false} ReadAllFixed(e: Kind, curs: seq<Value>, s: seq<Byte>)
    requires WellFormed(e) && FixedLength(e) && forall i | 0 <= i < |curs| :: Fits(e, curs[i])
    ensures ReadAll(e, curs, s).status == Success <==> |s| >= |curs| * MaxLength(e)
    ensures ReadAll(e, curs, s).status == Success ==> ReadAll(e, curs, s).used == |curs| * MaxLength(e)
    decreases e, |curs| + 1
  {
    if curs != [] {
      var m, n := MaxLength(e), |curs| - 1;
      MulSucc(n, m);
      MulNonNeg(n, m);
      ReadFixed(e, curs[0], s);
      if |s| >= m {
        ReadAllFixed(e, curs[1..], s[m..]);
      }
    }
  }

  /** The current value of a field without optional parts plays no part in
      a successful read. */
  lemma {:induction false} ReadIgnoresOld(k: Kind, a: Value, b: Value, s: seq<Byte>)
    requires WellFormed(k) && FixedLength(k) && Fits(k, a) && Fits(k, b)
    ensures Read(k, a, s).status == Read(k, b, s).status
    ensures Read(k, a, s).status == Success ==> Read(k, a, s) == Read(k, b, s)
    decreases k, 0
  {
    match k
    case Int(_, _, _) =>
    case Bitfield(_) =>
    case Array(e, _) => ReadAllIgnoresOld(e, a.elems, b.elems, s);
  }

  lemma {:induction false} ReadAllIgnoresOld(e: Kind, xs: seq<Value>, ys: seq<Value>, s: seq<Byte>)
    requires WellFormed(e) && FixedLength(e) && |xs| == |ys|
    requires forall i | 0 <= i < |xs| :: Fits(e, xs[i]) && Fits(e, ys[i])
    ensures ReadAll(e, xs, s).status == ReadAll(e, ys, s).status
    ensures ReadAll(e, xs, s).status == Success ==> ReadAll(e, xs, s) == ReadAll(e, ys, s)
    decreases e, |xs| + 1
  {
    if xs != [] {
      ReadIgnoresOld(e, xs[0], ys[0], s);
      var h := Read(e, xs[0], s);
      if h.status == Success {
        ReadAllIgnoresOld(e, xs[1..], ys[1..], s[h.used..]);
      }
    }
  }

  /** Reading integers of n bytes each from enough bytes succeeds and
      element k is the integer in bytes k*n up to k*n + n - 1. */
  lemma {:induction false} ReadAllInts(n: nat, signed: bool, c: Check, curs: seq<Value>, s: seq<Byte>)
    requires n >= 1 && |s| >= |curs| * n
    requires forall i | 0 <= i < |curs| :: Fits(Int(n, signed, c), curs[i])
    ensures var r := ReadAll(Int(n, signed, c), curs, s);
            r.status == Success && r.used == |curs| * n &&
            forall k | 0 <= k < |curs| :: k * n + n <= |s| && r.values[k] == IntV(LEInt(s[k * n..k * n + n], signed))
    decreases |curs|
  {
    if curs != [] {
      var e, m := Int(n, signed, c), |curs| - 1;
      MulSucc(m, n);
      MulNonNeg(m, n);
      ReadAllInts(n, signed, c, curs[1..], s[n..]);
      var h := Read(e, curs[0], s);
      var t := ReadAll(e, curs[1..], s[n..]);
      ReadAllCons(e, curs, s, h, t);
      var r := ReadAll(e, curs, s);
      assert r.values == [h.value] + t.values;
      forall k | 0 <= k < |curs|
        ensures k * n + n <= |s| && r.values[k] == IntV(LEInt(s[k * n..k * n + n], signed))
      {
        WordBounds(n, k, |curs|);
        if k == 0 {
          assert s[..n] == s[0..n];
          assert r.values[0] == h.value;
        } else {
          NextWord(s, n, k);
          assert r.values[k] == t.values[k - 1];
        }
      }
    }
  }

  lemma WordBounds(n: nat, k: nat, count: nat)
    requires k < count
    ensures k * n + n <= count * n
  {
    MulMono(n, k + 1, count);
    MulSucc(k, n);
  }

  /** Word k of s is word k - 1 of s without its first word. */
  lemma NextWord(s: seq<Byte>, n: nat, k: nat)
    requires k >= 1 && k * n + n <= |s|
    ensures n <= |s| && (k - 1) * n + n <= |s[n..]|
    ensures s[n..][(k - 1) * n..(k - 1) * n + n] == s[k * n..k * n + n]
  {
    MulSucc(k - 1, n);
  }
}
