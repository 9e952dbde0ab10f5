/**
 * The value model: the closed set of scalar kinds a trace call may capture,
 * the fixed width of each, the per-kind byte codec, and the codec of a whole
 * value tuple (a record's payload).
 *
 * Widths follow a 64-bit platform: `int` is four bytes of two's complement,
 * `float` four bytes (kept as an uninterpreted bit pattern), and a text value
 * is an eight-byte reference to a string the record does not own.
 */
module Values {
  import opened Bytes

  newtype i32 = x: int | -0x8000_0000 <= x < 0x8000_0000
  newtype u32 = x: int | 0 <= x < 0x1_0000_0000
  newtype u64 = x: int | 0 <= x < 0x1_0000_0000_0000_0000

  datatype Kind = Int | Float | Text

  datatype Value =
    | IntVal(i: i32)
    | FloatVal(bits: u32)
    | TextVal(ref: u64)   // the address of a string the caller keeps alive

  /** A tuple type: the count, order and kinds of the captured values. */
  type Shape = seq<Kind>

  function KindOf(v: Value): Kind
  {
    match v
    case IntVal(_) => Int
    case FloatVal(_) => Float
    case TextVal(_) => Text
  }

  /** `sizeof` of one captured value. */
  function Width(k: Kind): nat
  {
    match k
    case Int => 4
    case Float => 4
    case Text => 8
  }

  /** The unsigned bit pattern stored for a value. */
  function Bits(v: Value): (n: nat)
    ensures n < Pow256(Width(KindOf(v)))
  {
    PowLimits();
    match v
    case IntVal(i) => if i < 0 then i as int + 0x1_0000_0000 else i as int
    case FloatVal(b) => b as int
    case TextVal(r) => r as int
  }

  /** The value of kind k whose bit pattern is n. */
  function FromBits(k: Kind, n: nat): (v: Value)
    requires n < Pow256(Width(k))
    ensures KindOf(v) == k && Bits(v) == n
  {
    PowLimits();
    match k
    case Int => if n < 0x8000_0000 then IntVal(n as i32) else IntVal((n - 0x1_0000_0000) as i32)
    case Float => FloatVal(n as u32)
    case Text => TextVal(n as u64)
  }

  lemma BitsInjective(v: Value)
    ensures FromBits(KindOf(v), Bits(v)) == v
  {
  }

  function EncodeValue(v: Value): (r: seq<byte>)
    ensures |r| == Width(KindOf(v))
  {
    ToLE(Bits(v), Width(KindOf(v)))
  }

  function DecodeValue(k: Kind, s: seq<byte>): (v: Value)
    requires |s| == Width(k)
    ensures KindOf(v) == k
  {
    FromBits(k, FromLE(s))
  }

  lemma DecodeEncodeValue(v: Value)
    ensures DecodeValue(KindOf(v), EncodeValue(v)) == v
  {
    FromToLE(Bits(v), Width(KindOf(v)));
    BitsInjective(v);
  }

  lemma EncodeDecodeValue(k: Kind, s: seq<byte>)
    requires |s| == Width(k)
    ensures EncodeValue(DecodeValue(k, s)) == s
  {
    ToFromLE(s);
  }

  /** The tuple type of a captured value sequence. */
  function ShapeOf(vals: seq<Value>): (shape: Shape)
    ensures |shape| == |vals|
    ensures forall i :: 0 <= i < |vals| ==> shape[i] == KindOf(vals[i])
  {
    if vals == [] then [] else [KindOf(vals[0])] + ShapeOf(vals[1..])
  }

  /** `sizeof` of a tuple of the given type: the sum of its element widths. */
  function ShapeSize(shape: Shape): nat
  {
    if shape == [] then 0 else Width(shape[0]) + ShapeSize(shape[1..])
  }

  /** The payload bytes of a tuple: its elements' bytes, contiguous, in order. */
  function EncodeTuple(vals: seq<Value>): (r: seq<byte>)
    ensures |r| == ShapeSize(ShapeOf(vals))
  {
    if vals == [] then []
    else
      assert ShapeOf(vals)[1..] == ShapeOf(vals[1..]);
      EncodeValue(vals[0]) + EncodeTuple(vals[1..])
  }

  /** Reinterprets the first ShapeSize(shape) bytes of s as a tuple of that type. */
  function DecodeTuple(shape: Shape, s: seq<byte>): (vals: seq<Value>)
    requires ShapeSize(shape) <= |s|
    ensures ShapeOf(vals) == shape
  {
    if shape == [] then []
    else
      var w := Width(shape[0]);
      var rest := DecodeTuple(shape[1..], s[w..]);
      var vals := [DecodeValue(shape[0], s[..w])] + rest;
      assert ShapeOf(vals) == shape by {
        assert ShapeOf(vals)[1..] == ShapeOf(vals[1..]);
        assert vals[1..] == rest;
      }
      vals
  }

  /** Decoding a payload at its own type gives back the tuple, whatever follows it. */
  lemma {:induction false} DecodeEncodeTuple(vals: seq<Value>, rest: seq<byte>)
    ensures DecodeTuple(ShapeOf(vals), EncodeTuple(vals) + rest) == vals
  {
    if vals != [] {
      var v, tail := vals[0], vals[1..];
      var shape := ShapeOf(vals);
      assert shape == [KindOf(v)] + ShapeOf(tail);
      var w := Width(KindOf(v));
      var s := EncodeValue(v) + (EncodeTuple(tail) + rest);
      assert EncodeTuple(vals) + rest == s;
      assert s[..w] == EncodeValue(v) && s[w..] == EncodeTuple(tail) + rest;
      DecodeEncodeValue(v);
      DecodeEncodeTuple(tail, rest);
    }
  }

  /** Every payload-sized byte string is the encoding of the tuple it decodes to. */
  lemma {:induction false} EncodeDecodeTuple(shape: Shape, s: seq<byte>)
    requires ShapeSize(shape) == |s|
    ensures EncodeTuple(DecodeTuple(shape, s)) == s
  {
    if shape != [] {
      var w := Width(shape[0]);
      var vals := DecodeTuple(shape, s);
      assert vals[1..] == DecodeTuple(shape[1..], s[w..]);
      EncodeDecodeValue(shape[0], s[..w]);
      EncodeDecodeTuple(shape[1..], s[w..]);
      assert s == s[..w] + s[w..];
    }
  }
}
