/**
 * One trace record: a fixed-width decode handle followed immediately by the
 * tuple payload. The handle names the decoder instantiated for one exact tuple
 * type; here it is a tag, an index into a registry of tuple types, written as
 * an eight-byte little-endian word where the original stores a function
 * pointer.
 */
module Records {
  import opened Bytes
  import opened Values
  import opened Printer

  /** `sizeof fn`: the width of a decode handle. */
  const HandleWidth: nat := 8

  /** The decoders of one build, by tag. Every tag fits in a handle. */
  type Registry = r: seq<Shape> | |r| <= 0x1_0000_0000_0000_0000

  /** One decoder per tuple type, as one template instantiation per type gives. */
  ghost predicate Distinct(reg: Registry)
  {
    forall i, j :: 0 <= i < j < |reg| ==> reg[i] != reg[j]
  }

  /** The handle a call site binds to its tuple type: the first tag registered for it. */
  function HandleFor(reg: Registry, shape: Shape): (tag: nat)
    requires shape in reg
    ensures tag < |reg| && reg[tag] == shape
    ensures forall j :: 0 <= j < tag ==> reg[j] != shape
  {
    if reg[0] == shape then 0 else 1 + HandleFor(reg[1..], shape)
  }

  function EncodeHandle(tag: nat): (r: seq<byte>)
    requires tag < 0x1_0000_0000_0000_0000
    ensures |r| == HandleWidth
  {
    PowLimits();
    ToLE(tag, HandleWidth)
  }

  function DecodeHandle(s: seq<byte>): (tag: nat)
    requires |s| == HandleWidth
    ensures tag < 0x1_0000_0000_0000_0000
  {
    PowLimits();
    FromLE(s)
  }

  lemma DecodeEncodeHandle(tag: nat)
    requires tag < 0x1_0000_0000_0000_0000
    ensures DecodeHandle(EncodeHandle(tag)) == tag
  {
    PowLimits();
    FromToLE(tag, HandleWidth);
  }

  lemma EncodeDecodeHandle(s: seq<byte>)
    requires |s| == HandleWidth
    ensures EncodeHandle(DecodeHandle(s)) == s
  {
    ToFromLE(s);
  }

  /**
   * The bytes one trace call appends: the handle of the tuple's type, then
   * the tuple's payload; their total length depends on the type alone.
   */
  function EncodeRecord(reg: Registry, vals: seq<Value>): (r: seq<byte>)
    requires ShapeOf(vals) in reg
    ensures |r| == HandleWidth + ShapeSize(ShapeOf(vals))
    ensures r[..HandleWidth] == EncodeHandle(HandleFor(reg, ShapeOf(vals)))
    ensures r[HandleWidth..] == EncodeTuple(vals)
  {
    EncodeHandle(HandleFor(reg, ShapeOf(vals))) + EncodeTuple(vals)
  }

  /** Two tuples of the same type give records of the same length and the same handle. */
  lemma RecordLengthByShape(reg: Registry, a: seq<Value>, b: seq<Value>)
    requires ShapeOf(a) in reg && ShapeOf(a) == ShapeOf(b)
    ensures |EncodeRecord(reg, a)| == |EncodeRecord(reg, b)|
    ensures EncodeRecord(reg, a)[..HandleWidth] == EncodeRecord(reg, b)[..HandleWidth]
  {
  }

  /** What a decoder reports: the output it produced and the bytes it consumed. */
  datatype Decoded = Decoded(output: seq<Token>, consumed: nat)

  /** The decoder for tuple type `shape`, applied to the bytes after a handle. */
  function Print(shape: Shape, input: seq<byte>): (d: Decoded)
    requires ShapeSize(shape) <= |input|
    ensures d.consumed == ShapeSize(shape)
    ensures |d.output| == |shape| + 1 && d.output[|shape|] == EndLine
  {
    Decoded(PrintTuple(DecodeTuple(shape, input)), ShapeSize(shape))
  }

  /**
   * The handle of an encoded record names the decoder for the record's tuple
   * type, and that decoder, given the payload and whatever follows it, prints
   * the captured values and consumes exactly the payload the encoder wrote.
   */
  lemma RecordRoundTrip(reg: Registry, vals: seq<Value>, rest: seq<byte>)
    requires ShapeOf(vals) in reg
    ensures DecodeHandle(EncodeRecord(reg, vals)[..HandleWidth]) == HandleFor(reg, ShapeOf(vals))
    ensures Print(ShapeOf(vals), EncodeTuple(vals) + rest) ==
            Decoded(PrintTuple(vals), |EncodeRecord(reg, vals)| - HandleWidth)
  {
    DecodeEncodeHandle(HandleFor(reg, ShapeOf(vals)));
    DecodeEncodeTuple(vals, rest);
  }

  /** Every captured tuple has a registered decoder. */
  ghost predicate Registered(reg: Registry, recs: seq<seq<Value>>)
  {
    forall i :: 0 <= i < |recs| ==> ShapeOf(recs[i]) in reg
  }

  /** The store after capturing recs in order: their records back to back. */
  function EncodeAll(reg: Registry, recs: seq<seq<Value>>): (b: seq<byte>)
    requires Registered(reg, recs)
    ensures b == [] <==> recs == []
  {
    if recs == [] then [] else EncodeRecord(reg, recs[0]) + EncodeAll(reg, recs[1..])
  }

  lemma {:induction false} EncodeAllAppend(reg: Registry, a: seq<seq<Value>>, b: seq<seq<Value>>)
    requires Registered(reg, a) && Registered(reg, b)
    ensures Registered(reg, a + b)
    ensures EncodeAll(reg, a + b) == EncodeAll(reg, a) + EncodeAll(reg, b)
  {
    assert Registered(reg, a + b) by {
      forall i | 0 <= i < |a + b| ensures ShapeOf((a + b)[i]) in reg {
        if i < |a| { assert (a + b)[i] == a[i]; } else { assert (a + b)[i] == b[i - |a|]; }
      }
    }
    if a == [] {
      assert a + b == b;
    } else {
      assert (a + b)[1..] == a[1..] + b;
      EncodeAllAppend(reg, a[1..], b);
    }
  }

  /** Where record j starts in the store of recs: the total length of the records before it. */
  function Offset(reg: Registry, recs: seq<seq<Value>>, j: nat): nat
    requires Registered(reg, recs) && j <= |recs|
  {
    if j == 0 then 0 else |EncodeRecord(reg, recs[0])| + Offset(reg, recs[1..], j - 1)
  }

  /** The start offsets of the first n records, in order. */
  function Offsets(reg: Registry, recs: seq<seq<Value>>, n: nat): (r: seq<nat>)
    requires Registered(reg, recs) && n <= |recs|
    ensures |r| == n
    ensures forall j :: 0 <= j < n ==> r[j] == Offset(reg, recs, j)
  {
    if n == 0 then [] else Offsets(reg, recs, n - 1) + [Offset(reg, recs, n - 1)]
  }

  /** The offset past the last record is the length of the store. */
  lemma {:induction false} OffsetEnd(reg: Registry, recs: seq<seq<Value>>)
    requires Registered(reg, recs)
    ensures Offset(reg, recs, |recs|) == |EncodeAll(reg, recs)|
  {
    if recs != [] {
      var tail := recs[1..];
      OffsetEnd(reg, tail);
      assert EncodeAll(reg, recs) == EncodeRecord(reg, recs[0]) + EncodeAll(reg, tail);
      assert Offset(reg, recs, |recs|) == |EncodeRecord(reg, recs[0])| + Offset(reg, tail, |tail|);
    }
  }

  /**
   * The store read from the start of record i is record i followed by the
   * records after it; record i ends where record i + 1 starts.
   */
  lemma {:induction false} RecordAt(reg: Registry, recs: seq<seq<Value>>, i: nat)
    requires Registered(reg, recs) && i < |recs|
    ensures Offset(reg, recs, i + 1) == Offset(reg, recs, i) + |EncodeRecord(reg, recs[i])|
    ensures Offset(reg, recs, i + 1) <= |EncodeAll(reg, recs)|
    ensures EncodeAll(reg, recs)[Offset(reg, recs, i)..] ==
            EncodeRecord(reg, recs[i]) + EncodeAll(reg, recs[i + 1..])
  {
    var rec, tail := EncodeRecord(reg, recs[0]), recs[1..];
    assert EncodeAll(reg, recs) == rec + EncodeAll(reg, tail);
    if i > 0 {
      RecordAt(reg, tail, i - 1);
      var off, rest := Offset(reg, tail, i - 1), EncodeAll(reg, tail);
      assert off <= Offset(reg, tail, i) <= |rest|;
      assert tail[i - 1] == recs[i] && tail[i..] == recs[i + 1..];
      SuffixAfter(rec, rest, off);
    }
  }

  /** Dropping a prefix and then n more bytes leaves the same suffix as dropping n bytes of the rest. */
  lemma SuffixAfter(head: seq<byte>, rest: seq<byte>, n: nat)
    requires n <= |rest|
    ensures (head + rest)[|head| + n..] == rest[n..]
  {
  }

  /** A record starts at offset j, before the end of the store, exactly when record j exists. */
  lemma OffsetBelowEnd(reg: Registry, recs: seq<seq<Value>>, j: nat)
    requires Registered(reg, recs) && j <= |recs|
    ensures Offset(reg, recs, j) <= |EncodeAll(reg, recs)|
    ensures j < |recs| <==> Offset(reg, recs, j) < |EncodeAll(reg, recs)|
  {
    OffsetEnd(reg, recs);
    if j < |recs| {
      RecordAt(reg, recs, j);
    }
  }

  /*
   * A checked replay, which the original does not have: its replay loop trusts
   * every handle and every length. This one reports an unknown handle or a
   * record cut short as a CorruptBuffer error with the record's offset.
   */

  datatype Cause = TruncatedHandle | UnknownHandle | TruncatedPayload

  datatype Corrupt = CorruptBuffer(offset: nat, cause: Cause)

  datatype Result<T> = Ok(value: T) | Err(error: Corrupt)

  function Parse(reg: Registry, b: seq<byte>): (r: Result<seq<seq<Value>>>)
    ensures r.Err? ==> r.error.offset < |b|
    decreases |b|
  {
    if b == [] then Ok([])
    else if |b| < HandleWidth then Err(CorruptBuffer(0, TruncatedHandle))
    else
      var tag := DecodeHandle(b[..HandleWidth]);
      if tag >= |reg| then Err(CorruptBuffer(0, UnknownHandle))
      else
        var n := ShapeSize(reg[tag]);
        if |b| - HandleWidth < n then Err(CorruptBuffer(0, TruncatedPayload))
        else
          var len := HandleWidth + n;
          match Parse(reg, b[len..])
          case Err(e) => Err(CorruptBuffer(len + e.offset, e.cause))
          case Ok(rest) => Ok([DecodeTuple(reg[tag], b[HandleWidth..len])] + rest)
  }

  /** Checked replay steps over one well-formed record and continues after it. */
  lemma ParseRecord(reg: Registry, vals: seq<Value>, rest: seq<byte>)
    requires ShapeOf(vals) in reg
    ensures Parse(reg, EncodeRecord(reg, vals) + rest) ==
            match Parse(reg, rest)
            case Err(e) => Err(CorruptBuffer(|EncodeRecord(reg, vals)| + e.offset, e.cause))
            case Ok(recs) => Ok([vals] + recs)
  {
    var r := EncodeRecord(reg, vals);
    var b := r + rest;
    RecordRoundTrip(reg, vals, rest);
    assert b[..HandleWidth] == r[..HandleWidth];
    assert b[|r|..] == rest;
    assert b[HandleWidth..|r|] == EncodeTuple(vals) + [];
    DecodeEncodeTuple(vals, []);
  }

  /** Checked replay of a store written by the encoder gives back the captured tuples. */
  lemma {:induction false} ParseEncodeAll(reg: Registry, recs: seq<seq<Value>>)
    requires Registered(reg, recs)
    ensures Parse(reg, EncodeAll(reg, recs)) == Ok(recs)
  {
    if recs != [] {
      var tail := recs[1..];
      assert EncodeAll(reg, recs) == EncodeRecord(reg, recs[0]) + EncodeAll(reg, tail);
      ParseEncodeAll(reg, tail);
      ParseRecord(reg, recs[0], EncodeAll(reg, tail));
      assert [recs[0]] + tail == recs;
    }
  }

  /** Conversely, every store the checked replay accepts is the encoding of what it returns. */
  lemma {:induction false} ParseSound(reg: Registry, b: seq<byte>)
    requires Distinct(reg) && Parse(reg, b).Ok?
    ensures Registered(reg, Parse(reg, b).value)
    ensures EncodeAll(reg, Parse(reg, b).value) == b
    decreases |b|
  {
    if b != [] {
      var len, vals := AcceptedRecord(reg, b);
      var rest := b[len..];
      ParseSound(reg, rest);
      var recs, tail := Parse(reg, b).value, Parse(reg, rest).value;
      assert recs[0] == vals && recs[1..] == tail;
      assert Registered(reg, recs) by {
        forall i | 0 <= i < |recs| ensures ShapeOf(recs[i]) in reg {
          if i > 0 { assert recs[i] == tail[i - 1]; }
        }
      }
      assert EncodeAll(reg, recs) == EncodeRecord(reg, vals) + EncodeAll(reg, tail);
      assert b == b[..len] + rest;
    }
  }

  /**
   * The first record of a store the checked replay accepts: the tuple it
   * decodes re-encodes to exactly the record's bytes, and the replay goes on
   * right after it.
   */
  lemma AcceptedRecord(reg: Registry, b: seq<byte>) returns (len: nat, vals: seq<Value>)
    requires Distinct(reg) && b != [] && Parse(reg, b).Ok?
    ensures HandleWidth <= len <= |b| && ShapeOf(vals) in reg
    ensures Parse(reg, b[len..]).Ok?
    ensures Parse(reg, b).value == [vals] + Parse(reg, b[len..]).value
    ensures EncodeRecord(reg, vals) == b[..len]
  {
    var tag := DecodeHandle(b[..HandleWidth]);
    var shape := reg[tag];
    len := HandleWidth + ShapeSize(shape);
    vals := DecodeTuple(shape, b[HandleWidth..len]);
    assert HandleFor(reg, shape) == tag;
    EncodeDecodeHandle(b[..HandleWidth]);
    EncodeDecodeTuple(shape, b[HandleWidth..len]);
    var r := EncodeRecord(reg, vals);
    assert r == r[..HandleWidth] + r[HandleWidth..];
    assert b[..len] == b[..HandleWidth] + b[HandleWidth..len];
  }

  /** A record cut short after its first k bytes is rejected at its own offset. */
  lemma PartialRecordRejected(reg: Registry, vals: seq<Value>, k: nat)
    requires ShapeOf(vals) in reg
    requires 0 < k < |EncodeRecord(reg, vals)|
    ensures var r := Parse(reg, EncodeRecord(reg, vals)[..k]);
            r.Err? && r.error.offset == 0 && r.error.cause != UnknownHandle
  {
    var rec := EncodeRecord(reg, vals);
    if k >= HandleWidth {
      assert rec[..k][..HandleWidth] == rec[..HandleWidth];
      RecordRoundTrip(reg, vals, []);
    }
  }

  /**
   * A store cut at an offset that is not a record boundary is rejected: the
   * error names a recognised handle whose record is incomplete, at an offset
   * before the cut.
   */
  lemma {:induction false} ParseTruncated(reg: Registry, recs: seq<seq<Value>>, k: nat)
    requires Registered(reg, recs)
    requires k <= |EncodeAll(reg, recs)|
    requires forall i :: 0 <= i <= |recs| ==> k != Offset(reg, recs, i)
    ensures var r := Parse(reg, EncodeAll(reg, recs)[..k]);
            r.Err? && r.error.offset < k && r.error.cause != UnknownHandle
  {
    assert k != Offset(reg, recs, 0);
    var b := EncodeAll(reg, recs);
    var rec := EncodeRecord(reg, recs[0]);
    var tail := EncodeAll(reg, recs[1..]);
    assert k != Offset(reg, recs, 1);
    if k < |rec| {
      assert b[..k] == rec[..k];
      PartialRecordRejected(reg, recs[0], k);
    } else {
      var j := k - |rec|;
      assert b[..k] == rec + tail[..j];
      ParseRecord(reg, recs[0], tail[..j]);
      forall i | 0 <= i <= |recs[1..]|
        ensures j != Offset(reg, recs[1..], i)
      {
        assert k != Offset(reg, recs, i + 1);
      }
      ParseTruncated(reg, recs[1..], j);
    }
  }
}
