/**
 * The trace store and its two paths: `Trace` appends one record per call,
 * `LoadBuffer` walks the bytes back and prints every record in order.
 */
module Tracer {
  import opened Bytes
  import opened Values
  import opened Printer
  import opened Records

  /**
   * The process-wide byte store. `registry` stands for the decoders the
   * build contains; `records` is the proof's view of the captured tuples.
   */
  class BinaryTracer {
    const registry: Registry
    var storage: seq<byte>
    ghost var records: seq<seq<Value>>

    /** The store holds exactly the records of the captured tuples, in capture order. */
    ghost predicate Valid()
      reads this
    {
      Registered(registry, records) && storage == EncodeAll(registry, records)
    }

    /** The store starts empty. */
    constructor (registry: Registry)
      ensures this.registry == registry
      ensures storage == [] && records == []
      ensures Valid()
    {
      this.registry := registry;
      storage := [];
      records := [];
    }

    /** Appends the first sz bytes of buffer at the end of the store. */
    method Write(buffer: array<byte>, sz: nat)
      requires sz <= buffer.Length
      modifies this`storage
      ensures storage == old(storage) + buffer[..sz]
      ensures |storage| == |old(storage)| + sz && storage[..|old(storage)|] == old(storage)
    {
      storage := storage + buffer[..sz];
    }
  }

  /** memcpy(dst + at, src, |src|). */
  method CopyBytes(dst: array<byte>, at: nat, src: seq<byte>)
    requires at + |src| <= dst.Length
    modifies dst
    ensures dst[..] == old(dst[..at]) + src + old(dst[at + |src|..])
  {
    var i := 0;
    while i < |src|
      invariant 0 <= i <= |src|
      invariant forall k :: 0 <= k < dst.Length ==>
        dst[k] == if at <= k < at + i then src[k - at] else old(dst[k])
    {
      dst[at + i] := src[i];
      i := i + 1;
    }
    assert dst[..] == old(dst[..at]) + src + old(dst[at + |src|..]) by {
      forall k | 0 <= k < dst.Length
        ensures dst[..][k] == (old(dst[..at]) + src + old(dst[at + |src|..]))[k]
      {
      }
    }
  }

  /**
   * Captures one tuple: builds its record in a local buffer (the handle
   * first, the payload right after it) and appends the buffer to the store.
   */
  method Trace(t: BinaryTracer, vals: seq<Value>)
    requires t.Valid() && ShapeOf(vals) in t.registry
    modifies t
    ensures t.Valid()
    ensures t.records == old(t.records) + [vals]
    ensures t.storage == old(t.storage) + EncodeRecord(t.registry, vals)
    ensures |t.storage| == |old(t.storage)| + HandleWidth + ShapeSize(ShapeOf(vals))
  {
    var handle := EncodeHandle(HandleFor(t.registry, ShapeOf(vals)));
    var payload := EncodeTuple(vals);
    var buffer := new byte[HandleWidth + |payload|];
    CopyBytes(buffer, 0, handle);
    CopyBytes(buffer, HandleWidth, payload);
    assert buffer[..] == EncodeRecord(t.registry, vals);
    t.Write(buffer, buffer.Length);
    assert buffer[..buffer.Length] == buffer[..];
    EncodeAllAppend(t.registry, t.records, [vals]);
    assert EncodeAll(t.registry, [vals]) == EncodeRecord(t.registry, vals) by {
      assert [vals][1..] == [];
    }
    t.records := t.records + [vals];
  }

  /**
   * Replays a store holding the records of `recs`. At the top of every
   * iteration the cursor is at the start of the next record; the decoder its
   * handle names prints the record and reports how far to advance. The loop
   * stops exactly at sz (`stop`). `cursors` lists where each iteration started.
   */
  method LoadBuffer(reg: Registry, buffer: seq<byte>, sz: nat, ghost recs: seq<seq<Value>>)
    returns (out: seq<Token>, ghost cursors: seq<nat>, ghost stop: nat)
    requires sz <= |buffer|
    requires Registered(reg, recs) && buffer[..sz] == EncodeAll(reg, recs)
    ensures out == RenderAll(recs)
    ensures sz == 0 ==> out == []
    ensures cursors == Offsets(reg, recs, |recs|)
    ensures stop == sz
  {
    out, cursors := [], [];
    ghost var i := 0;
    var pos: nat := 0;
    while pos < sz
      invariant i <= |recs| && pos == Offset(reg, recs, i)
      invariant out == RenderAll(recs[..i])
      invariant cursors == Offsets(reg, recs, i)
      decreases sz - pos
    {
      ghost var next := NextRecord(reg, buffer, sz, recs, i, pos);
      cursors := cursors + [pos];
      var tag := DecodeHandle(buffer[pos..pos + HandleWidth]);
      pos := pos + HandleWidth;
      var d := Print(reg[tag], buffer[pos..sz]);
      out := out + d.output;
      pos := pos + d.consumed;
      StepRender(recs, i);
      StepOffsets(reg, recs, i);
      i := i + 1;
    }
    OffsetBelowEnd(reg, recs, i);
    assert recs[..i] == recs;
    OffsetEnd(reg, recs);
    stop := pos;
  }

  /**
   * When the cursor stands at the start of record i, before the end of a
   * well-formed store, that record exists; its handle decodes to a known tag
   * whose decoder prints the record and consumes exactly its payload.
   */
  lemma NextRecord(reg: Registry, buffer: seq<byte>, sz: nat, recs: seq<seq<Value>>, i: nat, pos: nat)
    returns (next: nat)
    requires sz <= |buffer| && Registered(reg, recs) && buffer[..sz] == EncodeAll(reg, recs)
    requires i <= |recs| && pos == Offset(reg, recs, i) && pos < sz
    ensures i < |recs| && next == Offset(reg, recs, i + 1)
    ensures pos + HandleWidth <= next <= sz
    ensures DecodeHandle(buffer[pos..pos + HandleWidth]) < |reg|
    ensures ShapeSize(reg[DecodeHandle(buffer[pos..pos + HandleWidth])]) <= sz - (pos + HandleWidth)
    ensures Print(reg[DecodeHandle(buffer[pos..pos + HandleWidth])], buffer[pos + HandleWidth..sz]) ==
            Decoded(PrintTuple(recs[i]), next - (pos + HandleWidth))
  {
    OffsetBelowEnd(reg, recs, i);
    RecordAt(reg, recs, i);
    next := Offset(reg, recs, i + 1);
    var rec := EncodeRecord(reg, recs[i]);
    var tail := EncodeAll(reg, recs[i + 1..]);
    assert buffer[pos..sz] == rec + tail by {
      assert buffer[pos..sz] == buffer[..sz][pos..];
    }
    Carve(buffer, sz, pos, rec, tail);
    RecordRoundTrip(reg, recs[i], tail);
  }

  /** The handle and the rest of a record found at pos, read back out of the buffer. */
  lemma Carve(buffer: seq<byte>, sz: nat, pos: nat, rec: seq<byte>, tail: seq<byte>)
    requires pos <= sz <= |buffer| && HandleWidth <= |rec|
    requires buffer[pos..sz] == rec + tail
    ensures buffer[pos..pos + HandleWidth] == rec[..HandleWidth]
    ensures buffer[pos + HandleWidth..sz] == rec[HandleWidth..] + tail
  {
    assert buffer[pos..pos + HandleWidth] == buffer[pos..sz][..HandleWidth];
    assert buffer[pos + HandleWidth..sz] == buffer[pos..sz][HandleWidth..];
  }

  lemma StepOffsets(reg: Registry, recs: seq<seq<Value>>, i: nat)
    requires Registered(reg, recs) && i < |recs|
    ensures Offsets(reg, recs, i + 1) == Offsets(reg, recs, i) + [Offset(reg, recs, i)]
  {
  }

  lemma StepRender(recs: seq<seq<Value>>, i: nat)
    requires i < |recs|
    ensures RenderAll(recs[..i + 1]) == RenderAll(recs[..i]) + PrintTuple(recs[i])
  {
    assert recs[..i + 1] == recs[..i] + [recs[i]];
    RenderAllAppend(recs[..i], [recs[i]]);
    assert [recs[i]][1..] == [];
  }
}
