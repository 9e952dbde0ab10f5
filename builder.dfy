/**
 * The call-site builder: `TraceFor(area) << v1 << ... << vn` builds a chain
 * of containers, each holding one streamed value and a link back to the
 * container it was streamed onto. Executing the chain walks back to the root,
 * prepending each container's value to the argument list, so that the root
 * calls `Trace(area, " -- ", v1, ..., vn)` with the values in streaming order.
 */
module Builder {
  import opened Values
  import opened Records
  import opened Tracer

  /** The address of the string literal " -- " that separates the area from the values. */
  const SeparatorRef: u64 := 1

  const Separator: Value := TextVal(SeparatorRef)

  /** A builder: the root holds the trace area; every other container one streamed value. */
  datatype Container =
    | Root(area: u64)
    | Link(src: Container, val: Value)

  /** The trace area a chain was started for. */
  function AreaOf(c: Container): u64
  {
    match c
    case Root(area) => area
    case Link(src, _) => AreaOf(src)
  }

  /** The values streamed onto a chain, first streamed first. */
  function Streamed(c: Container): seq<Value>
  {
    match c
    case Root(_) => []
    case Link(src, v) => Streamed(src) + [v]
  }

  /** Starts a chain for one trace area, with nothing streamed yet. */
  function TraceFor(area: u64): (c: Container)
    ensures AreaOf(c) == area && Streamed(c) == []
  {
    Root(area)
  }

  /** `src << x`: a chain that streams x after everything src streams. */
  function Shift(src: Container, x: Value): (c: Container)
    ensures AreaOf(c) == AreaOf(src)
    ensures Streamed(c) == Streamed(src) + [x]
  {
    Link(src, x)
  }

  /**
   * The argument list the root passes to `Trace` when the chain is executed
   * with trailing arguments x: the area, the separator, the streamed values
   * in streaming order, then x.
   */
  function ExecTrace(c: Container, x: seq<Value>): (args: seq<Value>)
    ensures args == [TextVal(AreaOf(c)), Separator] + Streamed(c) + x
  {
    match c
    case Root(area) => [TextVal(area), Separator] + x
    case Link(src, v) =>
      var args := ExecTrace(src, [v] + x);
      assert args == [TextVal(AreaOf(c)), Separator] + Streamed(c) + x by {
        assert Streamed(c) + x == Streamed(src) + ([v] + x);
      }
      args
  }

  /** The chain `TraceFor(area) << vs[0] << ... << vs[|vs| - 1]`. */
  function Chain(area: u64, vs: seq<Value>): Container
    decreases |vs|
  {
    if vs == [] then TraceFor(area) else Shift(Chain(area, vs[..|vs| - 1]), vs[|vs| - 1])
  }

  /** Streaming values one after another preserves their order. */
  lemma {:induction false} ChainStreams(area: u64, vs: seq<Value>)
    ensures AreaOf(Chain(area, vs)) == area
    ensures Streamed(Chain(area, vs)) == vs
    decreases |vs|
  {
    if vs != [] {
      var init, last := vs[..|vs| - 1], vs[|vs| - 1];
      ChainStreams(area, init);
      assert Chain(area, vs) == Shift(Chain(area, init), last);
      assert Streamed(Shift(Chain(area, init), last)) == init + [last];
      assert init + [last] == vs;
    }
  }

  /** Executing a chain built from vs traces (area, " -- ", vs...) exactly. */
  lemma ChainExecTrace(area: u64, vs: seq<Value>)
    ensures ExecTrace(Chain(area, vs), []) == [TextVal(area), Separator] + vs
  {
    ChainStreams(area, vs);
    assert Streamed(Chain(area, vs)) + [] == vs;
  }

  /**
   * `TraceEntryPusher() , chain`: executes the finished chain, which appends
   * exactly one record holding (area, " -- ", streamed values...).
   */
  method Emit(t: BinaryTracer, c: Container)
    requires t.Valid() && ShapeOf(ExecTrace(c, [])) in t.registry
    modifies t
    ensures t.Valid()
    ensures t.records == old(t.records) + [[TextVal(AreaOf(c)), Separator] + Streamed(c)]
  {
    var args := ExecTrace(c, []);
    assert args == [TextVal(AreaOf(c)), Separator] + Streamed(c);
    Trace(t, args);
  }
}
