/**
 * The value printer. Output is modelled as a stream of tokens: one token per
 * printed value and one per line terminator. How a single value is rendered
 * as text (stream formatting of numbers, the characters a text reference
 * points to) is not modelled; only which values are printed, in which order,
 * and where lines end.
 */
module Printer {
  import opened Values

  datatype Token = Item(v: Value) | EndLine

  /** Prints elements i .. |x|-1 of a tuple, then the line terminator. */
  function TuplePrinter(i: nat, x: seq<Value>): (r: seq<Token>)
    requires i <= |x|
    ensures |r| == |x| - i + 1
    ensures forall k :: 0 <= k < |x| - i ==> r[k] == Item(x[i + k])
    ensures r[|x| - i] == EndLine
    decreases |x| - i
  {
    if i == |x| then [EndLine] else [Item(x[i])] + TuplePrinter(i + 1, x)
  }

  /** One printed line: every element in index order, nothing between them, one terminator. */
  function PrintTuple(x: seq<Value>): (r: seq<Token>)
    ensures |r| == |x| + 1
    ensures forall k :: 0 <= k < |x| ==> r[k] == Item(x[k])
    ensures r[|x|] == EndLine
  {
    TuplePrinter(0, x)
  }

  /** The output of printing a sequence of tuples one after another. */
  function RenderAll(recs: seq<seq<Value>>): seq<Token>
  {
    if recs == [] then [] else PrintTuple(recs[0]) + RenderAll(recs[1..])
  }

  /**
   * How a reader splits the output into lines: every EndLine closes one line,
   * and items after the last EndLine form a final unterminated line.
   */
  function Lines(t: seq<Token>): seq<seq<Value>>
  {
    if t == [] then []
    else
      var rest := Lines(t[1..]);
      match t[0]
      case EndLine => [[]] + rest
      case Item(v) => if rest == [] then [[v]] else [[v] + rest[0]] + rest[1..]
  }

  lemma {:induction false} LinesOfTuplePrinter(i: nat, x: seq<Value>, t: seq<Token>)
    requires i <= |x|
    ensures Lines(TuplePrinter(i, x) + t) == [x[i..]] + Lines(t)
    decreases |x| - i
  {
    var p := TuplePrinter(i, x) + t;
    if i == |x| {
      assert p[0] == EndLine && p[1..] == t;
      assert x[i..] == [];
    } else {
      assert p[1..] == TuplePrinter(i + 1, x) + t;
      LinesOfTuplePrinter(i + 1, x, t);
      assert x[i..] == [x[i]] + x[i + 1..];
    }
  }

  /** Printing N tuples yields exactly N lines, the i-th holding the i-th tuple's values in order. */
  lemma {:induction false} LinesOfRenderAll(recs: seq<seq<Value>>)
    ensures Lines(RenderAll(recs)) == recs
  {
    if recs != [] {
      LinesOfTuplePrinter(0, recs[0], RenderAll(recs[1..]));
      LinesOfRenderAll(recs[1..]);
      assert recs[0][0..] == recs[0];
      assert recs == [recs[0]] + recs[1..];
    }
  }

  lemma {:induction false} RenderAllAppend(a: seq<seq<Value>>, b: seq<seq<Value>>)
    ensures RenderAll(a + b) == RenderAll(a) + RenderAll(b)
  {
    if a != [] {
      assert (a + b)[1..] == a[1..] + b;
      RenderAllAppend(a[1..], b);
    } else {
      assert a + b == b;
    }
  }
}
