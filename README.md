# Binary trace records: a Dafny model

This project models the record format of a low-overhead event tracer
(`logbuffers.cpp`). A call site captures an ordered tuple of values without
formatting them. `Trace` writes one record into a growing byte store. A
record is a decode handle followed immediately by the raw tuple bytes. At the
end, `LoadBuffer` walks the store with a cursor. At each record it reads the
handle, calls the decoder the handle names, which prints the tuple as one
line, and advances the cursor by the number of bytes the decoder says it
consumed. A builder (`TraceFor(area) << v1 << ... << vn`) gathers the values
at the call site and hands `(area, " -- ", v1, ..., vn)` to `Trace`.

Modules, leaves first:

- `Bytes` (`bytes.dfy`): fixed-width little-endian words and their round trips.
- `Values` (`values.dfy`): the value kinds and their widths. `int` is 4 bytes
  of two's complement. `float` is 4 bytes, kept as an uninterpreted bit
  pattern. A text value is an 8-byte reference. This module also holds the
  tuple type (`Shape`), `sizeof` of a tuple (`ShapeSize`), and the payload
  codec.
- `Printer` (`printer.dfy`): `TuplePrinter` and `PrintTuple`. Output is a
  stream of tokens: one per printed value, plus one line terminator. `Lines`
  is how a reader splits that output into lines.
- `Records` (`records.dfy`): the handle, one record, the decoder `Print`, and
  the store as records placed back to back, with each record's offset. It
  also holds a checked replay `Parse`, which the original does not have.
- `Tracer` (`tracer.dfy`): the class `BinaryTracer` holds the store.
  `Write` appends bytes to the store. `Trace` builds a record in a local
  buffer and appends it. `LoadBuffer` is the replay loop.
- `Builder` (`builder.dfy`): the container chain, `operator<<` (`Shift`),
  `ExecTrace`, and the pusher (`Emit`).

The handle is modelled as a tag. In the original, a handle is the address of
`Print<T>`, instantiated once per tuple type `T`. Here a handle is an index
into a registry of tuple types, written as an 8-byte little-endian word. The
tag for a tuple type is its first index in the registry.

## Model

| member | source | states |
|---|---|---|
| `Values.ShapeOf` | logbuffers.cpp:59 | the tuple type of the captured values has one kind per value, in argument order |
| `Values.EncodeTuple` | logbuffers.cpp:63 | the payload is `sizeof` of the tuple type long, whatever the values are |
| `Values.DecodeEncodeTuple` | logbuffers.cpp:39-40 | reading a payload back at its own tuple type gives the captured values, whatever bytes follow it |
| `Values.EncodeDecodeTuple` | logbuffers.cpp:39 | every byte string of a tuple type's size is the payload of the tuple it reads back as |
| `Values.DecodeEncodeValue` | logbuffers.cpp:63 | each value's bytes read back as that same value (two's complement for `int`) |
| `Printer.TuplePrinter` | logbuffers.cpp:9-28 | printing from index i emits elements i..N-1 in index order, then exactly one terminator |
| `Printer.PrintTuple` | logbuffers.cpp:30-34 | a printed tuple is every element in index order with nothing between them, then one terminator |
| `Printer.LinesOfRenderAll` | logbuffers.cpp:9-34 | printing N tuples in order gives exactly N lines, and line i holds tuple i's values in order |
| `Records.HandleFor` | logbuffers.cpp:60 | the handle a call site binds names a decoder registered for exactly that tuple type |
| `Records.DecodeEncodeHandle` | logbuffers.cpp:71-72 | the handle read back from a record is the handle written into it |
| `Records.EncodeRecord` | logbuffers.cpp:59-64 | a record is `sizeof fn + sizeof vals` bytes: the handle in the first `sizeof fn` bytes, the payload right after it |
| `Records.RecordLengthByShape` | logbuffers.cpp:61 | two tuples of the same type give records of the same length and the same handle |
| `Records.Print` | logbuffers.cpp:36-42 | the decoder consumes `sizeof` of its tuple type and prints a line of as many values as the type has |
| `Records.RecordRoundTrip` | logbuffers.cpp:37-42 | a record's handle decodes to its own type's decoder, which consumes exactly the payload the encoder wrote and prints the captured values |
| `Records.EncodeAll` | logbuffers.cpp:56-65 | the store after a sequence of trace calls is empty exactly when there were none |
| `Records.Offsets` | logbuffers.cpp:69-75 | the record start offsets, one per record, in capture order |
| `Records.OffsetEnd` | logbuffers.cpp:69 | the offset past the last record is the store's length |
| `Records.RecordAt` | logbuffers.cpp:71-74 | from the start of record i the store holds record i and then the later records; record i + 1 starts where record i ends |
| `Records.OffsetBelowEnd` | logbuffers.cpp:69 | a record starts at offset j, before the end of the store, exactly when record j exists |
| `Records.Parse` | logbuffers.cpp:67-76 | the checked replay (not in the original) reports an error only at an offset inside the store |
| `Records.ParseRecord` | logbuffers.cpp:71-74 | the checked replay steps over one well-formed record and goes on after it |
| `Records.ParseEncodeAll` | logbuffers.cpp:67-76 | the checked replay of a store written by `Trace` gives back the captured tuples, in capture order |
| `Records.ParseSound` | logbuffers.cpp:67-76 | every store the checked replay accepts is exactly the encoding of the tuples it returns |
| `Records.AcceptedRecord` | logbuffers.cpp:71-74 | the checked replay `Parse` (not in the original), on a store it accepts, reads a first record whose tuple re-encodes to exactly that record's bytes, and goes on right after it |
| `Records.PartialRecordRejected` | logbuffers.cpp:72-74 | the checked replay `Parse` (not in the original) rejects a record cut short at its own offset, as a truncation and not as an unknown handle |
| `Records.ParseTruncated` | logbuffers.cpp:69-75 | the checked replay `Parse` (not in the original) rejects a store cut at any offset that is not a record boundary, before the cut |
| `Tracer.BinaryTracer.constructor` | logbuffers.cpp:54 | the store starts empty, holding no records |
| `Tracer.BinaryTracer.Write` | logbuffers.cpp:48-51 | appends exactly `sz` bytes at the end of the store and leaves every earlier byte unchanged |
| `Tracer.CopyBytes` | logbuffers.cpp:62-63 | the copy puts the source bytes at the given offset and leaves the rest of the buffer unchanged |
| `Tracer.Trace` | logbuffers.cpp:56-65 | appends exactly one record, `sizeof fn + sizeof vals` bytes long, and the store stays the records of all captured tuples in capture order |
| `Tracer.LoadBuffer` | logbuffers.cpp:67-76 | on a store of records written by `Trace`, the cursor starts every iteration at the next record's offset and ends exactly at `sz`; the output is every record's line, in capture order; an empty store prints nothing |
| `Tracer.NextRecord` | logbuffers.cpp:71-74 | at a record's start, the handle names a registered decoder, which prints that record and consumes exactly its payload |
| `Builder.TraceFor` | logbuffers.cpp:119-122 | a new chain has the given area and no streamed values |
| `Builder.Shift` | logbuffers.cpp:142-147 | `src << x` keeps the area and streams x after everything src streams |
| `Builder.ExecTrace` | logbuffers.cpp:90-113 | executing a chain with trailing arguments x passes (area, " -- ", streamed values in order, x) to `Trace` |
| `Builder.ChainStreams` | logbuffers.cpp:142-147 | streaming v1 .. vn onto `TraceFor(area)` gives a chain whose streamed values are v1 .. vn in that order |
| `Builder.ChainExecTrace` | logbuffers.cpp:91-94 | executing `TraceFor(area) << v1 << ... << vn` traces exactly (area, " -- ", v1, ..., vn) |
| `Builder.Emit` | logbuffers.cpp:124-131 | the pusher executes the finished chain, which appends one record holding (area, " -- ", streamed values) |

## Left out

- The handle is a tag, not a native function pointer. The source stores the address of `Print<T>` (logbuffers.cpp:60) and later calls through it. The model uses an index into a registry of tuple types. Every shape traced must be registered. The source gets this for free, because the call instantiates the template.
- Native memory layout is not modelled. The source uses `memcpy` and `reinterpret_cast` of native objects (logbuffers.cpp:39, 62-63, 72). The model uses an explicit little-endian codec per kind. Widths assume a 64-bit platform: 8-byte handles and references, 4-byte `int` and `float`.
- Tuple padding and element order inside `std::tuple` are not modelled. The model packs the elements in declaration order. The native layout is implementation-defined and may be padded or reversed; the model does not check that its results carry over to such a layout. In particular `ShapeSize([])` is 0, while `sizeof(std::tuple<>)` is 1: a direct `Trace()` with no arguments writes 9 bytes and its decoder returns 1, where the model gives 8 and 0. The builder never reaches this case, since it always passes the area and `" -- "`.
- Values.Kind: the captured values are closed to `int`, `float` and text references. `Trace` (logbuffers.cpp:56-57) is a template and accepts any copyable type (`double`, `char`, `long`, `bool`, structs); other types are not modelled.
- Builder.Shift and Builder.ExecTrace: a container holds its value by value in the model, while the source holds references (`const T& mVal` and `TraceEntryContainer<TSrc...>& mSrc`, logbuffers.cpp:115-116). So the source reads a streamed value when the chain executes, not when it is streamed. With `int x = 4; TraceFor(a) << x << (x = 5)` the source traces 5, 5, where the model traces 4, 5. Aliasing of streamed lvalues is not modelled.
- Text values are opaque 8-byte references. Whether the string they point to is still alive at replay time is a memory-safety question outside the format.
- The separator literal `" -- "` is the reference `SeparatorRef`. Its numeric value is arbitrary, and nothing in the model depends on it.
- How each value is formatted by `cout` is not modelled. This covers floating-point output (logbuffers.cpp:15, 155). Output is modelled as tokens: one per value, in order, plus the line terminator. The code writes nothing between elements; the spaces in the demo output come from the string literals themselves. The model follows the code.
- `std::vector` capacity growth and reallocation (logbuffers.cpp:50) are not modelled. Only the contents of the store are.
- The `TRACE`, `LVAL` and `STRING` macros, the `__FILE__`/`__LINE__` prefix, and `main` (logbuffers.cpp:133-165) are not modelled. They are preprocessor sugar and a demo driver.
- The store is an explicit `BinaryTracer` object rather than a static global. Thread safety is not modelled; the source is single-threaded.
- Tracer.LoadBuffer: the source checks nothing. An unknown handle or a truncated record is undefined behaviour there (logbuffers.cpp:72-74). So `LoadBuffer` requires a store made of records written by `Trace`. The corruption checks live only in `Records.Parse`, a separate checked replay. It returns `CorruptBuffer` errors, and it is not behaviour of the original.
- Tracer.LoadBuffer: the printed output is returned as a token sequence instead of being written to standard output.
