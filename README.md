# Buffered ResponseWriter of the iris web framework, in Dafny

This project models iris's buffered `ResponseWriter` (`response_writer.go`).
During a request, the handler's output is held in memory rather than sent to
the client. The writer buffers:

- a body (a byte sequence);
- a status code, where 0 means "not set";
- a header map.

At the end of the request `flushResponse` commits all of it, once, to the
real `net/http` response writer underneath.

Modules:

- `Results`: the `Option` datatype.
- `Utf8`: Go's `[]byte(s)` conversion, used by `setBodyString`, for strings
  that are valid UTF-8. Such a string is modelled as its sequence of
  characters, and its bytes are their UTF-8 encoding. A decoder is included
  so that a round trip can be proved.
- `Headers`: `http.Header`.
  - The class `Header` is a reference to a `map<string, seq<string>>`. Two
    writers, or a writer and its sink, can therefore hold the same map, as
    Go maps are shared.
  - `FirstValue` is `Header.Get` and `AppendValue` is `Header.Add`.
  - `MergeFields` and `AddFields` fold writeTo's and flushResponse's header
    loops over the fields met while ranging over the map in a given order.
  - `AppendAll` is an order-free reference definition for flushResponse's
    loop.
  - The methods `MergeEach` and `AddEach` are the loops themselves. Each
    picks the next name nondeterministically, as Go's map range does, and
    returns the order it used.
- `HttpSink`: the `http.ResponseWriter` underneath.
  - It has its own header map and optional flush and hijack capabilities.
  - It keeps a log of the calls that reach it: `WriteHeader`, `Write`,
    `Flush` and `Hijack`. A `WriteHeader` entry carries the sink's header
    map as it stood at that call, which is what net/http sends with the
    status.
  - `Written` gives the bytes the log sent.
- `ResponseWriters`: the `ResponseWriter` class and its methods, plus
  `acquireResponseWriter` and `releaseResponseWriter`.
- `Scenarios`: short lifecycles over fresh writers, each stating what a
  handler observes.

## Behaviour the model makes explicit

All of the following follow from the code as written:

- `Write` returns the length of the whole buffered body, not the length of
  its argument, and never returns an error.
- writeTo does not guard a header value by looking up its name. It looks up
  the value itself (`to.headers.Get(v)`). As a result:
  - a second value under an existing name is still added
    (`GuardIgnoresName`);
  - a field is dropped when some other header's name equals its value
    (`GuardLooksUpValue`);
  - the merged headers depend on Go's random map iteration order
    (`MergeDependsOnOrder`).

  flushResponse's loop, by contrast, gives the same map in every order
  (`AppendAllAnyOrder`).
- After acquire, the writer's headers *are* the sink's header map.
  - Headers set through `Header()` already sit in the sink's map.
  - `Reset` only points the headers back at that same map, so it does not
    drop them (`ResetKeepsSharedHeaders`).
  - flushResponse then appends every buffered value to the map that already
    holds it, so each value list ends up twice over (`AppendAllToItself`,
    `FlushAfterAcquire`).
- `clone` shares the header map and the body slice; the model treats the
  body as a value (see Left out). Under that reading a clone merged back
  into the writer it came from appends the original body a second time
  (`CloneMergedBack`).
- A clone and its origin share one header map, so a clone merged back
  into its origin adds each of its header values again whenever the lookup
  of the value finds nothing. The clone's own headers grow with the
  origin's, since they are the same map (`CloneMergedBackHeaders`).
- Acquire does not reset a writer. Release clears the fields, and acquire
  sets only the sink and the headers, leaving the status and body the
  pooled writer held.

Go panics in four of these operations. Each panic is a precondition:

- ResetHeaders, Reset and flushResponse call through a nil sink.
- writeTo adds a value to a nil target map.

A lookup or range over a nil header map is modelled as one over the empty
map, which is what Go does.

## Model

| member | source | states |
|---|---|---|
| `ResponseWriters.AcquireResponseWriter` | response_writer.go:14-19 | The result is the pooled writer, or a fresh one when the pool allocates. Its sink is the given one and its headers are that sink's own map. Status and body are left as the pooled writer held them, so a released writer comes back pristine. |
| `ResponseWriters.ReleaseResponseWriter` | response_writer.go:21-27 | Headers and sink become nil, the status becomes 0 and the body becomes empty. |
| `ResponseWriters.ResponseWriter.constructor` | response_writer.go:12 | The zero `ResponseWriter{}` that the pool's New function allocates: no sink, no headers, status 0, empty body. |
| `ResponseWriters.ResponseWriter.Header` | response_writer.go:50-52 | Returns the live header map reference itself. |
| `ResponseWriters.ResponseWriter.StatusCode` | response_writer.go:55-57 | Returns exactly the recorded status, 0 when none was set. |
| `ResponseWriters.ResponseWriter.Write` | response_writer.go:80-83 | The body becomes the old body followed by the contents. The count is the new length of the whole body. The error is nil. Nothing else changes. |
| `ResponseWriters.ResponseWriter.SetBodyString` | response_writer.go:86-88 | The body is replaced by the UTF-8 bytes of the string. Nothing else changes. |
| `ResponseWriters.ResponseWriter.SetBody` | response_writer.go:91-93 | The body is replaced by the given bytes. Nothing else changes. |
| `ResponseWriters.ResponseWriter.ResetBody` | response_writer.go:96-98 | The body becomes empty. Nothing else changes. |
| `ResponseWriters.ResponseWriter.ResetHeaders` | response_writer.go:101-104 | The headers are the sink's own map again. Sink, status and body are unchanged. |
| `ResponseWriters.ResponseWriter.Reset` | response_writer.go:107-111 | Status 0, empty body, headers equal to the sink's map, and the same sink. |
| `ResponseWriters.ResponseWriter.WriteHeader` | response_writer.go:118-120 | The status becomes the given code, so the last call wins. Body, headers and sink are unchanged. |
| `ResponseWriters.ResponseWriter.Hijack` | response_writer.go:135-141 | Succeeds exactly when the sink can hijack, and then reaches the sink. Otherwise it fails with HijackNotSupported and the sink sees nothing. |
| `ResponseWriters.ResponseWriter.FlushResponse` | response_writer.go:145-164 | An unset status becomes 200 and a set one is kept. The sink receives that status first, carrying the sink's header map as it was before the commit, so buffered headers are added only after the status went out. The body follows only when it is non-empty, so the bytes sent are exactly the body. Afterwards the sink's map holds every buffered value after its own values, in any iteration order. |
| `ResponseWriters.ResponseWriter.Flush` | response_writer.go:167-182 | A flush reaches the sink exactly when the sink can flush. Otherwise nothing happens. |
| `ResponseWriters.ResponseWriter.Clone` | response_writer.go:186-193 | A fresh writer with the same sink, status, header map reference and body. The source is not changed. |
| `ResponseWriters.ResponseWriter.WriteTo` | response_writer.go:196-215 | The target's status becomes the greater of the two. The target's body gains the source body. The target's headers are the value-guarded merge of the source's fields, in the order the map was ranged. The source's fields are unchanged unless it is the target. A header map it shares with the target grows with it. |
| `ResponseWriters.MergedStatus` | response_writer.go:197-200 | The merged status is at least each of the two codes and equals one of them. |
| `ResponseWriters.MergedStatusUnsetSource` | response_writer.go:197-200 | A source with status 0 leaves any non-negative target status unchanged. |
| `ResponseWriters.MergedStatusOrderFree` | response_writer.go:197-200 | Merging two sources into one target gives the same status in either order. |
| `Utf8.EncodeChar` | response_writer.go:87 | Each character takes one to four bytes. It takes a single byte exactly when it is ASCII, and that byte is its code. |
| `Utf8.EncodeCharDecodes` | response_writer.go:87 | A character's lead byte gives the length of its encoding, and the encoding carries its code point. |
| `Utf8.EncodeAppend` | response_writer.go:87 | The bytes of a concatenation are the bytes of the parts, in order. |
| `Utf8.DecodeEncode` | response_writer.go:87 | The bytes of a string decode back to exactly that string, so `[]byte(s)` loses nothing. |
| `Utf8.Encode` | response_writer.go:87 | The bytes of a string: a string of n characters takes between n and 4n bytes, and only the empty string takes none. |
| `Utf8.EncodeAscii` | response_writer.go:87 | An ASCII string takes one byte per character, equal to that character. |
| `Headers.Contents` | response_writer.go:203 | What a range or lookup sees through a header reference: a nil map has no values and every lookup in it gives "", and otherwise it is the map itself. |
| `Headers.FirstValue` | response_writer.go:205 | `Get` returns the first value under the name, or "" when there is none. |
| `Headers.Header.Add` | response_writer.go:206 | The value goes after the values already under the name, on the shared map. |
| `Headers.FieldsMembership` | response_writer.go:203-204 | Ranging in a given order meets a name/value pair exactly when the name is visited and the value is one of its values. |
| `Headers.MergeValues` | response_writer.go:204-208 | The inner loop of writeTo: each value is added unless a lookup of the value finds something. |
| `Headers.MergeEach` | response_writer.go:203-209 | The order visits every source name exactly once. The target ends up as the guarded merge of the fields met in that order. |
| `Headers.MergeFieldsExtends` | response_writer.go:203-209 | The merge never drops or reorders a value the target already held. |
| `Headers.MergeFieldsCovers` | response_writer.go:203-209 | After the merge, every source field either sits under its name or its value is found by a lookup. |
| `Headers.MergeFieldsGrowsBy` | response_writer.go:203-209 | Whatever the merge adds under a name comes after the old values. It consists of values of source fields with that name whose lookup found nothing in the original target. A name the merge creates gets at least one value. |
| `Headers.MergeFieldsAllGuarded` | response_writer.go:205 | When every field's lookup already finds something, the target is unchanged. |
| `Headers.GuardIgnoresName` | response_writer.go:205-206 | A second Content-Type value is added next to the first: the guard does not look up the name. |
| `Headers.GuardLooksUpValue` | response_writer.go:205-206 | The field Accept-Encoding: gzip is dropped when a header named gzip exists. |
| `Headers.MergeDependsOnOrder` | response_writer.go:203 | The same source merged into an empty target gives different maps for its two iteration orders. |
| `Headers.AddValues` | response_writer.go:155-157 | The inner loop of flushResponse: every value is added under the name, in order. |
| `Headers.AddEach` | response_writer.go:153-159 | The order visits every source name exactly once. The sink's map becomes its old values followed by all buffered values, name by name. |
| `Headers.AddFieldsOneName` | response_writer.go:155-157 | Adding one name's values one by one appends them all under that name and creates the name only if there is a value. |
| `Headers.AddFieldsIsAppendAll` | response_writer.go:154-158 | Visiting distinct names one at a time appends exactly the values of the names visited. |
| `Headers.AppendAllAnyOrder` | response_writer.go:153-159 | flushResponse's header loop gives the same map in every iteration order: each buffered value is appended under its name. |
| `Headers.AppendAllToItself` | response_writer.go:153-159 | When the buffered headers are the sink's own map, every value list is repeated, and no name is created or dropped. |
| `HttpSink.Sink.WriteHeader` | response_writer.go:151 | The status call is logged at the end of the sink's calls, together with the sink's header map at that moment. |
| `HttpSink.Sink.Write` | response_writer.go:162 | The write is logged at the end of the sink's calls, with the count of bytes given. |
| `HttpSink.Sink.Flush` | response_writer.go:180 | A flush is logged, on sinks that can flush. |
| `HttpSink.Sink.Hijack` | response_writer.go:137 | A hijack is logged, on sinks that can hijack. |
| `HttpSink.WrittenAfterCommit` | response_writer.go:151-163 | A status call, whatever header map it carries, followed by a write that is skipped when the body is empty, sends exactly the body. |
| `Scenarios.WritesConcatenate` | response_writer.go:80-83 | After three writes the body is their concatenation, and the counts are the running totals. |
| `Scenarios.CloneSeparatesStatus` | response_writer.go:186-193 | After clone, WriteHeader on either side is seen by that side only. |
| `Scenarios.MergeKeepsHigherStatus` | response_writer.go:197-200 | 500 merged into 200 gives 500. An unset status merged into 200 keeps 200. |
| `Scenarios.CloneMergedBack` | response_writer.go:211-214 | A clone that wrote more and is merged back leaves the origin body followed by the whole clone body. |
| `Scenarios.CloneMergedBackHeaders` | response_writer.go:203-207 | A clone merged back into its origin repeats a header value whose lookup finds nothing, and the clone's own header map shows it too. |
| `Scenarios.ResetKeepsSharedHeaders` | response_writer.go:101-111 | After acquire, a header added through Header() is still found after Reset, while status and body are cleared. |
| `Scenarios.FlushAfterAcquire` | response_writer.go:145-164 | The sink receives status 200, carrying the header set after acquire once, and then the body's bytes. Afterwards that header stands twice in the sink's map. |
| `Scenarios.ReleaseThenAcquire` | response_writer.go:21-27 | A writer that was used, released and acquired again is pristine over the new sink. |

## Left out

- The `sync.Pool` mechanics (response_writer.go:12, 15, 26) are not modelled. What the pool hands out is the `pooled` parameter of `AcquireResponseWriter`: null when the pool allocates, otherwise a writer.
- ResponseWriters.ResponseWriter.SetBodyString: only strings that are valid UTF-8 are modelled. A Go string is an immutable byte string that may hold any bytes, and `[]byte(s)` copies them as they are. A Go string holding invalid UTF-8, such as `"\xff"`, has no counterpart among the model's strings. Header names and values have the same restriction.
- Header name canonicalisation (`textproto.CanonicalMIMEHeaderKey` in `Header.Get` and `Header.Add`) is not modelled. Lookups and additions use the exact name.
- Go slice aliasing is not modelled: the body is a value. A caller's slice passed to `SetBody`, the backing array shared between a clone and its source, and the capacity that `ResetBody` keeps are not represented.
- ResponseWriters.ResponseWriter.Hijack: the connection, the buffered reader-writer and the error that a hijacking sink returns are not modelled. A successful hijack only records the call.
- The wire format of the response is not modelled. The sink's log records, for the status call, the header map as it stood then; that net/http sends exactly that map with the status and ignores later changes is a property of net/http, which is not part of this model.
- `transactions.go` is not part of this model. `newTransaction` only copies a context and calls `clone`, which is modelled.
- Concurrency is not modelled: one request's writer is used by one flow at a time.
- Integer widths are not modelled. Status codes and counts are Go `int`, and the code only compares and stores them, so unbounded integers behave the same.
- Scope policies, `Complete`, transaction error results and before-flush callbacks do not appear in these files and are not modelled.
