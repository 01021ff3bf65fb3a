/**
 * The net/http ResponseWriter under the buffered writer, reduced to what the
 * buffered writer uses: a header map of its own, and a log of the calls that
 * reach it (status lines, body writes, flushes, hijacks).
 */
module HttpSink {
  import opened Utf8
  import opened Headers

  /**
   * One call that reached the real response writer. A status call records
   * the sink's header map as it stood then: net/http sends those headers
   * with the status, and later changes to the map do not reach the client.
   */
  datatype SinkCall =
    | WriteHeaderCall(code: int, header: HeaderMap)
    | WriteCall(data: seq<byte>)
    | FlushCall
    | HijackCall

  /** The bytes the logged calls sent to the client, in call order. */
  function Written(calls: seq<SinkCall>): seq<byte>
  {
    if calls == [] then []
    else (if calls[0].WriteCall? then calls[0].data else []) + Written(calls[1..])
  }

  /** The bytes sent by two stretches of calls are those of the first, then those of the second. */
  lemma {:induction false} WrittenConcat(a: seq<SinkCall>, b: seq<SinkCall>)
    ensures Written(a + b) == Written(a) + Written(b)
  {
    if a == [] {
      assert a + b == b;
    } else {
      assert (a + b)[0] == a[0];
      assert (a + b)[1..] == a[1..] + b;
      WrittenConcat(a[1..], b);
    }
  }

  /** A status line followed by a write of `body` (skipped when empty) sends exactly `body`. */
  lemma WrittenAfterCommit(calls: seq<SinkCall>, code: int, sent: HeaderMap, body: seq<byte>)
    ensures Written(calls + [WriteHeaderCall(code, sent)] + (if body != [] then [WriteCall(body)] else []))
         == Written(calls) + body
  {
    var tail := if body != [] then [WriteCall(body)] else [];
    WrittenConcat(calls + [WriteHeaderCall(code, sent)], tail);
    WrittenConcat(calls, [WriteHeaderCall(code, sent)]);
    assert Written([WriteHeaderCall(code, sent)]) == [];
    if body != [] {
      assert Written(tail) == body + Written([]);
    }
  }

  /** The real response writer: its header map, its optional capabilities and its call log. */
  class Sink {
    const header: Header
    const canFlush: bool
    const canHijack: bool
    var calls: seq<SinkCall>

    constructor (header: Header, canFlush: bool, canHijack: bool)
      ensures this.header == header && this.canFlush == canFlush && this.canHijack == canHijack
      ensures calls == []
    {
      this.header := header;
      this.canFlush := canFlush;
      this.canHijack := canHijack;
      calls := [];
    }

    method WriteHeader(code: int)
      modifies this
      ensures calls == old(calls) + [WriteHeaderCall(code, header.m)]
    {
      calls := calls + [WriteHeaderCall(code, header.m)];
    }

    method Write(data: seq<byte>) returns (n: int)
      modifies this
      ensures calls == old(calls) + [WriteCall(data)]
      ensures n == |data|
    {
      calls := calls + [WriteCall(data)];
      n := |data|;
    }

    /** http.Flusher's Flush, present only on sinks that can flush. */
    method Flush()
      requires canFlush
      modifies this
      ensures calls == old(calls) + [FlushCall]
    {
      calls := calls + [FlushCall];
    }

    /** http.Hijacker's Hijack, present only on sinks that can hand over the connection. */
    method Hijack()
      requires canHijack
      modifies this
      ensures calls == old(calls) + [HijackCall]
    {
      calls := calls + [HijackCall];
    }
  }
}
