/**
 * The buffered ResponseWriter: body bytes, a status code (0 while unset) and
 * a header map held in memory, written to the real response writer once, by
 * flushResponse, at the end of the request.
 */
module ResponseWriters {
  import opened Results
  import opened Utf8
  import H = Headers
  import opened HttpSink

  /** http.StatusOK, the status sent when none was set. */
  const StatusOK: int := 200

  /** The errors the buffered writer itself returns. */
  datatype Error = HijackNotSupported

  /**
   * The status writeTo leaves on the target: the greater of the two codes,
   * so a failure status from a sub-scope is never replaced by a lower one.
   */
  function MergedStatus(from: int, into: int): (r: int)
    ensures r >= from && r >= into
    ensures r == from || r == into
  {
    if from > into then from else into
  }

  /** Merging a source whose status is unset (0) keeps any real target status. */
  lemma MergedStatusUnsetSource(into: int)
    requires into >= 0
    ensures MergedStatus(0, into) == into
  {
  }

  /** Merging several sources into one target gives the same status in any order. */
  lemma MergedStatusOrderFree(a: int, b: int, into: int)
    ensures MergedStatus(b, MergedStatus(a, into)) == MergedStatus(a, MergedStatus(b, into))
  {
  }

  class ResponseWriter {
    /** The embedded http.ResponseWriter; nil once released. */
    var sink: Sink?
    var body: seq<byte>
    /** The saved status code; 0 means unset. */
    var statusCode: int
    /** The saved headers; nil once released. */
    var headers: H.Header?

    /** The zero ResponseWriter{} that the pool's New function and clone allocate. */
    constructor ()
      ensures sink == null && body == [] && statusCode == 0 && headers == null
    {
      sink := null;
      body := [];
      statusCode := 0;
      headers := null;
    }

    /** The state releaseResponseWriter leaves a writer in. */
    ghost predicate Released()
      reads this
    {
      sink == null && headers == null && statusCode == 0 && body == []
    }

    /** Nothing tentative: no status, no body, and the sink's own header map. */
    ghost predicate Pristine()
      reads this
    {
      sink != null && headers == sink.header && statusCode == 0 && body == []
    }

    /** The header map that flushResponse will send (the live, shared map). */
    function Header(): (h: H.Header?)
      reads this
      ensures h == headers
    {
      headers
    }

    /** The status code WriteHeader last recorded, 0 when there was none. */
    function StatusCode(): (code: int)
      reads this
      ensures code == statusCode
    {
      statusCode
    }

    /**
     * Buffers `contents` after the body. The count returned is the length
     * of the whole buffered body, not of `contents`; the error is always nil.
     */
    method Write(contents: seq<byte>) returns (n: int, err: Option<Error>)
      modifies this
      ensures body == old(body) + contents
      ensures n == |body| && err == None
      ensures sink == old(sink) && statusCode == old(statusCode) && headers == old(headers)
    {
      body := body + contents;
      n, err := |body|, None;
    }

    /** Replaces the body by the bytes of `s`. */
    method SetBodyString(s: string)
      modifies this
      ensures body == Encode(s)
      ensures sink == old(sink) && statusCode == old(statusCode) && headers == old(headers)
    {
      body := Encode(s);
    }

    /** Replaces the body by `b`. */
    method SetBody(b: seq<byte>)
      modifies this
      ensures body == b
      ensures sink == old(sink) && statusCode == old(statusCode) && headers == old(headers)
    {
      body := b;
    }

    method ResetBody()
      modifies this
      ensures body == []
      ensures sink == old(sink) && statusCode == old(statusCode) && headers == old(headers)
    {
      body := body[0..0];
    }

    /** Points the headers back at the sink's own map (Go calls Header() on a nil sink and panics). */
    method ResetHeaders()
      requires sink != null
      modifies this
      ensures sink == old(sink) && statusCode == old(statusCode) && body == old(body)
      ensures sink != null && headers == sink.header
    {
      headers := sink.header;
    }

    /** Drops tentative status and body, and points the headers back at the sink's map. */
    method Reset()
      requires sink != null
      modifies this
      ensures Pristine()
      ensures sink == old(sink)
    {
      ResetHeaders();
      statusCode := 0;
      ResetBody();
    }

    /** Records the status code; nothing is sent yet, and the last call wins. */
    method WriteHeader(code: int)
      modifies this
      ensures statusCode == code
      ensures sink == old(sink) && body == old(body) && headers == old(headers)
    {
      statusCode := code;
    }

    /** Hands the connection over when the sink can do so, else fails with HijackNotSupported. */
    method Hijack() returns (err: Option<Error>)
      modifies sink
      ensures err == None <==> sink != null && sink.canHijack
      ensures err != None ==> err == Some(HijackNotSupported)
      ensures sink != null ==> sink.calls == old(sink.calls) + (if sink.canHijack then [HijackCall] else [])
    {
      if sink != null && sink.canHijack {
        sink.Hijack();
        err := None;
      } else {
        err := Some(HijackNotSupported);
      }
    }

    /** Passes a flush on to the sink when it can flush; does nothing otherwise. */
    method Flush()
      modifies sink
      ensures sink != null ==> sink.calls == old(sink.calls) + (if sink.canFlush then [FlushCall] else [])
    {
      if sink != null && sink.canFlush {
        sink.Flush();
      }
    }

    /**
     * The one commit: an unset status becomes 200; the status goes to the
     * sink, with the sink's header map as it stands before the buffered
     * headers are added; every buffered header value is then added to the
     * sink's map; the body is written last, when it is not empty.
     */
    method FlushResponse()
      requires sink != null
      modifies this, sink, sink.header
      ensures sink == old(sink) && headers == old(headers) && body == old(body)
      ensures old(statusCode) == 0 ==> statusCode == StatusOK
      ensures old(statusCode) != 0 ==> statusCode == old(statusCode)
      ensures sink.calls == old(sink.calls) + [WriteHeaderCall(statusCode, old(sink.header.m))] + (if body != [] then [WriteCall(body)] else [])
      ensures Written(sink.calls) == Written(old(sink.calls)) + body
      ensures sink.header.m == H.AppendAll(old(sink.header.m), old(H.Contents(headers)))
    {
      ghost var calls0 := sink.calls;
      ghost var m0 := sink.header.m;
      if statusCode == 0 {
        statusCode := StatusOK;
      }
      sink.WriteHeader(statusCode);
      if headers != null {
        ghost var order := H.AddEach(sink.header, headers.m);
      } else {
        H.AppendAllAnyOrder(m0, map[], []);
      }
      if |body| > 0 {
        var _ := sink.Write(body);
      }
      WrittenAfterCommit(calls0, statusCode, m0, body);
    }

    /** A new writer over the same sink, holding the same status, header map reference and body. */
    method Clone() returns (c: ResponseWriter)
      ensures fresh(c)
      ensures c.sink == sink && c.statusCode == statusCode && c.headers == headers && c.body == body
    {
      c := new ResponseWriter();
      c.sink := sink;
      c.statusCode := statusCode;
      c.headers := headers;
      c.body := body;
    }

    /**
     * Merges this writer into `to`: the greater status wins; each buffered
     * header value is added under its name unless a lookup of the VALUE in
     * `to`'s headers finds something; the body is appended. The header loop
     * visits names in the map's iteration order, returned as `order`. Go
     * panics adding to a nil map, hence the precondition.
     */
    method WriteTo(to: ResponseWriter) returns (ghost order: seq<string>)
      requires to.headers == null ==> !H.HasValues(H.Contents(headers))
      modifies to, to.headers
      ensures H.Enumerates(order, old(H.Contents(headers)).Keys)
      ensures to.statusCode == MergedStatus(old(statusCode), old(to.statusCode))
      ensures to.body == old(to.body) + old(body)
      ensures to.sink == old(to.sink) && to.headers == old(to.headers)
      ensures H.Contents(to.headers) == H.MergeFields(old(H.Contents(to.headers)), H.Fields(old(H.Contents(headers)), order))
      ensures to != this ==> sink == old(sink) && statusCode == old(statusCode) && headers == old(headers) && body == old(body)
    {
      var src := H.Contents(headers);
      var from := body;
      if statusCode > to.statusCode {
        to.statusCode := statusCode;
      }
      order := H.MergeEach(to.headers, src);
      if |from| > 0 {
        var _, _ := to.Write(from);
      }
    }
  }

  /**
   * acquireResponseWriter. `pooled` is what the pool hands out: null when it
   * allocates a new writer, else a writer put back by an earlier release.
   * Only the sink and the headers are set; status and body are what the
   * pooled writer held.
   */
  method AcquireResponseWriter(underline: Sink, pooled: ResponseWriter?) returns (w: ResponseWriter)
    modifies pooled
    ensures pooled == null ==> fresh(w) && w.statusCode == 0 && w.body == []
    ensures pooled != null ==> w == pooled && w.statusCode == old(pooled.statusCode) && w.body == old(pooled.body)
    ensures w.sink == underline && w.headers == underline.header
    ensures pooled != null && old(pooled.Released()) ==> w.Pristine()
  {
    if pooled == null {
      w := new ResponseWriter();
    } else {
      w := pooled;
    }
    w.sink := underline;
    w.headers := underline.header;
  }

  /** releaseResponseWriter: clears every field before the writer goes back to the pool. */
  method ReleaseResponseWriter(w: ResponseWriter)
    modifies w
    ensures w.Released()
  {
    w.headers := null;
    w.sink := null;
    w.statusCode := 0;
    w.ResetBody();
  }
}
