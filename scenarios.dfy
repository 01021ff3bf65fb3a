/**
 * Short request lifecycles over fresh writers and sinks, each stating what
 * a handler observes at the end.
 */
module Scenarios {
  import opened Utf8
  import H = Headers
  import opened HttpSink
  import opened ResponseWriters

  /** Three writes buffer the concatenation; each count is the body length so far. */
  method WritesConcatenate(a: seq<byte>, b: seq<byte>, c: seq<byte>) returns (body: seq<byte>, counts: seq<int>)
    ensures body == a + b + c
    ensures counts == [|a|, |a| + |b|, |a| + |b| + |c|]
  {
    var w := new ResponseWriter();
    var n1, _ := w.Write(a);
    var n2, _ := w.Write(b);
    var n3, _ := w.Write(c);
    body, counts := w.body, [n1, n2, n3];
  }

  /** After a clone, each side's WriteHeader is seen by that side only; the last call wins. */
  method CloneSeparatesStatus(first: int, mine: int, theirs: int) returns (origin: int, copy: int)
    ensures origin == mine && copy == theirs
  {
    var w := new ResponseWriter();
    w.WriteHeader(first);
    var c := w.Clone();
    w.WriteHeader(mine);
    c.WriteHeader(theirs);
    origin, copy := w.StatusCode(), c.StatusCode();
  }

  /** Merging a failure status into a success keeps the failure; an unset status changes nothing. */
  method MergeKeepsHigherStatus() returns (failed: int, kept: int)
    ensures failed == 500 && kept == 200
  {
    var target := new ResponseWriter();
    target.WriteHeader(200);
    var failing := new ResponseWriter();
    failing.WriteHeader(500);
    var _ := failing.WriteTo(target);
    failed := target.StatusCode();

    var other := new ResponseWriter();
    other.WriteHeader(200);
    var unset := new ResponseWriter();
    var _ := unset.WriteTo(other);
    kept := other.StatusCode();
  }

  /**
   * A clone merged back into the writer it was cloned from repeats the
   * origin's body: the clone's body starts with it.
   */
  method CloneMergedBack(start: seq<byte>, more: seq<byte>) returns (body: seq<byte>)
    ensures body == start + start + more
  {
    var w := new ResponseWriter();
    var _, _ := w.Write(start);
    var c := w.Clone();
    var _, _ := c.Write(more);
    var _ := c.WriteTo(w);
    body := w.body;
  }

  /**
   * A clone shares its origin's header map, so merging it back adds every
   * value again when the lookup of the value finds nothing: the source's
   * own header map grows with the target's.
   */
  method CloneMergedBackHeaders(name: string, value: string) returns (values: seq<string>)
    requires name != value
    ensures values == [value, value]
  {
    var header := new H.Header(map[name := [value]]);
    var sink := new Sink(header, false, false);
    var w := AcquireResponseWriter(sink, null);
    var c := w.Clone();
    ghost var src := header.m;
    ghost var order := c.WriteTo(w);
    assert src.Keys == {name};
    H.EnumeratesSingle(order, name);
    assert H.Fields(src, [name]) == [H.Field(name, value)] by {
      H.FieldsSnoc(src, [], name);
      assert H.FieldsOf(name, [value]) == [H.Field(name, value)];
    }
    H.MergeFieldsSnoc(src, [], H.Field(name, value));
    assert H.FirstValue(src, value) == "";
    values := H.Values(c.Header().m, name);
  }

  /**
   * Headers added through Header() after acquire go straight into the sink's
   * map, so Reset, which only points the headers back at that map, keeps them.
   */
  method ResetKeepsSharedHeaders(name: string, value: string) returns (found: string, status: int, body: seq<byte>)
    ensures found == value && status == 0 && body == []
  {
    var header := new H.Header(map[]);
    var sink := new Sink(header, false, false);
    var w := AcquireResponseWriter(sink, null);
    w.WriteHeader(404);
    w.SetBodyString("not found");
    w.Header().Add(name, value);
    w.Reset();
    found, status, body := H.FirstValue(w.Header().m, name), w.StatusCode(), w.body;
  }

  /**
   * The commit of a writer fresh from acquire: the default status, sent with
   * the header set through Header() once, then the body; afterwards that
   * header stands twice in the sink's map.
   */
  method FlushAfterAcquire(name: string, value: string, s: string) returns (calls: seq<SinkCall>, sent: seq<byte>, values: seq<string>)
    requires s != []
    ensures calls == [WriteHeaderCall(StatusOK, map[name := [value]]), WriteCall(Encode(s))]
    ensures sent == Encode(s)
    ensures values == [value, value]
  {
    var header := new H.Header(map[]);
    var sink := new Sink(header, false, false);
    var w := AcquireResponseWriter(sink, null);
    w.Header().Add(name, value);
    assert header.m == map[name := [value]] by {
      assert H.Values(map[], name) + [value] == [value];
    }
    w.SetBodyString(s);
    w.FlushResponse();
    calls, sent, values := sink.calls, Written(sink.calls), H.Values(header.m, name);
  }

  /** A writer put back by release comes out of acquire pristine. */
  method ReleaseThenAcquire(first: Sink, second: Sink) returns (w: ResponseWriter)
    ensures w.Pristine() && w.sink == second
  {
    w := AcquireResponseWriter(first, null);
    w.WriteHeader(500);
    var _, _ := w.Write([1, 2, 3]);
    ReleaseResponseWriter(w);
    w := AcquireResponseWriter(second, w);
  }
}
