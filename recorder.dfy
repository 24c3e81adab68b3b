/**
 * The response recorder that wraps the handler's http.ResponseWriter: it
 * keeps the first status code set and counts the bytes the wrapped writer
 * accepted, and passes every call on to that writer.
 *
 * The wrapped writer is a sink: it receives the calls, and for each write
 * reports how many bytes it took. What it does with them is not modelled.
 */
module Recorder {

  const StatusOK := 200

  newtype byte = x: int | 0 <= x < 256

  /**
   * A call on a response writer. For `WriteBody`, `accepted` is the count
   * the wrapped writer returned for `data` (between 0 and |data|).
   */
  datatype Call = WriteHeader(code: int) | WriteBody(data: seq<byte>, accepted: int)

  /** Every write reports a count between 0 and the length of its data, as io.Writer promises. */
  predicate WellFormed(calls: seq<Call>)
  {
    forall i :: 0 <= i < |calls| && calls[i].WriteBody? ==> 0 <= calls[i].accepted <= |calls[i].data|
  }

  /**
   * The status the recorder reports after `calls`: the code of a first
   * WriteHeader, 200 when the first call is a write (a write implies
   * "200 OK"), and the initial 200 when nothing was called.
   */
  function RecordedStatus(calls: seq<Call>): int
  {
    if |calls| == 0 then StatusOK
    else match calls[0]
      case WriteHeader(code) => code
      case WriteBody(_, _) => StatusOK
  }

  /** The bytes the recorder counts after `calls`: the sum of the accepted counts. */
  function RecordedBytes(calls: seq<Call>): int
  {
    if |calls| == 0 then 0
    else RecordedBytes(calls[..|calls| - 1]) + (if calls[|calls| - 1].WriteBody? then calls[|calls| - 1].accepted else 0)
  }

  /** The writes among `calls`, in order; WritesMember, WritesOfWrites and WritesAppend say what that means. */
  function Writes(calls: seq<Call>): (w: seq<Call>)
    ensures forall i :: 0 <= i < |w| ==> w[i].WriteBody?
  {
    if |calls| == 0 then []
    else Writes(calls[..|calls| - 1]) + (if calls[|calls| - 1].WriteBody? then [calls[|calls| - 1]] else [])
  }

  /** A call is among the writes of `calls` exactly when it is a write made in `calls`. */
  lemma {:induction false} WritesMember(calls: seq<Call>, c: Call)
    ensures c in Writes(calls) <==> c in calls && c.WriteBody?
    decreases |calls|
  {
    if |calls| > 0 {
      var init, last := calls[..|calls| - 1], calls[|calls| - 1];
      WritesMember(init, c);
      assert calls == init + [last];
      assert c in calls <==> c in init || c == last;
    }
  }

  /** When `calls` holds only writes, Writes keeps all of it. */
  lemma {:induction false} WritesOfWrites(calls: seq<Call>)
    requires forall i :: 0 <= i < |calls| ==> calls[i].WriteBody?
    ensures Writes(calls) == calls
    decreases |calls|
  {
    if |calls| > 0 {
      var init := calls[..|calls| - 1];
      assert forall i :: 0 <= i < |init| ==> init[i] == calls[i];
      WritesOfWrites(init);
      assert calls == init + [calls[|calls| - 1]];
    }
  }

  /** The writes of a run of calls are those of its first part followed by those of the rest. */
  lemma {:induction false} WritesAppend(a: seq<Call>, b: seq<Call>)
    ensures Writes(a + b) == Writes(a) + Writes(b)
    decreases |b|
  {
    if |b| == 0 {
      assert a + b == a;
    } else {
      assert (a + b)[..|a + b| - 1] == a + b[..|b| - 1];
      WritesAppend(a, b[..|b| - 1]);
    }
  }

  /**
   * What the wrapped writer receives: one header, the first status, at the
   * first call, and then every write unchanged.
   */
  function Forwarded(calls: seq<Call>): seq<Call>
  {
    if |calls| == 0 then [] else [WriteHeader(RecordedStatus(calls))] + Writes(calls)
  }

  /** First write wins: nothing after the first call changes the status. */
  lemma FirstStatusWins(calls: seq<Call>, later: seq<Call>)
    requires |calls| > 0
    ensures RecordedStatus(calls + later) == RecordedStatus(calls)
  {
    assert (calls + later)[0] == calls[0];
  }

  /** The byte count of a run of calls is the sum over its parts. */
  lemma {:induction false} RecordedBytesAppend(a: seq<Call>, b: seq<Call>)
    ensures RecordedBytes(a + b) == RecordedBytes(a) + RecordedBytes(b)
    decreases |b|
  {
    if |b| == 0 {
      assert a + b == a;
    } else {
      assert (a + b)[..|a + b| - 1] == a + b[..|b| - 1];
      RecordedBytesAppend(a, b[..|b| - 1]);
    }
  }

  /** The number of bytes handed to the recorder in `calls`. */
  function TotalLength(calls: seq<Call>): int
  {
    if |calls| == 0 then 0
    else TotalLength(calls[..|calls| - 1]) + (if calls[|calls| - 1].WriteBody? then |calls[|calls| - 1].data| else 0)
  }

  /** The count never decreases and never exceeds the bytes handed to the writer. */
  lemma {:induction false} RecordedBytesBounds(calls: seq<Call>)
    requires WellFormed(calls)
    ensures 0 <= RecordedBytes(calls) <= TotalLength(calls)
    decreases |calls|
  {
    if |calls| > 0 {
      RecordedBytesBounds(calls[..|calls| - 1]);
    }
  }

  /** A write adds exactly the count the wrapped writer returned for it. */
  lemma WriteAddsCount(calls: seq<Call>, p: seq<byte>, n: int)
    ensures RecordedBytes(calls + [WriteBody(p, n)]) == RecordedBytes(calls) + n
    ensures RecordedBytes(calls + [Call.WriteHeader(n)]) == RecordedBytes(calls)
  {
    assert (calls + [WriteBody(p, n)])[..|calls|] == calls;
    assert (calls + [Call.WriteHeader(n)])[..|calls|] == calls;
  }

  /** A header call adds nothing to the writes. */
  lemma HeaderAddsNoWrite(calls: seq<Call>, code: int)
    ensures Writes(calls + [Call.WriteHeader(code)]) == Writes(calls)
  {
    assert (calls + [Call.WriteHeader(code)])[..|calls|] == calls;
  }

  /** A write that comes before any header records 200, whatever follows. */
  lemma WriteFirstRecords200(p: seq<byte>, n: int, later: seq<Call>)
    ensures RecordedStatus([WriteBody(p, n)] + later) == StatusOK
  {
    assert ([WriteBody(p, n)] + later)[0] == WriteBody(p, n);
  }

  /** The wrapped writer gets exactly one header once anything was called, and it is the reported one. */
  lemma OneHeaderForwarded(calls: seq<Call>)
    requires |calls| > 0
    ensures var f := Forwarded(calls);
      && f[0] == WriteHeader(RecordedStatus(calls))
      && forall i :: 0 < i < |f| ==> f[i].WriteBody?
  {
  }

  /**
   * responseRecorder: statusCode, wroteHeader and bytesWritten as in the
   * source, `inner` the calls the wrapped writer received, and `history` the
   * calls made on the recorder so far, which Valid ties to them.
   */
  class ResponseRecorder {
    var statusCode: int
    var wroteHeader: bool
    var bytesWritten: int
    var inner: seq<Call>
    ghost var history: seq<Call>

    ghost predicate Valid()
      reads this
    {
      && WellFormed(history)
      && statusCode == RecordedStatus(history)
      && wroteHeader == (|history| > 0)
      && bytesWritten == RecordedBytes(history)
      && inner == Forwarded(history)
    }

    /** `&responseRecorder{ResponseWriter: w, statusCode: http.StatusOK}` */
    constructor ()
      ensures Valid() && history == []
      ensures statusCode == StatusOK && !wroteHeader && bytesWritten == 0 && inner == []
    {
      statusCode := StatusOK;
      wroteHeader := false;
      bytesWritten := 0;
      inner := [];
      history := [];
    }

    /** Only the first call sets the status and reaches the wrapped writer. */
    method WriteHeader(code: int)
      requires Valid()
      modifies this
      ensures Valid() && history == old(history) + [Call.WriteHeader(code)]
      ensures old(wroteHeader) ==> statusCode == old(statusCode) && inner == old(inner)
      ensures !old(wroteHeader) ==> statusCode == code && inner == old(inner) + [Call.WriteHeader(code)]
      ensures wroteHeader && bytesWritten == old(bytesWritten)
    {
      ghost var h := history + [Call.WriteHeader(code)];
      HeaderAddsNoWrite(history, code);
      WriteAddsCount(history, [], code);
      if !wroteHeader {
        assert h == [Call.WriteHeader(code)];
        statusCode := code;
        wroteHeader := true;
        inner := inner + [Call.WriteHeader(code)];
      } else {
        FirstStatusWins(history, [Call.WriteHeader(code)]);
      }
      history := h;
    }

    /**
     * A write first sets status 200 if no status was set, then passes the
     * data on; `n` is the count the wrapped writer returns, and is added to
     * the byte count and returned.
     */
    method Write(p: seq<byte>, n: int) returns (written: int)
      requires Valid()
      requires 0 <= n <= |p|
      modifies this
      ensures Valid() && history == old(history) + [WriteBody(p, n)]
      ensures written == n && bytesWritten == old(bytesWritten) + n
      ensures wroteHeader && statusCode == (if old(wroteHeader) then old(statusCode) else StatusOK)
      ensures inner == old(inner) + (if old(wroteHeader) then [] else [Call.WriteHeader(StatusOK)]) + [WriteBody(p, n)]
    {
      ghost var h := history + [WriteBody(p, n)];
      if !wroteHeader {
        WriteHeader(StatusOK);
      }
      inner := inner + [WriteBody(p, n)];
      bytesWritten := bytesWritten + n;
      written := n;
      assert h[..|h| - 1] == old(history);
      if |old(history)| > 0 {
        FirstStatusWins(old(history), [WriteBody(p, n)]);
      }
      history := h;
    }
  }
}
