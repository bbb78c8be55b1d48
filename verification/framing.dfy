/**
 * The two socket-read loops of src/proxy.c, with `recv` replaced by a list
 * of what successive calls would deliver. `read_http_request` stops at the
 * end of the header block (section 2.1 of RFC 9112); `read_from_server`
 * stops once as many body bytes as `Content-Length` announces have arrived
 * (section 6.3 of RFC 9112).
 */
module Framing {
  import opened Wrappers
  import opened CString
  import opened HttpText

  /** INIT_BUF_SIZE of include/proxy.h. */
  const InitBufSize: nat := 2048

  const ContentLengthName := "Content-Length:"

  /**
   * One `recv` call: it delivers at most `limit` of the bytes the peer has
   * sent (fewer when the buffer has less room or the peer has sent less;
   * none once the peer has closed), or it fails with -1.
   */
  datatype Recv = UpTo(limit: nat) | RecvError

  /** The outcome of a read loop; `lastRead` is what the final `recv` returned. */
  datatype ReadResult = Ok(data: string, lastRead: nat) | Failed | Incomplete

  /** What a `recv` returns with `room` bytes of room and `left` bytes still to come. */
  function Received(call: Recv, room: nat, left: nat): (n: int)
    ensures call.RecvError? <==> n == -1
    ensures call.UpTo? ==> n >= 0
    ensures n <= room && n <= left
    ensures call.UpTo? && call.limit > 0 && room > 0 && left > 0 ==> n > 0
  {
    match call
    case RecvError => -1
    case UpTo(limit) =>
      if limit <= room && limit <= left then limit else if room <= left then room else left
  }

  /** Every call delivers at least one byte while any remain. */
  predicate Delivers(calls: seq<Recv>) {
    forall i :: 0 <= i < |calls| ==> calls[i].UpTo? && calls[i].limit > 0
  }

  // ---------------------------------------------------------------------
  // read_http_request

  /** A request is complete once its header block has ended. */
  predicate RequestComplete(buf: string) {
    Contains(buf, Terminator)
  }

  /** How many bytes a read loop holds, and the size of its buffer. */
  datatype Progress = Progress(total: nat, bufsize: nat)

  /** A buffer size the read loops can reach: INIT_BUF_SIZE doubled some number of times. */
  predicate Doubled(b: nat)
    decreases b
  {
    b == InitBufSize || (b > InitBufSize && b % 2 == 0 && Doubled(b / 2))
  }

  /** The buffer size read_http_request uses for its next `recv`: doubled when fewer than five bytes are free. */
  function RequestBuf(p: Progress): nat {
    if p.total > p.bufsize - 5 then 2 * p.bufsize else p.bufsize
  }

  /** What `recv` number `k` (counting from 0) of read_http_request returns. */
  function RequestRecv(stream: string, calls: seq<Recv>, k: nat): (n: int)
    requires k < |calls|
    ensures n <= |stream| - RequestProgress(stream, calls, k).total
  {
    var p := RequestProgress(stream, calls, k);
    Received(calls[k], RequestBuf(p) - p.total - 1, |stream| - p.total)
  }

  /**
   * The bytes read_http_request holds, and its buffer size, after its first
   * `k` calls, on the way where each of them delivered something.
   */
  function RequestProgress(stream: string, calls: seq<Recv>, k: nat): (p: Progress)
    requires k <= |calls|
    ensures p.total <= |stream| && p.total < p.bufsize && p.bufsize >= InitBufSize
  {
    if k == 0 then Progress(0, InitBufSize)
    else
      var q := RequestProgress(stream, calls, k - 1);
      var n := Received(calls[k - 1], RequestBuf(q) - q.total - 1, |stream| - q.total);
      Progress(if n > 0 then q.total + n else q.total, RequestBuf(q))
  }

  /**
   * The buffer of read_http_request is always INIT_BUF_SIZE doubled some
   * number of times, and each `recv` leaves it as it was or doubles it once.
   */
  lemma {:induction false} RequestBufferDoubles(stream: string, calls: seq<Recv>, k: nat)
    requires k <= |calls|
    ensures Doubled(RequestProgress(stream, calls, k).bufsize)
    ensures k > 0 ==> var b := RequestProgress(stream, calls, k - 1).bufsize;
                      var b' := RequestProgress(stream, calls, k).bufsize;
                      b' == b || b' == 2 * b
  {
    if k > 0 {
      RequestBufferDoubles(stream, calls, k - 1);
      var b := RequestProgress(stream, calls, k - 1).bufsize;
      DoubledTwice(b);
    }
  }

  /** Doubling a reachable buffer size gives a reachable one. */
  lemma DoubledTwice(b: nat)
    requires Doubled(b)
    ensures Doubled(2 * b)
  {
    assert (2 * b) / 2 == b;
  }

  /** Extends "every `recv` so far read on" by one more `recv`. */
  lemma RequestReadsOnUpTo(stream: string, calls: seq<Recv>, i: nat)
    requires i < |calls|
    requires forall j :: 0 <= j < i ==> RequestReadsOn(stream, calls, j)
    requires RequestReadsOn(stream, calls, i)
    ensures forall j {:trigger RequestRecv(stream, calls, j)} {:trigger RequestReadsOn(stream, calls, j)}
      :: 0 <= j < i + 1 ==> RequestReadsOn(stream, calls, j)
  {
  }

  /** How a delivering `recv` of read_http_request moves it on. */
  lemma RequestAdvance(stream: string, calls: seq<Recv>, k: nat)
    requires k < |calls| && RequestRecv(stream, calls, k) > 0
    ensures var p := RequestProgress(stream, calls, k);
            RequestProgress(stream, calls, k + 1) == Progress(p.total + RequestRecv(stream, calls, k), RequestBuf(p))
  {
  }

  /** `recv` number `j` of read_http_request delivered, and the bytes read so far still lack CRLFCRLF. */
  predicate RequestReadsOn(stream: string, calls: seq<Recv>, j: nat)
    requires j < |calls|
  {
    RequestRecv(stream, calls, j) > 0 && !RequestComplete(stream[..RequestProgress(stream, calls, j + 1).total])
  }

  /**
   * `recv` number `k` of read_http_request delivered and brought CRLFCRLF
   * in, every earlier one having read on.
   */
  predicate RequestCompletesAt(stream: string, calls: seq<Recv>, k: nat)
    requires k < |calls|
  {
    (forall j :: 0 <= j < k ==> RequestReadsOn(stream, calls, j))
    && RequestRecv(stream, calls, k) > 0 && RequestComplete(stream[..RequestProgress(stream, calls, k + 1).total])
  }

  /** read_http_request reads on through every one of `calls`, so its next `recv` never returns. */
  predicate RequestRunsOut(stream: string, calls: seq<Recv>) {
    forall j :: 0 <= j < |calls| ==> RequestReadsOn(stream, calls, j)
  }

  /** Some `recv` of read_http_request returns 0 or -1 before the bytes read contain CRLFCRLF. */
  predicate RequestFails(stream: string, calls: seq<Recv>) {
    exists k :: 0 <= k < |calls| && RequestRecv(stream, calls, k) <= 0
                && forall j :: 0 <= j < k ==> RequestReadsOn(stream, calls, j)
  }

  /** A prefix of an incomplete request is incomplete too. */
  lemma PrefixIncomplete(stream: string, t: nat)
    requires t <= |stream| && !RequestComplete(stream)
    ensures !RequestComplete(stream[..t])
  {
    if RequestComplete(stream[..t]) {
      assert stream[..t] + stream[t..] == stream;
      ContainsExtend(stream[..t], stream[t..], Terminator);
    }
  }

  /**
   * read_http_request does not fail once its first `m` calls all read on and
   * either the calls ran out or call `m` delivered and brought CRLFCRLF in.
   */
  lemma NotFailing(stream: string, calls: seq<Recv>, m: nat)
    requires m <= |calls|
    requires forall j {:trigger RequestRecv(stream, calls, j)} :: 0 <= j < m ==> RequestReadsOn(stream, calls, j)
    requires m == |calls| || (RequestRecv(stream, calls, m) > 0 && !RequestReadsOn(stream, calls, m))
    ensures !RequestFails(stream, calls)
  {
    forall k | 0 <= k < |calls| && RequestRecv(stream, calls, k) <= 0
               && (forall j :: 0 <= j < k ==> RequestReadsOn(stream, calls, j))
      ensures false
    {
    }
  }

  /**
   * A client that closes before its header block has ended makes the read
   * fail, once there are more calls than bytes it sent.
   */
  lemma ClosedEarlyFails(stream: string, calls: seq<Recv>)
    requires !RequestComplete(stream) && |calls| > |stream|
    ensures RequestFails(stream, calls)
  {
    ClosedEarlyFrom(stream, calls, 0);
  }

  /** The same, once the first `k` calls each delivered at least one byte. */
  lemma {:induction false} ClosedEarlyFrom(stream: string, calls: seq<Recv>, k: nat)
    requires !RequestComplete(stream) && |calls| > |stream|
    requires k <= |stream| && RequestProgress(stream, calls, k).total >= k
    requires forall j :: 0 <= j < k ==> RequestReadsOn(stream, calls, j)
    ensures RequestFails(stream, calls)
    decreases |stream| - k
  {
    if RequestRecv(stream, calls, k) <= 0 {
      assert 0 <= k < |calls| && RequestRecv(stream, calls, k) <= 0;
    } else {
      RequestAdvance(stream, calls, k);
      var t := RequestProgress(stream, calls, k + 1).total;
      PrefixIncomplete(stream, t);
      assert RequestReadsOn(stream, calls, k);
      ClosedEarlyFrom(stream, calls, k + 1);
    }
  }

  /**
   * read_http_request over the bytes the client sends (`stream`) and the
   * successive `recv` calls (`calls`): reads until the bytes so far contain
   * CRLFCRLF and returns all of them; fails as soon as a `recv` returns 0 or
   * -1. The buffer starts at INIT_BUF_SIZE and doubles whenever fewer than
   * five free bytes remain, so a `recv` always has room for at least four
   * bytes and the terminating NUL stays inside the buffer. Running out of
   * `calls` stands for a `recv` that never returns.
   */
  method ReadHttpRequest(stream: string, calls: seq<Recv>) returns (r: ReadResult)
    ensures r.Ok? ==> r.data <= stream && RequestComplete(r.data)
    ensures r.Ok? ==> 0 < r.lastRead <= |r.data| && !RequestComplete(r.data[..|r.data| - r.lastRead])
    ensures r.Ok? ==> RequestComplete(stream)
    ensures r.Ok? ==> exists k :: 0 <= k < |calls| && RequestCompletesAt(stream, calls, k)
                                  && r.data == stream[..RequestProgress(stream, calls, k + 1).total]
                                  && r.lastRead == RequestRecv(stream, calls, k)
    ensures r.Failed? <==> RequestFails(stream, calls)
    ensures r.Incomplete? <==> RequestRunsOut(stream, calls)
  {
    var bufsize: nat := InitBufSize;
    var total: nat := 0;
    var i: nat := 0;
    while i < |calls|
      invariant i <= |calls|
      invariant RequestProgress(stream, calls, i) == Progress(total, bufsize)
      invariant forall j {:trigger RequestRecv(stream, calls, j)} {:trigger RequestReadsOn(stream, calls, j)}
        :: 0 <= j < i ==> RequestReadsOn(stream, calls, j)
      invariant !RequestComplete(stream[..total])
    {
      if total > bufsize - 5 {
        bufsize := bufsize * 2;
      }
      var room: nat := bufsize - total - 1;
      assert room >= 4;
      var n := Received(calls[i], room, |stream| - total);
      assert n == RequestRecv(stream, calls, i);
      if n <= 0 {
        assert 0 <= i < |calls| && RequestRecv(stream, calls, i) <= 0;
        assert !RequestReadsOn(stream, calls, i);
        return Failed;
      }
      RequestAdvance(stream, calls, i);
      var before := total;
      total := total + n;
      if RequestComplete(stream[..total]) {
        assert !RequestReadsOn(stream, calls, i);
        NotFailing(stream, calls, i);
        CompletedBy(stream, before, total, Terminator);
        assert RequestCompletesAt(stream, calls, i);
        return Ok(stream[..total], n);
      }
      assert RequestReadsOn(stream, calls, i);
      RequestReadsOnUpTo(stream, calls, i);
      i := i + 1;
    }
    NotFailing(stream, calls, i);
    return Incomplete;
  }

  /**
   * The bytes read after a `recv` contain `pat` though those before it did
   * not: then the whole stream contains it too.
   */
  lemma CompletedBy(stream: string, before: nat, total: nat, pat: string)
    requires before < total <= |stream|
    requires !Contains(stream[..before], pat) && Contains(stream[..total], pat)
    ensures stream[..total] <= stream && Contains(stream, pat)
    ensures !Contains(stream[..total][..before], pat)
  {
    assert stream[..total][..before] == stream[..before];
    ContainsExtend(stream[..total], stream[total..], pat);
    assert stream[..total] + stream[total..] == stream;
  }

  /**
   * With every call delivering, read_http_request fails only on a client
   * that closed before sending CRLFCRLF.
   */
  lemma FailsDelivered(stream: string, calls: seq<Recv>)
    requires RequestFails(stream, calls) && Delivers(calls)
    ensures !RequestComplete(stream)
  {
    var k :| 0 <= k < |calls| && RequestRecv(stream, calls, k) <= 0
             && forall j :: 0 <= j < k ==> RequestReadsOn(stream, calls, j);
    var p := RequestProgress(stream, calls, k);
    assert p.total == |stream|;
    assert stream[..p.total] == stream;
    if k > 0 {
      assert RequestReadsOn(stream, calls, k - 1);
    } else {
      assert !Contains([], Terminator);
    }
  }

  /** Each `recv` of read_http_request that delivers adds at least one byte. */
  lemma {:induction false} RequestProgressAtLeast(stream: string, calls: seq<Recv>, k: nat)
    requires k <= |calls|
    requires forall j :: 0 <= j < k ==> RequestReadsOn(stream, calls, j)
    ensures RequestProgress(stream, calls, k).total >= k
  {
    if k > 0 {
      RequestProgressAtLeast(stream, calls, k - 1);
      assert RequestReadsOn(stream, calls, k - 1);
      RequestAdvance(stream, calls, k - 1);
    }
  }

  /**
   * read_http_request cannot read on through as many calls as the client
   * sends bytes: if it does, the bytes lack CRLFCRLF.
   */
  lemma RunsOutIncomplete(stream: string, calls: seq<Recv>)
    requires RequestRunsOut(stream, calls) && |calls| >= |stream|
    ensures !RequestComplete(stream)
  {
    RequestProgressAtLeast(stream, calls, |calls|);
    if |calls| > 0 {
      assert RequestReadsOn(stream, calls, |calls| - 1);
      assert stream[..|stream|] == stream;
    } else {
      assert !Contains([], Terminator);
    }
  }

  // ---------------------------------------------------------------------
  // read_from_server

  /** Where the body starts: just past the first CRLFCRLF. */
  function BodyStart(buf: string): (r: Option<nat>)
    ensures r.Some? <==> Contains(buf, Terminator)
    ensures r.Some? ==> |Terminator| <= r.value <= |buf| && MatchesAt(buf, r.value - |Terminator|, Terminator, false)
  {
    match Find(buf, Terminator)
    case None => None
    case Some(p) => Some(p + |Terminator|)
  }

  /** The body starts just past the header block. */
  lemma BodyStartOfBlock(buf: string, h: string)
    requires HeaderBlock(buf) == Some(h)
    ensures BodyStart(buf) == Some(|h| + |Terminator|)
  {
    var e := Find(buf, Terminator).value;
    assert |buf[..e]| == |h|;
  }

  /**
   * The announced body length: `atoi` of what follows the first
   * `Content-Length:` (any case, anywhere in the buffer) and the blanks
   * after it; None when there is no such header.
   */
  function ContentLength(buf: string): (r: Option<int>)
    ensures r.None? <==> forall j: nat :: !MatchesAt(buf, j, ContentLengthName, true)
    ensures forall p: nat ::
              MatchesAt(buf, p, ContentLengthName, true) && (forall j :: 0 <= j < p ==> !MatchesAt(buf, j, ContentLengthName, true))
              ==> r == Some(Atoi(buf[FirstNotIn(buf, p + |ContentLengthName|, Blanks)..]))
  {
    match FindCaseless(buf, ContentLengthName)
    case None => None
    case Some(p) =>
      FirstMatchUnique(buf, ContentLengthName, p, true);
      Some(Atoi(buf[FirstNotIn(buf, p + |ContentLengthName|, Blanks)..]))
  }

  /** The stop test of read_from_server: a header block, a Content-Length, and at least that many bytes after the block. */
  predicate ResponseComplete(buf: string) {
    BodyStart(buf).Some? && ContentLength(buf).Some?
    && |buf| - BodyStart(buf).value >= ContentLength(buf).value
  }

  /** No character of the header name lowers to CR or LF. */
  lemma NameHasNoLineDelim(o: nat)
    requires o < |ContentLengthName|
    ensures Lower(ContentLengthName[o]) != '\r' && Lower(ContentLengthName[o]) != '\n'
  {
  }

  /** Before the header that starts the second line, no `Content-Length:` match begins. */
  lemma NoLengthMatchBefore(status: string, tail: string)
    requires IsToken(status, LineDelims)
    requires forall j: nat :: !MatchesAt(status, j, ContentLengthName, true)
    requires |tail| >= 2 && tail[0] == '\r' && tail[1] == '\n'
    ensures forall j :: 0 <= j < |status| + 2 ==> !MatchesAt(status + tail, j, ContentLengthName, true)
  {
    var pat := ContentLengthName;
    var buf := status + tail;
    forall j | 0 <= j < |status| + 2 ensures !MatchesAt(buf, j, pat, true) {
      if j + |pat| <= |status| {
        if MatchesAt(buf, j, pat, true) {
          MatchesAtShrink(status, tail, j, pat, true);
        }
      } else if j <= |status| {
        assert buf[|status|] == '\r';
        NameHasNoLineDelim(|status| - j);
        assert !CharEq(buf[j + (|status| - j)], pat[|status| - j], true);
      } else {
        assert buf[j] == '\n';
        assert !CharEq(buf[j], pat[0], true);
      }
    }
  }

  /**
   * With a status line that does not mention it, the first `Content-Length:`
   * match is the header that starts the second line.
   */
  lemma LengthHeaderFirst(status: string, after: string)
    requires IsToken(status, LineDelims)
    requires forall j: nat :: !MatchesAt(status, j, ContentLengthName, true)
    ensures FindCaseless(status + Crlf + (ContentLengthName + after), ContentLengthName) == Some(|status| + 2)
  {
    var pat := ContentLengthName;
    var tail := Crlf + (pat + after);
    var buf := status + tail;
    assert status + Crlf + (pat + after) == buf;
    var p := |status| + 2;
    assert MatchesAt(buf, p, pat, true) by {
      forall k | 0 <= k < |pat| ensures CharEq(buf[p + k], pat[k], true) {
        assert buf[p + k] == pat[k];
      }
    }
    NoLengthMatchBefore(status, tail);
    FindCaselessIs(buf, pat, p);
  }

  /** The header `Content-Length: n`, after a status line that does not mention it, announces `n`. */
  lemma ContentLengthOfHeader(status: string, n: nat, body: string)
    requires IsToken(status, LineDelims)
    requires forall j: nat :: !MatchesAt(status, j, ContentLengthName, true)
    ensures ContentLength(status + Crlf + ContentLengthName + " " + NatToString(n) + Terminator + body) == Some(n)
  {
    var ds := NatToString(n);
    var after := " " + (ds + (Terminator + body));
    var buf := status + Crlf + (ContentLengthName + after);
    Regroup7Right(status, Crlf, ContentLengthName, " ", ds, Terminator, body);
    LengthHeaderFirst(status, after);
    var q := |status| + 2 + |ContentLengthName|;
    assert buf[q..] == after;
    LengthValueAfterBlank(buf, q, n, Terminator + body);
  }

  /** One blank and then the digits of `n`: the value read after the name is `n`. */
  lemma LengthValueAfterBlank(buf: string, q: nat, n: nat, rest: string)
    requires q <= |buf| && buf[q..] == " " + (NatToString(n) + rest)
    requires rest == [] || rest[0] !in Digits
    ensures Atoi(buf[FirstNotIn(buf, q, Blanks)..]) == n
  {
    var ds := NatToString(n);
    assert buf[q] == ' ';
    assert buf[q + 1] == ds[0];
    DigitIsNoSpace(ds[0]);
    FirstNotInIs(buf, q, Blanks, q + 1);
    assert buf[q + 1..] == ds + rest;
    AtoiOfNatToString(n, rest);
  }

  /**
   * A response whose header block is a status line and `Content-Length: n`
   * is complete exactly once `n` body bytes have arrived.
   */
  lemma ResponseCompleteOfLength(status: string, n: nat, body: string)
    requires IsToken(status, LineDelims)
    requires forall j: nat :: !MatchesAt(status, j, ContentLengthName, true)
    ensures ResponseComplete(status + Crlf + ContentLengthName + " " + NatToString(n) + Terminator + body) <==> |body| >= n
  {
    var ds := NatToString(n);
    var line := ContentLengthName + " " + ds;
    var h := status + Crlf + line;
    var buf := h + Terminator + body;
    Regroup7Middle(status, Crlf, ContentLengthName, " ", ds, Terminator, body);
    assert IsToken(line, LineDelims) by {
      forall k | 0 <= k < |line| ensures line[k] !in LineDelims {
        if k > |ContentLengthName| {
          assert line[k] == ds[k - |ContentLengthName| - 1];
          DigitIsNoSpace(ds[k - |ContentLengthName| - 1]);
        }
      }
    }
    var ls := [status, line];
    assert ls[1..] == [line];
    assert Join(ls, Crlf) == h;
    HeaderBlockOfJoin(ls, body);
    BodyStartOfBlock(buf, h);
    ContentLengthOfHeader(status, n, body);
    assert |buf| - (|h| + |Terminator|) == |body|;
  }

  /** Some `recv` call fails. */
  predicate HasError(calls: seq<Recv>) {
    exists i :: 0 <= i < |calls| && calls[i].RecvError?
  }

  /** The buffer size read_from_server uses for its next `recv`: doubled when no room beyond the NUL is left. */
  function ServerBuf(p: Progress): nat {
    if p.total + 1 >= p.bufsize then 2 * p.bufsize else p.bufsize
  }

  /** What `recv` number `k` (counting from 0) of read_from_server returns. */
  function ServerRecv(stream: string, calls: seq<Recv>, k: nat): (n: int)
    requires k < |calls|
    ensures n == -1 <==> calls[k].RecvError?
    ensures n <= |stream| - ServerProgress(stream, calls, k).total
  {
    var p := ServerProgress(stream, calls, k);
    Received(calls[k], ServerBuf(p) - (p.total + 1), |stream| - p.total)
  }

  /** The bytes read_from_server holds, and its buffer size, after its first `k` calls. */
  function ServerProgress(stream: string, calls: seq<Recv>, k: nat): (p: Progress)
    requires k <= |calls|
    ensures p.total <= |stream| && p.total < p.bufsize && p.bufsize >= InitBufSize
  {
    if k == 0 then Progress(0, InitBufSize)
    else
      var q := ServerProgress(stream, calls, k - 1);
      var n := Received(calls[k - 1], ServerBuf(q) - (q.total + 1), |stream| - q.total);
      Progress(if n == -1 then q.total else q.total + n, ServerBuf(q))
  }

  /**
   * The buffer of read_from_server is always INIT_BUF_SIZE doubled some
   * number of times, and each `recv` leaves it as it was or doubles it once.
   */
  lemma {:induction false} ServerBufferDoubles(stream: string, calls: seq<Recv>, k: nat)
    requires k <= |calls|
    ensures Doubled(ServerProgress(stream, calls, k).bufsize)
    ensures k > 0 ==> var b := ServerProgress(stream, calls, k - 1).bufsize;
                      var b' := ServerProgress(stream, calls, k).bufsize;
                      b' == b || b' == 2 * b
  {
    if k > 0 {
      ServerBufferDoubles(stream, calls, k - 1);
      var b := ServerProgress(stream, calls, k - 1).bufsize;
      DoubledTwice(b);
    }
  }

  /** `recv` number `j` of read_from_server did not fail, and the bytes read so far do not pass the stop test. */
  predicate ServerReadsOn(stream: string, calls: seq<Recv>, complete: string -> bool, j: nat)
    requires j < |calls|
  {
    ServerRecv(stream, calls, j) != -1 && !complete(stream[..ServerProgress(stream, calls, j + 1).total])
  }

  /**
   * The loop of read_from_server goes through all of `calls` without a
   * `recv` error and without the bytes read ever passing the stop test
   * `complete`: the next `recv` then waits for ever, or, once the server has
   * closed, returns 0 for ever.
   */
  predicate Stalls(stream: string, calls: seq<Recv>, complete: string -> bool) {
    forall j :: 0 <= j < |calls| ==> ServerReadsOn(stream, calls, complete, j)
  }

  /**
   * `recv` number `k` of read_from_server did not fail and brought the
   * bytes read to pass the stop test, every earlier one having read on.
   */
  predicate ServerCompletesAt(stream: string, calls: seq<Recv>, complete: string -> bool, k: nat)
    requires k < |calls|
  {
    (forall j :: 0 <= j < k ==> ServerReadsOn(stream, calls, complete, j))
    && ServerRecv(stream, calls, k) != -1 && complete(stream[..ServerProgress(stream, calls, k + 1).total])
  }

  /** Some `recv` of read_from_server brings the bytes read to pass the stop test. */
  predicate ServerCompletes(stream: string, calls: seq<Recv>, complete: string -> bool) {
    exists k :: 0 <= k < |calls| && ServerCompletesAt(stream, calls, complete, k)
  }

  /** Some `recv` of read_from_server returns -1 before the bytes read pass the stop test. */
  predicate ServerFails(stream: string, calls: seq<Recv>, complete: string -> bool) {
    exists k :: 0 <= k < |calls| && ServerRecv(stream, calls, k) == -1
                && forall j :: 0 <= j < k ==> ServerReadsOn(stream, calls, complete, j)
  }

  /**
   * read_from_server does not fail once its first `m` calls all read on and
   * either the calls ran out or call `m` did not fail but stopped the loop.
   */
  lemma NotServerFailing(stream: string, calls: seq<Recv>, complete: string -> bool, m: nat)
    requires m <= |calls|
    requires forall j {:trigger ServerRecv(stream, calls, j)} {:trigger ServerReadsOn(stream, calls, complete, j)}
      :: 0 <= j < m ==> ServerReadsOn(stream, calls, complete, j)
    requires m == |calls| || (ServerRecv(stream, calls, m) != -1 && !ServerReadsOn(stream, calls, complete, m))
    ensures !ServerFails(stream, calls, complete)
  {
    forall k | 0 <= k < |calls| && ServerRecv(stream, calls, k) == -1
               && (forall j :: 0 <= j < k ==> ServerReadsOn(stream, calls, complete, j))
      ensures false
    {
    }
  }

  /** At most one of the three ends of read_from_server's loop is reached. */
  lemma ServerOutcomesExclusive(stream: string, calls: seq<Recv>, complete: string -> bool)
    ensures ServerCompletes(stream, calls, complete) ==>
              !ServerFails(stream, calls, complete) && !Stalls(stream, calls, complete)
    ensures ServerFails(stream, calls, complete) ==> !Stalls(stream, calls, complete)
  {
    if ServerCompletes(stream, calls, complete) {
      var k :| 0 <= k < |calls| && ServerCompletesAt(stream, calls, complete, k);
      assert !ServerReadsOn(stream, calls, complete, k);
      NotServerFailing(stream, calls, complete, k);
    }
    if ServerFails(stream, calls, complete) {
      var k :| 0 <= k < |calls| && ServerRecv(stream, calls, k) == -1
               && forall j :: 0 <= j < k ==> ServerReadsOn(stream, calls, complete, j);
      assert !ServerReadsOn(stream, calls, complete, k);
    }
  }

  /**
   * A server that sends no `Content-Length:` header and no `recv` error
   * keeps read_from_server waiting, whatever else it sends or however it
   * closes.
   */
  lemma NoLengthStalls(stream: string, calls: seq<Recv>)
    requires forall j: nat :: !MatchesAt(stream, j, ContentLengthName, true)
    requires !HasError(calls)
    ensures Stalls(stream, calls, ResponseComplete)
  {
    forall j | 0 <= j < |calls| ensures ServerReadsOn(stream, calls, ResponseComplete, j) {
      NoLengthInPrefix(stream, ServerProgress(stream, calls, j + 1).total);
    }
  }

  /** A prefix of bytes without a `Content-Length:` header has none either. */
  lemma NoLengthInPrefix(stream: string, k: nat)
    requires k <= |stream|
    requires forall j: nat :: !MatchesAt(stream, j, ContentLengthName, true)
    ensures ContentLength(stream[..k]).None?
  {
    forall j: nat ensures !MatchesAt(stream[..k], j, ContentLengthName, true) {
      if MatchesAt(stream[..k], j, ContentLengthName, true) {
        MatchesAtOfPrefix(stream, k, j, ContentLengthName, true);
      }
    }
  }

  /**
   * What the loop of read_from_server returns, for a stop test `complete`,
   * once its first `i` calls have read on: the loop described call by call.
   */
  function ServerReadFrom(stream: string, calls: seq<Recv>, complete: string -> bool, i: nat): ReadResult
    requires i <= |calls|
    decreases |calls| - i
  {
    if i == |calls| then Incomplete
    else
      var n := ServerRecv(stream, calls, i);
      if n == -1 then Failed
      else
        var t := ServerProgress(stream, calls, i + 1).total;
        if complete(stream[..t]) then Ok(stream[..t], n) else ServerReadFrom(stream, calls, complete, i + 1)
  }

  /**
   * The loop of read_from_server, for a stop test `complete` on the bytes
   * read so far: reads until `complete` holds and returns all of them; a
   * `recv` error fails it, and a `recv` returning 0 just loops again. The
   * buffer starts at INIT_BUF_SIZE and doubles whenever no room beyond the
   * terminating NUL remains.
   */
  method ReadUntil(stream: string, calls: seq<Recv>, complete: string -> bool) returns (r: ReadResult)
    ensures r == ServerReadFrom(stream, calls, complete, 0)
  {
    var bufsize: nat := InitBufSize;
    var total: nat := 0;
    var i: nat := 0;
    while i < |calls|
      invariant i <= |calls|
      invariant ServerProgress(stream, calls, i) == Progress(total, bufsize)
      invariant ServerReadFrom(stream, calls, complete, 0) == ServerReadFrom(stream, calls, complete, i)
    {
      if total + 1 >= bufsize {
        bufsize := bufsize * 2;
      }
      var n := Received(calls[i], bufsize - (total + 1), |stream| - total);
      ServerRecvAt(stream, calls, i, total, bufsize, n);
      if n == -1 {
        return Failed;
      }
      total := total + n;
      if complete(stream[..total]) {
        return Ok(stream[..total], n);
      }
      i := i + 1;
    }
    return Incomplete;
  }

  /**
   * What the loop of read_from_server returns: on success, all the bytes
   * read, which the `recv` that returned last brought past the stop test;
   * failure exactly when a `recv` returns -1 before that; no return at all
   * exactly when the loop stalls.
   */
  lemma {:induction false} ServerReadFromIs(stream: string, calls: seq<Recv>, complete: string -> bool, i: nat)
    requires i <= |calls| && forall j :: 0 <= j < i ==> ServerReadsOn(stream, calls, complete, j)
    requires !complete(stream[..ServerProgress(stream, calls, i).total])
    decreases |calls| - i
    ensures var r := ServerReadFrom(stream, calls, complete, i);
            r.Ok? ==> r.data <= stream && complete(r.data)
                      && 0 < r.lastRead <= |r.data| && !complete(r.data[..|r.data| - r.lastRead])
    ensures var r := ServerReadFrom(stream, calls, complete, i);
            r.Ok? ==> exists k :: 0 <= k < |calls| && ServerCompletesAt(stream, calls, complete, k)
                                  && r.data == stream[..ServerProgress(stream, calls, k + 1).total]
                                  && r.lastRead == ServerRecv(stream, calls, k)
    ensures ServerReadFrom(stream, calls, complete, i).Failed? <==> ServerFails(stream, calls, complete)
    ensures ServerReadFrom(stream, calls, complete, i).Incomplete? <==> Stalls(stream, calls, complete)
  {
    if i == |calls| {
      NotServerFailing(stream, calls, complete, i);
    } else if ServerRecv(stream, calls, i) == -1 {
      ServerErrs(stream, calls, complete, i);
    } else if complete(stream[..ServerProgress(stream, calls, i + 1).total]) {
      ServerFinishes(stream, calls, complete, i);
    } else {
      assert ServerReadFrom(stream, calls, complete, i) == ServerReadFrom(stream, calls, complete, i + 1);
      assert ServerReadsOn(stream, calls, complete, i);
      ServerReadFromIs(stream, calls, complete, i + 1);
    }
  }

  /** A `recv` of read_from_server that returns -1 after every earlier one read on fails the loop. */
  lemma ServerErrs(stream: string, calls: seq<Recv>, complete: string -> bool, i: nat)
    requires i < |calls| && forall j :: 0 <= j < i ==> ServerReadsOn(stream, calls, complete, j)
    requires ServerRecv(stream, calls, i) == -1
    ensures ServerReadFrom(stream, calls, complete, i) == Failed
    ensures ServerFails(stream, calls, complete) && !Stalls(stream, calls, complete)
  {
    assert 0 <= i < |calls| && ServerRecv(stream, calls, i) == -1;
    assert !ServerReadsOn(stream, calls, complete, i);
  }

  /**
   * A `recv` of read_from_server that brings the bytes read past the stop
   * test, after every earlier one read on: what the loop returns then.
   */
  lemma ServerFinishes(stream: string, calls: seq<Recv>, complete: string -> bool, i: nat)
    requires i < |calls| && forall j :: 0 <= j < i ==> ServerReadsOn(stream, calls, complete, j)
    requires !complete(stream[..ServerProgress(stream, calls, i).total])
    requires ServerRecv(stream, calls, i) != -1 && complete(stream[..ServerProgress(stream, calls, i + 1).total])
    ensures var r := ServerReadFrom(stream, calls, complete, i);
            r.Ok? && r.data <= stream && complete(r.data) && 0 < r.lastRead <= |r.data| && !complete(r.data[..|r.data| - r.lastRead])
            && (exists k :: 0 <= k < |calls| && ServerCompletesAt(stream, calls, complete, k)
                            && r.data == stream[..ServerProgress(stream, calls, k + 1).total]
                            && r.lastRead == ServerRecv(stream, calls, k))
    ensures !ServerFails(stream, calls, complete) && !Stalls(stream, calls, complete)
  {
    var before := ServerProgress(stream, calls, i).total;
    var n := ServerRecv(stream, calls, i);
    ServerRecvAt(stream, calls, i, before, ServerBuf(ServerProgress(stream, calls, i)), n);
    assert n > 0;
    PrefixOfPrefix(stream, before, before + n);
    assert !ServerReadsOn(stream, calls, complete, i);
    NotServerFailing(stream, calls, complete, i);
    assert ServerCompletesAt(stream, calls, complete, i);
    assert ServerReadFrom(stream, calls, complete, i) == Ok(stream[..before + n], n);
  }

  /** A prefix of `stream` taken from a longer prefix. */
  lemma PrefixOfPrefix(stream: string, before: nat, total: nat)
    requires before <= total <= |stream|
    ensures stream[..total] <= stream && stream[..total][..before] == stream[..before]
  {
  }

  /** What `recv` number `k` of read_from_server returns from the state it finds, and the state it leaves. */
  lemma ServerRecvAt(stream: string, calls: seq<Recv>, k: nat, total: nat, b: nat, n: int)
    requires k < |calls| && var p := ServerProgress(stream, calls, k); p.total == total && b == ServerBuf(p)
    requires n == Received(calls[k], b - (total + 1), |stream| - total)
    ensures ServerRecv(stream, calls, k) == n
    ensures ServerProgress(stream, calls, k + 1) == Progress(if n == -1 then total else total + n, b)
  {
  }

  /** A read that stalls saw no `recv` error. */
  lemma StallsHasNoError(stream: string, calls: seq<Recv>, complete: string -> bool)
    requires Stalls(stream, calls, complete)
    ensures !HasError(calls)
  {
    forall j | 0 <= j < |calls| ensures calls[j].UpTo? {
      assert ServerReadsOn(stream, calls, complete, j);
    }
  }

  /**
   * With every call delivering, read_from_server has read all that is left
   * or at least one byte per call.
   */
  lemma {:induction false} ServerProgressAtLeast(stream: string, calls: seq<Recv>, k: nat)
    requires k <= |calls| && Delivers(calls)
    ensures var t := ServerProgress(stream, calls, k).total; t >= k || t == |stream|
  {
    if k > 0 {
      ServerProgressAtLeast(stream, calls, k - 1);
      var p := ServerProgress(stream, calls, k - 1);
    }
  }

  /**
   * With every call delivering and as many calls as bytes sent, a read that
   * stalls means the whole stream fails the stop test.
   */
  lemma StallsDelivered(stream: string, calls: seq<Recv>, complete: string -> bool)
    requires Stalls(stream, calls, complete) && Delivers(calls) && |calls| >= |stream|
    requires !complete([])
    ensures !complete(stream)
  {
    ServerProgressAtLeast(stream, calls, |calls|);
    if |calls| > 0 {
      assert ServerReadsOn(stream, calls, complete, |calls| - 1);
      assert stream[..|stream|] == stream;
    }
  }

  /**
   * read_from_server over the bytes the server sends (`stream`) and the
   * successive `recv` calls: the loop above with `ResponseComplete` as its
   * stop test. What it returns may run past the announced body.
   */
  method ReadFromServer(stream: string, calls: seq<Recv>) returns (r: ReadResult)
    ensures r.Ok? ==> r.data <= stream && ResponseComplete(r.data)
    ensures r.Ok? ==> 0 < r.lastRead <= |r.data| && !ResponseComplete(r.data[..|r.data| - r.lastRead])
    ensures r.Ok? ==> exists k :: 0 <= k < |calls| && ServerCompletesAt(stream, calls, ResponseComplete, k)
                                  && r.data == stream[..ServerProgress(stream, calls, k + 1).total]
                                  && r.lastRead == ServerRecv(stream, calls, k)
    ensures r.Failed? <==> ServerFails(stream, calls, ResponseComplete)
    ensures r.Incomplete? <==> Stalls(stream, calls, ResponseComplete)
  {
    r := ReadUntil(stream, calls, ResponseComplete);
    assert !ResponseComplete(stream[..0]) by {
      assert !Contains([], Terminator);
    }
    ServerReadFromIs(stream, calls, ResponseComplete, 0);
  }

  /**
   * What forward_request gives the connection: the response it relayed, a
   * failure (NULL), or nothing at all because read_from_server never
   * returns.
   */
  datatype Reply = Relayed(response: string) | NoReply | NeverReturns

  /**
   * forward_request, without its send loops: the request must reach the
   * server (`requestSent`), the response is read, a response without a
   * Content-Length header is dropped, and the response must reach the
   * client (`responseSent`). A read that never finishes never returns. A
   * read that finishes has passed the stop test, which needs a
   * Content-Length header, so the header check never drops a response.
   */
  method ForwardRequest(requestSent: bool, stream: string, calls: seq<Recv>, responseSent: bool) returns (r: Reply)
    ensures r.NeverReturns? <==> requestSent && Stalls(stream, calls, ResponseComplete)
    ensures r.Relayed? <==> requestSent && responseSent && ServerCompletes(stream, calls, ResponseComplete)
    ensures r.NoReply? <==> !requestSent || ServerFails(stream, calls, ResponseComplete)
                            || (ServerCompletes(stream, calls, ResponseComplete) && !responseSent)
    ensures r.Relayed? ==> r.response <= stream && ResponseComplete(r.response)
    ensures r.Relayed? ==> exists k :: 0 <= k < |calls| && ServerCompletesAt(stream, calls, ResponseComplete, k)
                                       && r.response == stream[..ServerProgress(stream, calls, k + 1).total]
  {
    ServerOutcomesExclusive(stream, calls, ResponseComplete);
    if !requestSent {
      return NoReply;
    }
    var response := ReadFromServer(stream, calls);
    if response.Incomplete? {
      return NeverReturns;
    }
    if response.Failed? {
      return NoReply;
    }
    if FindCaseless(response.data, ContentLengthName).None? {
      // forward_request returns NULL here (src/proxy.c:298-302), but the stop
      // test needs the header, so this branch is unreachable.
      assert false;
    }
    if !responseSent {
      return NoReply;
    }
    return Relayed(response.data);
  }
}
