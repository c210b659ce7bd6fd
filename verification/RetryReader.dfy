/** The retrying body reader of azbfs/zc_retry_reader.go: a stream over one file that survives failed bodies,
    failed re-requests and Close calls made by another goroutine while a Read is running. */
module RetryReaders {
  import opened HttpRange
  import opened Int64

  newtype byte = x: int | 0 <= x < 256

  /** What io.Reader and the getter can report, by the classes Read distinguishes. */
  datatype Error = Nil | EOF | NetError | UnexpectedEOF | ReadOnClosedBody | Other

  /** No error, or a clean end of stream. */
  predicate Delivers(err: Error) {
    err.Nil? || err.EOF?
  }

  predicate IsRetryable(err: Error, treatEarlyCloseAsError: bool) {
    err.NetError? || err.UnexpectedEOF? || (err.ReadOnClosedBody? && !treatEarlyCloseAsError)
  }

  /** One past the last byte that a request for (offset, count) can return; past the end of the file there is none. */
  function RangeEnd(fileLength: nat, offset: nat, count: nat): nat {
    if offset > fileLength then offset
    else if count == COUNT_TO_END || offset + count > fileLength then fileLength
    else offset + count
  }

  /** The bytes from from to to, when it has them; an empty range has none wherever it is. */
  predicate HasRange(file: seq<byte>, from: nat, to: nat) {
    from <= to && (to <= |file| || from == to)
  }

  function Slice(file: seq<byte>, from: nat, to: nat): seq<byte>
    requires HasRange(file, from, to)
  {
    if to <= |file| then file[from..to] else []
  }

  /** The body of one GET response, serving file[pos..end]. Every fault is possible at every read. */
  class ResponseBody {
    const file: seq<byte>
    const end: nat
    var pos: nat
    var closed: bool

    ghost predicate Valid()
      reads this
    {
      HasRange(file, pos, end)
    }

    constructor (file: seq<byte>, pos: nat, end: nat)
      requires HasRange(file, pos, end)
      ensures Valid() && this.file == file && this.pos == pos && this.end == end && !closed
    {
      this.file, this.pos, this.end, this.closed := file, pos, end, false;
    }

    /** Reads some bytes into p, or fails after having consumed any number of them. Only an open body delivers,
        and it reports EOF only at its end; it may be closed under the reader's feet. */
    method Read(p: array<byte>) returns (n: nat, err: Error)
      requires Valid()
      modifies this, p
      ensures Valid() && n <= p.Length
      ensures old(closed) ==> closed
      ensures HasRange(file, old(pos), pos)
      ensures Delivers(err) ==> !old(closed) && pos == old(pos) + n && p[..n] == Slice(file, old(pos), pos)
      ensures err.EOF? ==> pos == end
    {
      n, err := *, *;
      if n > p.Length || n > end - pos {
        n := 0;
      }
      if Delivers(err) && closed {
        err := ReadOnClosedBody;
      }
      var closing: bool := *;
      if closing {
        closed := true;
      }
      forall i | 0 <= i < n {
        p[i] := file[pos + i];
      }
      pos := pos + n;
      if err.EOF? && pos != end {
        err := UnexpectedEOF;
      }
    }

    method Close()
      modifies this
      ensures closed && pos == old(pos)
    {
      closed := true;
    }
  }

  /** One call of NotifyFailedRead. */
  datatype Failure = Failure(failureCount: nat, lastError: Error, offset: int, count: int, willRetry: bool)

  /** The failures of one Read: numbered from 1, all at the same ledger position, and followed by another try
      exactly when the error is retryable and retries are left. */
  ghost predicate RetriedInOrder(failures: seq<Failure>, offset: int, count: int, o: Options) {
    forall i | 0 <= i < |failures| ::
      && failures[i].failureCount == i + 1
      && failures[i].offset == offset && failures[i].count == count
      && !Delivers(failures[i].lastError)
      && (failures[i].willRetry <==>
          IsRetryable(failures[i].lastError, o.treatEarlyCloseAsError) && i < o.maxRetryRequests)
      && (i + 1 < |failures| ==> failures[i].willRetry)
  }

  /** What one Read did: the ranges it requested, the failures it reported, the bodies it opened, and how often it read
      one. */
  datatype Trace = Trace(requests: seq<(int, int)>, failures: seq<Failure>, bodies: seq<ResponseBody>, bodyReads: nat)

  /** What some number of tries did: each made at most one request, for the undelivered rest, and one body read. */
  ghost predicate InOrder(t: Trace, tries: nat, offset: int, count: int, o: Options) {
    && |t.bodies| <= |t.requests| <= tries && |t.failures| <= t.bodyReads <= tries
    && (forall r | r in t.requests :: r == (offset, count))
    && RetriedInOrder(t.failures, offset, count, o)
  }

  /** The last failure, if there is one, is to be retried. */
  ghost predicate GoesOn(failures: seq<Failure>) {
    failures != [] ==> failures[|failures| - 1].willRetry
  }

  /** The last thing that happened is a request that failed, or a failure with this error which is not retried. */
  ghost predicate EndsWith(t: Trace, err: Error) {
    if GoesOn(t.failures) then |t.requests| > |t.bodies| else t.failures[|t.failures| - 1].lastError == err
  }

  /** All tries so far failed and are to be followed by another. */
  ghost predicate Going(t: Trace, tries: nat, offset: int, count: int, o: Options) {
    InOrder(t, tries, offset, count, o) && |t.failures| == t.bodyReads == tries && GoesOn(t.failures)
  }

  /** One try more: asked if it made a request, body if it read one. */
  function Logged(t: Trace, range: (int, int), asked: bool, body: ResponseBody?, err: Error, again: bool): Trace {
    Trace(if asked then t.requests + [range] else t.requests,
          if body != null && !Delivers(err) then t.failures + [Failure(|t.failures| + 1, err, range.0, range.1, again)]
          else t.failures,
          if asked && body != null then t.bodies + [body] else t.bodies,
          if body != null then t.bodyReads + 1 else t.bodyReads)
  }

  lemma LoggedInOrder(t: Trace, tries: nat, offset: int, count: int, o: Options, asked: bool, body: ResponseBody?,
                      err: Error, again: bool)
    requires Going(t, tries, offset, count, o) && (body == null ==> asked && !Delivers(err))
    requires again <==> body != null && !Delivers(err) && IsRetryable(err, o.treatEarlyCloseAsError) && tries < o.maxRetryRequests
    ensures var l := Logged(t, (offset, count), asked, body, err, again);
            && InOrder(l, tries + 1, offset, count, o)
            && (again ==> Going(l, tries + 1, offset, count, o))
            && l.bodyReads == |l.failures| + (if Delivers(err) then 1 else 0)
            && (if Delivers(err) then GoesOn(l.failures) else again || EndsWith(l, err))
  {
  }

  /** Which failures of a Read are retried: network errors and a stream cut short while retries are left, a body that
      was closed too unless the user asked for that to be an error, and nothing else. */
  ghost predicate RetriedByKind(f: Failure, o: Options) {
    match f.lastError
    case NetError => f.willRetry <==> f.failureCount <= o.maxRetryRequests
    case UnexpectedEOF => f.willRetry <==> f.failureCount <= o.maxRetryRequests
    case ReadOnClosedBody => f.willRetry <==> f.failureCount <= o.maxRetryRequests && !o.treatEarlyCloseAsError
    case Other => !f.willRetry
    case Nil => false
    case EOF => false
  }

  lemma FailuresByKind(t: Trace, tries: nat, offset: int, count: int, o: Options)
    requires InOrder(t, tries, offset, count, o)
    ensures forall f | f in t.failures :: RetriedByKind(f, o)
  {
    forall f | f in t.failures ensures RetriedByKind(f, o) {
      var i :| 0 <= i < |t.failures| && t.failures[i] == f;
    }
  }

  /** A Read gives up on such an error only after its last retry. */
  lemma GivesUpWhenExhausted(t: Trace, tries: nat, offset: int, count: int, o: Options)
    requires InOrder(t, tries, offset, count, o) && t.failures != []
    ensures var last := t.failures[|t.failures| - 1];
            !last.willRetry && (last.lastError.NetError? || last.lastError.UnexpectedEOF?
                                || (last.lastError.ReadOnClosedBody? && !o.treatEarlyCloseAsError))
            ==> |t.failures| == o.maxRetryRequests + 1
  {
    var last := t.failures[|t.failures| - 1];
    FailuresByKind(t, tries, offset, count, o);
    assert RetriedByKind(last, o);
    if |t.failures| > 1 {
      assert t.failures[|t.failures| - 2].willRetry;
    }
  }

  /** The Range header of a request denotes exactly what is still undelivered after done bytes. */
  ghost predicate AsksForRest(request: (int, int), start: nat, initialCount: nat, done: nat) {
    var header := Pointers(request.0, request.1);
    && !header.Panic?
    && ReadHeader(header) == if initialCount != COUNT_TO_END then Between(start + done, start + initialCount - 1)
                             else if start + done == 0 then Whole else From(start + done)
  }

  datatype Options = Options(maxRetryRequests: nat, treatEarlyCloseAsError: bool)

  class RetryReader {
    // The resource, which only the server looks at, and the range first asked for.
    const file: seq<byte>
    ghost const start: nat
    ghost const initialCount: nat

    var offset: int
    var count: int
    const countWasBounded: bool
    const o: Options
    var response: ResponseBody?

    // The bytes handed out with nil or EOF.
    ghost var delivered: seq<byte>

    /** The ledger of offset and count agrees with what has been delivered. */
    ghost predicate LedgerValid()
      reads this
    {
      && (countWasBounded <==> initialCount != COUNT_TO_END)
      && HasRange(file, start, Limit())
      && offset == start + |delivered| <= Limit()
      && delivered == Slice(file, start, offset)
      && count == (if countWasBounded then start + initialCount - offset else COUNT_TO_END)
    }

    ghost predicate Valid()
      reads this, response
    {
      && LedgerValid()
      && (response != null ==> response.Valid() && response.file == file
                               && response.pos == offset && response.end == Limit())
    }

    /** One past the last byte this reader can ever deliver. */
    ghost function Limit(): nat {
      RangeEnd(|file|, start, initialCount)
    }

    /** Panics of the constructor (a negative count or retry limit) are its types here. */
    constructor (file: seq<byte>, initialResponse: ResponseBody?, offset: nat, count: nat, o: Options)
      requires initialResponse != null ==>
                 initialResponse.Valid() && initialResponse.file == file && initialResponse.pos == offset
                 && initialResponse.end == RangeEnd(|file|, offset, count)
      ensures Valid() && delivered == []
      ensures this.file == file && start == offset && initialCount == count && response == initialResponse
      ensures this.o == o
    {
      this.file, this.start, this.initialCount := file, offset, count;
      this.offset, this.count, this.countWasBounded := offset, count, count != COUNT_TO_END;
      this.o, this.response := o, initialResponse;
      this.delivered := [];
    }

    /** Close may run in any goroutine at any time; it closes whatever body is current and clears nothing. */
    method Close()
      modifies response
      ensures response != null ==> response.closed && response.pos == old(response.pos)
    {
      if response != null {
        response.Close();
      }
    }

    /** Steps of other goroutines between two steps of Read: any number of Close calls. */
    method OtherGoroutines()
      modifies response
      ensures response != null ==> response.pos == old(response.pos) && (old(response.closed) ==> response.closed)
    {
      var closing: bool := *;
      if closing {
        Close();
      }
    }

    /** The HTTPGetter: fails, or opens a body on the range asked for. */
    method Get(offset: nat, count: nat) returns (newResponse: ResponseBody?, err: Error)
      ensures newResponse == null ==> !Delivers(err)
      ensures newResponse != null ==>
                fresh(newResponse) && newResponse.Valid() && newResponse.file == file && newResponse.pos == offset
                && newResponse.end == RangeEnd(|file|, offset, count)
    {
      newResponse, err := null, *;
      if Delivers(err) {
        newResponse := new ResponseBody(file, offset, RangeEnd(|file|, offset, count));
      }
    }

    /** The body to read from: the current one, or a new one from the getter when there is none. */
    method CurrentBody() returns (resp: ResponseBody?, err: Error)
      requires Valid() && (countWasBounded ==> count > 0)
      modifies this`response, response
      ensures Valid() && resp == response
      ensures if old(response) != null then resp == old(response) else resp == null || fresh(resp)
      ensures resp == null ==> !Delivers(err)
    {
      err := Nil;
      OtherGoroutines();
      resp := response;
      OtherGoroutines();
      if resp == null {
        var newResponse;
        newResponse, err := Get(offset, count);
        if newResponse == null {
          return;
        }
        response := newResponse;
        resp := newResponse;
        OtherGoroutines();
      }
    }

    /** Moves the ledger past n bytes just handed out. */
    method Advance(n: nat, ghost bytes: seq<byte>)
      requires LedgerValid() && (countWasBounded ==> count > 0)
      requires offset + n <= Limit() && bytes == Slice(file, offset, offset + n)
      modifies this`offset, this`count, this`delivered
      ensures LedgerValid() && offset == old(offset) + n && delivered == old(delivered) + bytes
    {
      assert Slice(file, start, offset + n) == Slice(file, start, offset) + bytes;
      delivered := delivered + bytes;
      offset := offset + n;
      if count != COUNT_TO_END {
        count := count - n;
      }
    }

    /** Closes the current body after a failure and forgets it. */
    method Discard()
      requires LedgerValid() && response != null
      modifies this`response, response
      ensures Valid() && response == null && old(response).closed
    {
      Close();
      OtherGoroutines();
      response := null;
    }

    /** One read of the current body: what it delivers moves the ledger, and a failure costs the body. */
    method ReadBody(p: array<byte>) returns (n: nat, err: Error)
      requires Valid() && response != null && (countWasBounded ==> count > 0)
      modifies this`offset, this`count, this`delivered, this`response, response, p
      ensures Valid() && n <= p.Length
      ensures Delivers(err) ==> delivered == old(delivered) + p[..n] && response == old(response)
      ensures !Delivers(err) ==>
                && delivered == old(delivered) && offset == old(offset) && count == old(count)
                && response == null && old(response).closed
      ensures err.EOF? ==> offset == Limit()
    {
      n, err := response.Read(p);
      OtherGoroutines();
      if Delivers(err) {
        Advance(n, p[..n]);
      } else {
        Discard();
      }
    }

    /** One try: a request if there is no body, and then one read of the body unless the getter fails; again if another
        try is to follow. */
    method TryOnce(p: array<byte>, try: nat) returns (n: nat, err: Error, again: bool, ghost body: ResponseBody?)
      requires Valid() && (countWasBounded ==> count > 0)
      modifies this`offset, this`count, this`response, this`delivered, response, p
      ensures Valid() && n <= p.Length
      // The body that was read is the current one, or else a new one, unless the getter failed.
      ensures if old(response) != null then body == old(response) else body == null || fresh(body)
      ensures body == null ==> !Delivers(err)
      ensures if Delivers(err) then response == body else response == null && (body != null ==> body.closed)
      ensures delivered == old(delivered) + (if Delivers(err) then p[..n] else [])
      ensures !Delivers(err) ==> offset == old(offset) && count == old(count)
      ensures err.EOF? ==> offset == Limit()
      // Another try follows a retryable failure of a body while tries are left.
      ensures again <==> body != null && !Delivers(err) && IsRetryable(err, o.treatEarlyCloseAsError) && try < o.maxRetryRequests
    {
      var resp;
      resp, err := CurrentBody();
      body := resp;
      if resp == null {
        return 0, err, false, null;
      }
      n, err := ReadBody(p);
      if Delivers(err) {
        return n, err, false, body;
      }
      var retriesExhausted := try >= o.maxRetryRequests;
      again := IsRetryable(err, o.treatEarlyCloseAsError) && !retriesExhausted;
    }

    /** A try, logged. */
    method Attempt(p: array<byte>, try: nat, ghost before: Trace)
      returns (n: nat, err: Error, again: bool, ghost trace: Trace)
      requires Valid() && (countWasBounded ==> count > 0) && try <= o.maxRetryRequests
      requires Going(before, try, offset, count, o)
      requires forall b | b in before.bodies :: b.closed && b != response
      modifies this`offset, this`count, this`response, this`delivered, response, p
      ensures Valid() && n <= p.Length
      ensures delivered == old(delivered) + (if Delivers(err) then p[..n] else [])
      ensures !Delivers(err) ==> response == null && offset == old(offset) && count == old(count)
      ensures err.EOF? ==> offset == Limit()
      ensures forall b | b in trace.bodies :: (b in before.bodies || fresh(b)) && (b.closed || b == response)
      ensures response != null ==> response == old(response) || response in trace.bodies
      ensures old(response) != null && old(response) != response ==> old(response).closed
      ensures InOrder(trace, try + 1, old(offset), old(count), o)
      ensures trace.bodyReads == |trace.failures| + (if Delivers(err) then 1 else 0)
      ensures again ==> try < o.maxRetryRequests && !Delivers(err) && Going(trace, try + 1, old(offset), old(count), o)
      ensures if Delivers(err) then GoesOn(trace.failures) else again || EndsWith(trace, err)
      ensures forall f | f in trace.failures :: RetriedByKind(f, o)
    {
      ghost var asked, range := response == null, (offset, count);
      ghost var body;
      n, err, again, body := TryOnce(p, try);
      LoggedInOrder(before, try, range.0, range.1, o, asked, body, err, again);
      trace := Logged(before, range, asked, body, err, again);
      FailuresByKind(trace, try + 1, range.0, range.1, o);
    }

    method Read(p: array<byte>) returns (n: nat, err: Error, ghost trace: Trace)
      requires Valid()
      modifies this`offset, this`count, this`response, this`delivered, response, p
      ensures Valid() && n <= p.Length
      // What is returned with nil or EOF, and nothing else, is delivered.
      ensures delivered == old(delivered) + (if Delivers(err) then p[..n] else [])
      // EOF means that the whole of the requested range has been delivered.
      ensures err.EOF? ==> offset == Limit()
      // Every body opened on the way, and the one there was, is closed unless it is the current one now.
      ensures forall b | b in trace.bodies :: fresh(b) && (b.closed || b == response)
      ensures response != null ==> response == old(response) || response in trace.bodies
      ensures old(response) != null && old(response) != response ==> old(response).closed
      // At most MaxRetryRequests + 1 requests and body reads; every failure is reported, and retries follow retryable
      // errors only.
      ensures InOrder(trace, o.maxRetryRequests + 1, old(offset), old(count), o)
      ensures countWasBounded && old(count) == COUNT_TO_END ==> trace == Trace([], [], [], 0) && n == 0 && err.EOF?
      ensures forall f | f in trace.failures :: RetriedByKind(f, o)
      // One body read for every failure and one for the delivery, unless nothing was left of a bounded range.
      ensures trace.bodyReads ==
              |trace.failures| + (if Delivers(err) && !(countWasBounded && old(count) == COUNT_TO_END) then 1 else 0)
      // An error returned is the getter's, or that of a failure which is not retried; it leaves no body.
      ensures if Delivers(err) then GoesOn(trace.failures) else response == null && EndsWith(trace, err)
    {
      trace := Trace([], [], [], 0);
      var try := 0;
      while true
        invariant 0 <= try <= o.maxRetryRequests
        invariant Valid()
        invariant offset == old(offset) && count == old(count) && delivered == old(delivered)
        invariant if try == 0 then response == old(response) && trace == Trace([], [], [], 0)
                  else response == null && (old(response) != null ==> old(response).closed) && (countWasBounded ==> count > 0)
        invariant forall b | b in trace.bodies :: fresh(b) && b.closed
        invariant Going(trace, try, offset, count, o)
        decreases o.maxRetryRequests - try
      {
        if countWasBounded && count == COUNT_TO_END {
          return 0, EOF, trace;
        }
        var again;
        n, err, again, trace := Attempt(p, try, trace);
        if !again {
          return;
        }
        try := try + 1;
      }
    }

    /** The ledger's position is always the header of the undelivered rest, without overflow if the first had none. */
    lemma HeaderOfRest()
      requires Valid() && start + initialCount <= TWO_63
      requires countWasBounded ==> count > 0
      ensures AsksForRest((offset, count), start, initialCount, |delivered|)
    {
      HeaderDenotesInterval(offset, count);
    }
  }

  /** One Read by a client that keeps what comes with nil or EOF. Every Range header sent denotes the interval
      that was undelivered before the call. */
  method ReadInto(r: RetryReader, bufferSize: nat) returns (bytes: seq<byte>, err: Error, ghost requests: seq<(int, int)>)
    requires r.Valid()
    modifies r, r.response
    ensures r.Valid() && r.delivered == old(r.delivered) + bytes
    ensures r.response == null || r.response == old(r.response) || fresh(r.response)
    ensures err.EOF? ==> r.offset == r.Limit()
    ensures r.start + r.initialCount <= TWO_63 ==>
              forall q | q in requests :: AsksForRest(q, r.start, r.initialCount, |old(r.delivered)|)
  {
    if r.start + r.initialCount <= TWO_63 && (r.countWasBounded ==> r.count > 0) {
      r.HeaderOfRest();
    }
    var p := new byte[bufferSize];
    var n, e, trace := r.Read(p);
    err, requests := e, trace.requests;
    bytes := if Delivers(err) then p[..n] else [];
  }

  /** What a client does with the reader: reads into buffers of any size, and closes at any time. */
  datatype Step = ReadStep(bufferSize: nat) | CloseStep

  /** A whole run: the bytes returned with nil or EOF concatenate to the slice of the file that starts at the initial
      offset, whatever faults and Close calls happen, and to the whole range once EOF has been seen. */
  method Consume(r: RetryReader, steps: seq<Step>) returns (output: seq<byte>, sawEOF: bool)
    requires r.Valid() && r.delivered == []
    modifies r, r.response
    ensures r.Valid() && r.offset == r.start + |output|
    ensures HasRange(r.file, r.start, r.start + |output|) && output == Slice(r.file, r.start, r.start + |output|)
    ensures sawEOF && r.start <= |r.file| ==>
              output == if 0 < r.initialCount <= |r.file| - r.start then r.file[r.start..r.start + r.initialCount]
                        else r.file[r.start..]
    ensures sawEOF && r.start > |r.file| ==> output == []
    ensures if r.countWasBounded then r.offset + r.count == r.start + r.initialCount else r.count == COUNT_TO_END
  {
    output, sawEOF := [], false;
    for i := 0 to |steps|
      invariant r.Valid() && output == r.delivered
      invariant r.response == null || r.response == old(r.response) || fresh(r.response)
      invariant sawEOF ==> r.offset == r.Limit()
    {
      match steps[i]
      case CloseStep =>
        r.Close();
      case ReadStep(bufferSize) =>
        var bytes, err, _ := ReadInto(r, bufferSize);
        output := output + bytes;
        sawEOF := sawEOF || err.EOF?;
    }
  }
}
