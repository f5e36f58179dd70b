/** Framing of a growing body under partial writes (`SendChunked`), and the event that drives it (`CgiResponse`). */
module ChunkedSending {
  import opened Text
  import opened Numbers
  import opened ChunkedDecoding

  /** Addition and subtraction on `size_t`. */
  function Plus(a: nat, b: nat): nat {
    (a + b) % SIZE_T
  }

  lemma PlusIsSum(a: nat, b: nat)
    requires a + b < SIZE_T
    ensures Plus(a, b) == a + b
  {
  }

  function Minus(a: nat, b: nat): nat
    requires a < SIZE_T && b < SIZE_T
  {
    if a >= b then a - b else SIZE_T + a - b
  }

  /** The fields of a `SendChunked`. */
  datatype Sender = Sender(
    sentByte: nat, sentLast: bool, lastChunk: string, pending: string, err: bool, otherThanBody: nat)
  {
    predicate Valid() {
      sentByte < SIZE_T && otherThanBody < SIZE_T
    }

    function SentByte(): nat
      requires Valid()
    {
      var res := Minus(sentByte, otherThanBody);
      if res > sentByte then 0 else res
    }

    /** `body.substr` at the bytes framed so far. */
    predicate CanSend(body: string)
      requires Valid()
    {
      pending == "" ==> Minus(sentByte, otherThanBody) <= |body|
    }

    /** What `Send` hands to `write`. */
    function ToWrite(body: string): string
      requires Valid() && CanSend(body)
    {
      if pending != "" then pending else Frame(body[Minus(sentByte, otherThanBody)..])
    }

    /** `Send`, if `write` returns `n`. */
    function Send(body: string, n: int): (s: Sender)
      requires Valid() && CanSend(body) && -1 <= n <= |ToWrite(body)|
      ensures s.Valid()
    {
      var chunk := ToWrite(body);
      if n == -1 then this.(pending := chunk, err := true)
      else
        var framing := if pending != "" then 0 else |Print(|body| - Minus(sentByte, otherThanBody), Hex)| + 4;
        this.(pending := chunk[n..], sentByte := Plus(sentByte, n), otherThanBody := Plus(otherThanBody, framing))
    }

    /** `SendLastChunk`, if `write` returns `n`: what a partial write leaves over is not sent later. */
    function SendLastChunk(n: int): (s: Sender)
      requires -1 <= n <= |lastChunk|
      ensures Valid() ==> s.Valid()
    {
      if n == -1 then this.(err := true, sentLast := true)
      else this.(lastChunk := lastChunk[n..], sentLast := true)
    }
  }

  const INITIAL_SENDER := Sender(0, false, LAST_CHUNK, "", false, 0)

  // ---------------------------------------------------------------------------------------------
  // The bookkeeping of SendChunked

  /**
   Between writes that do not fail: `sent` is what has been written, `chunks` the pieces of the body
   that have been framed, and sent plus pending bytes are their frames. Bodies stay below a sixth of
   the address space, so that none of the counters overflows.
   */
  ghost predicate Accounted(s: Sender, body: string, chunks: seq<string>, sent: string) {
    && s.Valid() && !s.err
    && AllNonEmpty(chunks) && Concat(chunks) <= body && 6 * |body| < SIZE_T
    && sent + s.pending == FrameAll(chunks)
    && s.sentByte == |sent|
    && s.otherThanBody == |FrameAll(chunks)| - |Concat(chunks)|
  }

  lemma FrameSize(data: string)
    requires data != ""
    ensures |data| < |Frame(data)| <= 6 * |data|
  {
    PrintIsShort(|data|, Hex);
  }

  lemma {:induction false} FramingIsBounded(chunks: seq<string>)
    requires AllNonEmpty(chunks)
    ensures |Concat(chunks)| <= |FrameAll(chunks)| <= 6 * |Concat(chunks)|
    ensures chunks != [] ==> Concat(chunks) != ""
  {
    if chunks != [] {
      FrameSize(chunks[0]);
      FramingIsBounded(chunks[1..]);
    }
  }

  /**
   `SentByte` is the body's share of what has been written, counting framing first. Although it may
   wrap below zero, it equals the body size exactly when the whole body has been framed and written.
   */
  lemma SentByteIsExact(s: Sender, body: string, chunks: seq<string>, sent: string)
    requires Accounted(s, body, chunks, sent)
    ensures s.SentByte() == if |Concat(chunks)| >= |s.pending| then |Concat(chunks)| - |s.pending| else 0
    ensures s.SentByte() <= |body| && s.CanSend(body)
    ensures s.SentByte() == |body| <==> s.pending == "" && Concat(chunks) == body
  {
    FramingIsBounded(chunks);
    assert |FrameAll(chunks)| == |sent| + |s.pending|;
    assert |FrameAll(chunks)| < SIZE_T;
    if |Concat(chunks)| == |body| {
      assert Concat(chunks) == body;
    }
    if chunks == [] {
      assert FrameAll(chunks) == "";
    }
  }

  /** The chunks framed once `Send` has been called. */
  ghost function Framed(s: Sender, body: string, chunks: seq<string>): seq<string>
    requires Concat(chunks) <= body
  {
    if s.pending != "" then chunks else chunks + [body[|Concat(chunks)|..]]
  }

  lemma FramedGrows(s: Sender, body: string, chunks: seq<string>, sent: string)
    requires Accounted(s, body, chunks, sent) && s.SentByte() < |body|
    ensures s.CanSend(body) && FrameAll(Framed(s, body, chunks)) == sent + s.ToWrite(body)
    ensures AllNonEmpty(Framed(s, body, chunks)) && Concat(Framed(s, body, chunks)) <= body
  {
    SentByteIsExact(s, body, chunks, sent);
    if s.pending == "" {
      assert sent + "" == sent;
      FramingIsBounded(chunks);
      FramedNext(body, chunks);
    }
  }

  lemma FramedNext(body: string, chunks: seq<string>)
    requires Concat(chunks) <= body
    ensures var data := body[|Concat(chunks)|..];
            && FrameAll(chunks + [data]) == FrameAll(chunks) + Frame(data)
            && Concat(chunks + [data]) == Concat(chunks) + data == body
  {
    var data := body[|Concat(chunks)|..];
    assert [data][1..] == [] && FrameAll([data]) == Frame(data) && Concat([data]) == data;
    FrameAllAppend(chunks, [data]);
    ConcatAppend(chunks, [data]);
  }

  lemma CountersAdvance(s: Sender, body: string, chunks: seq<string>, sent: string, n: nat)
    requires Accounted(s, body, chunks, sent) && s.SentByte() < |body|
    requires s.CanSend(body) && n <= |s.ToWrite(body)|
    ensures var s', chunks' := s.Send(body, n), Framed(s, body, chunks);
            && s'.sentByte == |sent| + n
            && s'.otherThanBody == |FrameAll(chunks')| - |Concat(chunks')|
  {
    var chunks' := Framed(s, body, chunks);
    FramedGrows(s, body, chunks, sent);
    FramingIsBounded(chunks');
    PlusIsSum(s.sentByte, n);
    if s.pending == "" {
      SentByteIsExact(s, body, chunks, sent);
      FramedNext(body, chunks);
      PlusIsSum(s.otherThanBody, |Print(|body| - |Concat(chunks)|, Hex)| + 4);
    } else {
      PlusIsSum(s.otherThanBody, 0);
    }
  }

  /** `Send` keeps the books, and frames no empty chunk, which would read as the last one. */
  lemma SendKeepsAccount(s: Sender, body: string, chunks: seq<string>, sent: string, n: nat)
    requires Accounted(s, body, chunks, sent) && s.SentByte() < |body|
    requires s.CanSend(body) && n <= |s.ToWrite(body)|
    ensures Accounted(s.Send(body, n), body, Framed(s, body, chunks), sent + s.ToWrite(body)[..n])
  {
    var chunk := s.ToWrite(body);
    FramedGrows(s, body, chunks, sent);
    CountersAdvance(s, body, chunks, sent, n);
    assert sent + chunk[..n] + chunk[n..] == sent + chunk;
  }

  /** New output of the script, appended to the body, disturbs nothing. */
  lemma GrowthKeepsAccount(s: Sender, body: string, more: string, chunks: seq<string>, sent: string)
    requires Accounted(s, body, chunks, sent) && 6 * |body + more| < SIZE_T
    ensures Accounted(s, body + more, chunks, sent)
  {
  }

  // ---------------------------------------------------------------------------------------------
  // CgiResponse: the header first, then the body as it grows, then the last chunk

  /** The fields of a `CgiResponse` for a reply with a document, the shared body, and the bytes on the wire. */
  datatype Response = Response(header: string, headerSent: nat, headerErr: bool, chunked: Sender,
                               body: string, readSize: int, wire: string) {
    predicate Valid() {
      headerSent <= |header| && chunked.Valid()
    }

    predicate InHeader() {
      headerSent < |header|
    }

    predicate AtLastChunk()
      requires Valid()
    {
      !InHeader() && chunked.SentByte() == |body| && readSize == 0
    }

    /** `State() == kDel` */
    predicate Finished() {
      readSize == 0 && (chunked.sentLast || headerErr || chunked.err)
    }

    /** `Do` comes to a `substr` that begins behind the end of the body; nothing catches what it throws. */
    predicate Throws()
      requires Valid()
    {
      !InHeader() && !AtLastChunk() && chunked.SentByte() < |body| && !chunked.CanSend(body)
    }

    /** What `Do` hands to `write`, if it writes. */
    function ToWrite(): Option<string>
      requires Valid() && !Throws()
    {
      if InHeader() then Some(header[headerSent..])
      else if AtLastChunk() then Some(chunked.lastChunk)
      else if chunked.SentByte() >= |body| then None
      else Some(chunked.ToWrite(body))
    }

    predicate CanWrite(n: int)
      requires Valid() && !Throws()
    {
      ToWrite().Some? ==> -1 <= n <= |ToWrite().value|
    }

    /** `Do`, if `write` returns `n`. */
    function Do(n: int): (r: Response)
      requires Valid() && !Throws() && CanWrite(n)
      ensures r.Valid()
    {
      if ToWrite().None? then this
      else
        var wire' := wire + (if n < 0 then "" else ToWrite().value[..n]);
        if InHeader() then
          if n <= 0 then this.(headerErr := true) else this.(headerSent := headerSent + n, wire := wire')
        else if AtLastChunk() then this.(chunked := chunked.SendLastChunk(n), wire := wire')
        else this.(chunked := chunked.Send(body, n), wire := wire')
    }

    /** The reader of the script's output stores `n`, the result of its read, and the body with `more` appended. */
    function Read(more: string, n: int): Response {
      this.(body := body + more, readSize := n)
    }
  }

  /** What can happen to a response: its event becomes ready, or the event of the reader does. */
  datatype Step = Write(n: int) | ReadMore(more: string, n: int)

  /** The reader is deleted once its read has returned 0, and an event is once it is finished. */
  predicate CanStep(r: Response, step: Step)
    requires r.Valid()
  {
    && !r.Finished()
    && match step
       case Write(n) => !r.Throws() && r.CanWrite(n)
       case ReadMore(more, n) => r.readSize != 0 && n >= -1 && (n <= 0 ==> more == "")
  }

  function Next(r: Response, step: Step): (r': Response)
    requires r.Valid() && CanStep(r, step)
    ensures r'.Valid()
  {
    match step
    case Write(n) => r.Do(n)
    case ReadMore(more, n) => r.Read(more, n)
  }

  /** `write` reports neither an error nor, while the header goes out, that it wrote nothing. */
  predicate Succeeds(r: Response, step: Step) {
    step.Write? ==> step.n >= 0 && (r.InHeader() ==> step.n > 0)
  }

  /** `run` leads from `r` to `r'`; writes may fail in it or not. */
  ghost predicate Runs(mayFail: bool, r: Response, run: seq<Step>, r': Response)
    requires r.Valid()
    decreases run
  {
    if run == [] then r == r'
    else CanStep(r, run[0]) && (mayFail || Succeeds(r, run[0])) && Runs(mayFail, Next(r, run[0]), run[1..], r')
  }

  function Initial(header: string, body: string, readSize: int): (r: Response)
    ensures r.Valid()
  {
    Response(header, 0, false, INITIAL_SENDER, body, readSize, "")
  }

  /** While the script's output is read, the response waits for more; when it ends, a failed write is the end. */
  lemma FailureFinishes(r: Response, n: int)
    requires r.Valid() && CanStep(r, Write(n)) && r.ToWrite().Some? && n == -1
    ensures r.Do(n).body == r.body && r.Do(n).wire == r.wire
    ensures r.readSize == 0 ==> forall step :: !CanStep(r.Do(n), step)
    ensures r.readSize != 0 ==> CanStep(r.Do(n), ReadMore("", 0))
  {
  }

  /** Header bytes, then frames of the body, then as much of the last chunk as has been written. */
  ghost predicate OnTheWire(r: Response, chunks: seq<string>, sent: string, last: nat) {
    && r.headerSent <= |r.header| && !r.headerErr && last <= |LAST_CHUNK|
    && Accounted(r.chunked, r.body, chunks, sent)
    && (r.InHeader() ==> sent == "" && chunks == [])
    && r.wire == r.header[..r.headerSent] + sent + LAST_CHUNK[..last]
    && r.chunked.lastChunk == LAST_CHUNK[last..]
    && if r.chunked.sentLast
       then r.readSize == 0 && r.chunked.pending == "" && Concat(chunks) == r.body && !r.InHeader()
       else last == 0
  }

  lemma HeaderWriteKeepsWire(r: Response, n: nat, chunks: seq<string>, sent: string)
    requires OnTheWire(r, chunks, sent, 0) && CanStep(r, Write(n)) && r.InHeader() && n > 0
    ensures OnTheWire(r.Do(n), chunks, sent, 0)
  {
    assert r.header[..r.headerSent] + r.header[r.headerSent..][..n] == r.header[..r.headerSent + n];
    assert LAST_CHUNK[..0] == "";
  }

  lemma LastWriteKeepsWire(r: Response, n: nat, chunks: seq<string>, sent: string)
    requires OnTheWire(r, chunks, sent, 0) && CanStep(r, Write(n)) && r.AtLastChunk() && !r.chunked.sentLast
    ensures OnTheWire(r.Do(n), chunks, sent, n)
  {
    SentByteIsExact(r.chunked, r.body, chunks, sent);
    assert LAST_CHUNK[..0] == "" && LAST_CHUNK[0..] == LAST_CHUNK;
  }

  lemma BodyWriteKeepsWire(r: Response, n: nat, chunks: seq<string>, sent: string) returns (sent': string)
    requires OnTheWire(r, chunks, sent, 0) && CanStep(r, Write(n)) && !r.InHeader() && !r.AtLastChunk()
    requires r.ToWrite().Some? && !r.chunked.sentLast
    ensures OnTheWire(r.Do(n), Framed(r.chunked, r.body, chunks), sent', 0)
  {
    sent' := sent + r.chunked.ToWrite(r.body)[..n];
    SendKeepsAccount(r.chunked, r.body, chunks, sent, n);
    assert LAST_CHUNK[..0] == "";
    Associative(r.header, sent, r.chunked.ToWrite(r.body)[..n]);
  }

  lemma WriteKeepsWire(r: Response, n: nat, chunks: seq<string>, sent: string, last: nat)
    returns (chunks': seq<string>, sent': string, last': nat)
    requires OnTheWire(r, chunks, sent, last) && CanStep(r, Write(n)) && Succeeds(r, Write(n))
    ensures OnTheWire(r.Do(n), chunks', sent', last')
  {
    chunks', sent', last' := chunks, sent, last;
    if r.ToWrite().None? {
    } else if r.InHeader() {
      HeaderWriteKeepsWire(r, n, chunks, sent);
    } else if r.AtLastChunk() {
      last' := n;
      LastWriteKeepsWire(r, n, chunks, sent);
    } else {
      chunks' := Framed(r.chunked, r.body, chunks);
      sent' := BodyWriteKeepsWire(r, n, chunks, sent);
    }
  }

  lemma {:induction false} BodyOnlyGrows(mayFail: bool, r: Response, run: seq<Step>, r': Response)
    requires r.Valid() && Runs(mayFail, r, run, r')
    ensures r.body <= r'.body && r.header == r'.header
    decreases run
  {
    if run != [] {
      BodyOnlyGrows(mayFail, Next(r, run[0]), run[1..], r');
    }
  }

  /** Every step of every run leaves on the wire the header, frames of the body, and part of the last chunk. */
  lemma {:induction false} RunKeepsWire(
    r: Response, run: seq<Step>, r': Response, chunks: seq<string>, sent: string, last: nat)
    returns (chunks': seq<string>, sent': string, last': nat)
    requires OnTheWire(r, chunks, sent, last) && Runs(false, r, run, r') && 6 * |r'.body| < SIZE_T
    ensures OnTheWire(r', chunks', sent', last')
    decreases run
  {
    if run == [] {
      chunks', sent', last' := chunks, sent, last;
    } else {
      var next := Next(r, run[0]);
      BodyOnlyGrows(false, next, run[1..], r');
      match run[0] {
        case Write(n) =>
          chunks', sent', last' := WriteKeepsWire(r, n, chunks, sent, last);
        case ReadMore(more, n) =>
          GrowthKeepsAccount(r.chunked, r.body, more, chunks, sent);
          chunks', sent', last' := chunks, sent, last;
      }
      chunks', sent', last' := RunKeepsWire(next, run[1..], r', chunks', sent', last');
    }
  }

  /**
   For every run without a failing write that ends by sending the last chunk, the bytes after the header
   decode in one call to exactly the final body, if and only if the last write took the whole last chunk.
   */
  lemma EmittedBytesDecode(header: string, body: string, readSize: int, run: seq<Step>, r: Response, max: nat)
    requires Runs(false, Initial(header, body, readSize), run, r) && r.chunked.sentLast
    requires 6 * |r.body| < SIZE_T && |r.body| <= max
    ensures header <= r.wire
    ensures var o := Decode(r.wire[|header|..], 0, "", max);
            && o.Returned? && o.decoded == r.body
            && (o.stat == DecodeComplete <==> r.chunked.lastChunk == "")
  {
    var r0 := Initial(header, body, readSize);
    BodyOnlyGrows(false, r0, run, r);
    assert Accounted(r0.chunked, body, [], "") && LAST_CHUNK[0..] == LAST_CHUNK;
    assert OnTheWire(r0, [], "", 0);
    var chunks, sent, last := RunKeepsWire(r0, run, r, [], "", 0);
    assert sent == FrameAll(chunks) && r.header[..|header|] == header;
    var buf := sent + LAST_CHUNK[..last];
    assert r.wire == header + buf && r.wire[|header|..] == buf;
    DecodeEmitted(chunks, last, max);
  }

  /**
   What a partial write leaves over of the last chunk is never sent: for every header and body, and every part
   of the last chunk that `write` may take, there is a run without a failing write that ends with an
   incomplete body on the wire, and nothing can follow.
   */
  lemma PartialLastWrite(header: string, body: string, last: nat, max: nat) returns (run: seq<Step>, r: Response)
    requires header != "" && 6 * |body| < SIZE_T && |body| <= max && last < |LAST_CHUNK|
    ensures Runs(false, Initial(header, body, 0), run, r) && r.Valid() && forall step :: !CanStep(r, step)
    ensures header <= r.wire && r.body == body
    ensures var o := Decode(r.wire[|header|..], 0, "", max);
            o.Returned? && o.decoded == body && o.stat != DecodeComplete
  {
    var r0 := Initial(header, body, 0);
    var steps, r2 := BodyIsSent(r0.Do(|header|));
    var r1 := r0.Do(|header|);
    r := r2.Do(last);
    run := [Write(|header|)] + steps + [Write(last)];
    assert Runs(false, r2, [Write(last)], r) by { assert [Write(last)][1..] == []; }
    RunsInTurn(r1, steps, r2, [Write(last)], r);
    RunsInTurn(r0, [Write(|header|)], r1, steps + [Write(last)], r);
    assert run == [Write(|header|)] + (steps + [Write(last)]);
    EmittedBytesDecode(header, body, 0, run, r, max);
  }

  lemma {:induction false} RunsInTurn(r: Response, a: seq<Step>, r': Response, b: seq<Step>, r'': Response)
    requires r.Valid() && r'.Valid() && Runs(false, r, a, r') && Runs(false, r', b, r'')
    ensures Runs(false, r, a + b, r'')
    decreases a
  {
    if a == [] {
      assert a + b == b;
    } else {
      assert (a + b)[1..] == a[1..] + b;
      RunsInTurn(Next(r, a[0]), a[1..], r', b, r'');
    }
  }

  /** With the whole body there and all of it taken by one write, the last chunk is next. */
  lemma BodyIsSent(r: Response) returns (run: seq<Step>, r': Response)
    requires r.Valid() && !r.InHeader() && r.chunked == INITIAL_SENDER && r.readSize == 0 && !r.headerErr
    requires 6 * |r.body| < SIZE_T
    ensures Runs(false, r, run, r') && r'.Valid() && r'.AtLastChunk()
    ensures r' == r.(chunked := r'.chunked, wire := r'.wire) && r'.chunked.lastChunk == LAST_CHUNK
    ensures !r'.chunked.sentLast && !r'.chunked.err
  {
    if r.body == "" {
      run, r' := [], r;
    } else {
      var n := |Frame(r.body)|;
      FrameSize(r.body);
      assert r.body[0..] == r.body;
      run, r' := [Write(n)], r.Do(n);
      PlusIsSum(0, n);
      PlusIsSum(0, |Print(|r.body|, Hex)| + 4);
      assert [Write(n)][1..] == [];
    }
  }

  // ---------------------------------------------------------------------------------------------
  // Runs in which writes may fail

  /**
   All that has been framed lies in the first `framed` bytes of the body, and what is framed next begins behind
   them. So the counters do not overflow, and their difference does not fall below zero.
   */
  predicate Bounded(s: Sender, body: string, framed: nat) {
    && framed <= |body| && 6 * |body| < SIZE_T && s.Valid()
    && s.sentByte + |s.pending| <= 6 * framed
    && s.otherThanBody + framed <= s.sentByte + |s.pending|
  }

  /** Then `substr` begins inside the body whenever `Send` is called. */
  lemma BoundedCanSend(s: Sender, body: string, framed: nat)
    requires Bounded(s, body, framed) && s.SentByte() < |body|
    ensures s.CanSend(body) && (s.pending == "" ==> framed <= s.sentByte - s.otherThanBody == s.SentByte())
  {
  }

  /** Also if the write fails, which leaves the size of the framing uncounted. */
  lemma SendKeepsBounds(s: Sender, body: string, framed: nat, n: int) returns (framed': nat)
    requires Bounded(s, body, framed) && s.SentByte() < |body| && s.CanSend(body) && -1 <= n <= |s.ToWrite(body)|
    ensures Bounded(s.Send(body, n), body, framed')
  {
    BoundedCanSend(s, body, framed);
    if s.pending != "" {
      framed' := framed;
      PendingKeepsBounds(s, body, framed, n);
    } else {
      framed' := |body|;
      FrameKeepsBounds(s, body, framed, n);
    }
  }

  lemma PendingKeepsBounds(s: Sender, body: string, framed: nat, n: int)
    requires Bounded(s, body, framed) && s.pending != "" && -1 <= n <= |s.pending|
    ensures Bounded(s.Send(body, n), body, framed)
  {
    if n >= 0 {
      PlusIsSum(s.sentByte, n);
      PlusIsSum(s.otherThanBody, 0);
    }
  }

  lemma FrameKeepsBounds(s: Sender, body: string, framed: nat, n: int)
    requires Bounded(s, body, framed) && s.pending == "" && s.SentByte() < |body| && s.CanSend(body)
    requires -1 <= n <= |s.ToWrite(body)|
    ensures Bounded(s.Send(body, n), body, |body|)
  {
    BoundedCanSend(s, body, framed);
    var data := body[s.SentByte()..];
    FrameSize(data);
    if n >= 0 {
      PlusIsSum(s.sentByte, n);
      PlusIsSum(s.otherThanBody, |Print(|data|, Hex)| + 4);
    }
  }

  lemma StepKeepsBounds(r: Response, step: Step, framed: nat) returns (framed': nat)
    requires r.Valid() && Bounded(r.chunked, r.body, framed) && CanStep(r, step)
    requires 6 * |Next(r, step).body| < SIZE_T
    ensures Bounded(Next(r, step).chunked, Next(r, step).body, framed')
  {
    framed' := framed;
    if step.Write? && r.ToWrite().Some? && !r.InHeader() && !r.AtLastChunk() {
      framed' := SendKeepsBounds(r.chunked, r.body, framed, step.n);
    }
  }

  lemma {:induction false} RunKeepsBounds(r: Response, run: seq<Step>, r': Response, framed: nat) returns (framed': nat)
    requires r.Valid() && Bounded(r.chunked, r.body, framed) && Runs(true, r, run, r') && 6 * |r'.body| < SIZE_T
    ensures r'.Valid() && Bounded(r'.chunked, r'.body, framed')
    decreases run
  {
    framed' := framed;
    if run != [] {
      var next := Next(r, run[0]);
      BodyOnlyGrows(true, next, run[1..], r');
      framed' := StepKeepsBounds(r, run[0], framed);
      framed' := RunKeepsBounds(next, run[1..], r', framed');
    }
  }

  /** Whatever writes fail and when, no call of `Do` throws. */
  lemma NeverThrows(header: string, body: string, readSize: int, run: seq<Step>, r: Response)
    requires Runs(true, Initial(header, body, readSize), run, r) && 6 * |r.body| < SIZE_T
    ensures r.Valid() && !r.Throws()
  {
    var r0 := Initial(header, body, readSize);
    BodyOnlyGrows(true, r0, run, r);
    var framed := RunKeepsBounds(r0, run, r, 0);
    if r.chunked.SentByte() < |r.body| {
      BoundedCanSend(r.chunked, r.body, framed);
    }
  }

  // ---------------------------------------------------------------------------------------------
  // The classes

  /** A socket: what has been written to it, and a `write` that may fail or stop early as it likes. */
  class Connection {
    var out: string

    constructor ()
      ensures out == ""
    {
      out := "";
    }

    method Write(s: string) returns (n: int)
      modifies this
      ensures -1 <= n <= |s|
      ensures out == old(out) + if n < 0 then "" else s[..n]
    {
      n :| -1 <= n <= |s|;
      if n >= 0 {
        out := out + s[..n];
      }
    }
  }

  class SendChunked {
    var sentByte: nat
    var sentLast: bool
    var lastChunk: string
    var sendChunk: string
    var err: bool
    var otherThanBody: nat

    ghost function State(): Sender
      reads this
    {
      Sender(sentByte, sentLast, lastChunk, sendChunk, err, otherThanBody)
    }

    constructor ()
      ensures State() == INITIAL_SENDER
    {
      sentByte, sentLast, lastChunk, sendChunk, err, otherThanBody := 0, false, LAST_CHUNK, "", false, 0;
    }

    method SentByte() returns (r: nat)
      requires State().Valid()
      ensures r == State().SentByte()
    {
      r := Minus(sentByte, otherThanBody);
      if r > sentByte {
        r := 0;
      }
    }

    /** Throws, without having changed anything, where `substr` does. */
    method Send(fd: Connection, str: string) returns (threw: bool, ghost n: int)
      requires State().Valid()
      modifies this, fd
      ensures threw <==> !old(State()).CanSend(str)
      ensures threw ==> State() == old(State()) && fd.out == old(fd.out)
      ensures !threw ==> -1 <= n <= |old(State()).ToWrite(str)| && State() == old(State()).Send(str, n)
      ensures !threw ==> fd.out == old(fd.out) + if n < 0 then "" else old(State()).ToWrite(str)[..n]
    {
      threw := false;
      n := 0;
      var written;
      if sendChunk != "" {
        written := fd.Write(sendChunk);
        n := written;
        if written == -1 {
          err := true;
          return;
        }
        sendChunk := sendChunk[written..];
        sentByte := Plus(sentByte, written);
      } else {
        if Minus(sentByte, otherThanBody) > |str| { return true, 0; }
        var sendStr := str[Minus(sentByte, otherThanBody)..];
        var size := Print(|sendStr|, Hex);
        sendChunk := size + NL + sendStr + NL;
        written := fd.Write(sendChunk);
        n := written;
        if written == -1 {
          err := true;
          return;
        }
        sendChunk := sendChunk[written..];
        sentByte := Plus(sentByte, written);
        otherThanBody := Plus(otherThanBody, |size| + 4);
      }
    }

    method SendLastChunk(fd: Connection) returns (ghost n: int)
      modifies this, fd
      ensures -1 <= n <= |old(lastChunk)|
      ensures State() == old(State()).SendLastChunk(n)
      ensures fd.out == old(fd.out) + if n < 0 then "" else old(lastChunk)[..n]
    {
      var written := fd.Write(lastChunk);
      n := written;
      if written == -1 {
        err := true;
      } else {
        lastChunk := lastChunk[written..];
      }
      sentLast := true;
    }
  }

  class CgiResponse {
    const header: string
    const chunked: SendChunked
    const fd: Connection
    var headerSent: nat
    var headerErr: bool
    var responseBody: string
    var readSize: int

    ghost function State(): Response
      reads this, chunked, fd
    {
      Response(header, headerSent, headerErr, chunked.State(), responseBody, readSize, fd.out)
    }

    constructor (header: string, responseBody: string, readSize: int)
      ensures State() == Initial(header, responseBody, readSize)
      ensures fresh(chunked) && fresh(fd)
    {
      this.header, this.responseBody, this.readSize := header, responseBody, readSize;
      headerSent, headerErr := 0, false;
      chunked := new SendChunked();
      fd := new Connection();
    }

    method Do() returns (threw: bool, ghost n: int)
      requires State().Valid()
      modifies this`headerSent, this`headerErr, chunked, fd
      ensures State().Valid() && threw == old(State()).Throws()
      ensures threw ==> State() == old(State())
      ensures !threw ==> old(State()).CanWrite(n) && State() == old(State()).Do(n)
    {
      threw := false;
      if headerSent < |header| {
        var bytes := fd.Write(header[headerSent..]);
        n := bytes;
        if bytes <= 0 {
          headerErr := true;
          assert fd.out == old(fd.out);
        } else {
          headerSent := headerSent + bytes;
        }
        return;
      }
      var sent := chunked.SentByte();
      if sent == |responseBody| && readSize == 0 {
        n := chunked.SendLastChunk(fd);
      } else if sent >= |responseBody| {
        n := 0;
      } else {
        threw, n := chunked.Send(fd, responseBody);
      }
    }
  }
}
