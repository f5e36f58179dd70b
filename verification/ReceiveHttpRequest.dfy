/** The object that reads requests: its fields are updated read by read. */
module RequestReceiving {
  import opened Text
  import opened Configuration
  import opened HttpRequests
  import Paths
  import ChunkedDecoding

  /** What `read` gives: an error, the end of the input, or some bytes. */
  datatype Read = ReadError | Closed | Bytes(piece: string)

  datatype Verdict = NoRequest | Verdict(outcome: Outcome)

  // ---------------------------------------------------------------------------------------------
  // The loops over lines and headers

  method FindLastOf(s: string, c: char) returns (r: Option<nat>)
    ensures r == FindLast(s, c)
  {
    var i := |s|;
    while i > 0
      invariant 0 <= i <= |s|
      invariant FindLast(s[..i], c) == FindLast(s, c)
    {
      assert s[..i][..i - 1] == s[..i - 1];
      if s[i - 1] == c { return Some(i - 1); }
      i := i - 1;
    }
    return None;
  }

  method InputHttpRequestLine(line: string) returns (r: Result<Request>)
    ensures r == ParseRequestLine(line)
  {
    var v := Paths.SplitWithMultipleSpecifier(line, " ");
    if |v| != 3 { return Refused(BAD_REQUEST); }
    var m :- ConvertMethod(v[0]);
    var path, query := v[1], "";
    var questionPos := FindLastOf(v[1], '?');
    var lastSlashPos := FindLastOf(v[1], '/');
    // a position that is not found is the largest of all
    if questionPos.Some? && lastSlashPos.Some? && questionPos.value > lastSlashPos.value {
      path, query := v[1][..questionPos.value], v[1][questionPos.value + 1..];
    }
    if !IsVersionFormat(v[2]) { return Refused(BAD_REQUEST); }
    if v[2] != "HTTP/1.1" { return Refused(VERSION_NOT_SUPPORTED); }
    return Ok(Request(m, path, query, v[2], [], ""));
  }

  method SplitRequestHeaderLine(line: string) returns (r: Result<(string, string)>)
    ensures r == ParseHeaderLine(line)
  {
    var keyPos := Colon(line);
    if keyPos.None? { return Refused(BAD_REQUEST); }
    var valPos := keyPos.value;
    while valPos + 1 < |line| && IsSpace(line[valPos + 1])
      invariant keyPos.value <= valPos < |line|
      invariant SkipSpace(line[valPos + 1..]) == SkipSpace(line[keyPos.value + 1..])
    {
      assert line[valPos + 1..][1..] == line[valPos + 2..];
      valPos := valPos + 1;
    }
    var key, value := line[..keyPos.value], line[valPos + 1..];
    assert SkipSpace(value) == value;
    while value != "" && IsSpace(value[|value| - 1])
      invariant TrimRight(value) == Trim(line[keyPos.value + 1..])
      decreases |value|
    {
      value := value[..|value| - 1];
    }
    key := Lower(key);
    if key == "" || value == "" { return Refused(BAD_REQUEST); }
    return Ok((key, value));
  }

  method CountHeaderField(headers: Header, key: string) returns (count: nat)
    ensures count == Count(headers, key)
  {
    count := 0;
    for i := 0 to |headers|
      invariant count == Count(headers[..i], key)
    {
      assert headers[..i + 1][..i] == headers[..i];
      if headers[i].0 == key { count := count + 1; }
    }
    assert headers[..|headers|] == headers;
  }

  method CountTransferEncoding(headers: Header) returns (count: nat)
    ensures count == CountChunked(headers)
  {
    count := 0;
    for i := 0 to |headers|
      invariant count == CountChunked(headers[..i])
    {
      assert headers[..i + 1][..i] == headers[..i];
      if headers[i].0 == "transfer-encoding" && headers[i].1 == "chunked" { count := count + 1; }
    }
    assert headers[..|headers|] == headers;
  }

  method GetValueByKey(headers: Header, key: string) returns (value: Option<string>)
    ensures value == ValueOf(headers, key)
  {
    for i := 0 to |headers|
      invariant ValueOf(headers[i..], key) == ValueOf(headers, key)
    {
      assert headers[i..][1..] == headers[i + 1..];
      if headers[i].0 == key { return Some(headers[i].1); }
    }
    return None;
  }

  method SelectServerContext(contexts: seq<ServerContext>, headers: Header) returns (r: Result<ServerContext>)
    ensures r == SelectedServer(contexts, headers)
  {
    if |contexts| > 1 {
      var host := GetValueByKey(headers, "host");
      if host.None? { return Ok(contexts[0]); }
      var conn := ParseHostHeader(host.value);
      for i := 0 to |contexts|
        invariant FirstServing(contexts[i..], conn) == FirstServing(contexts, conn)
      {
        assert contexts[i..][1..] == contexts[i + 1..];
        if contexts[i].serverName == conn.0 && (conn.1 == "" || contexts[i].listen.1 == conn.1) {
          return Ok(contexts[i]);
        }
      }
    } else if contexts == [] {
      return Refused(BAD_REQUEST);
    }
    return Ok(contexts[0]);
  }

  method ParseHostHeader(host: string) returns (conn: (string, string))
    ensures conn == HostAndPort(host)
  {
    var v := Paths.SplitWithMultipleSpecifier(host, ":");
    conn := ("", "");
    if |v| == 1 {
      conn := (v[0], "");
    } else if |v| == 2 {
      conn := (v[0], v[1]);
    }
  }

  class ReceiveHttpRequest {
    var phase: Phase
    var buf: string
    var pr: Request
    var isChunked: bool
    var contentLengthValue: nat
    var sc: ServerContext
    const cb: ChunkedDecoding.ChunkedBody

    constructor ()
      ensures Valid() && Current() == INITIAL && fresh(cb)
    {
      phase, buf, pr, isChunked, contentLengthValue, sc := WaitRequest, "", NO_REQUEST, false, 0, NO_SERVER;
      cb := new ChunkedDecoding.ChunkedBody();
    }

    /** As long as there is no verdict, the decoder has not been used. */
    ghost predicate Valid()
      reads this, cb
    {
      && (phase != WaitBody ==> !isChunked && contentLengthValue == 0)
      && (phase == WaitBody && isChunked ==> cb.maxBodySize == MaxBody(sc))
      && cb.stat == ChunkedDecoding.WaitSize && cb.buf == "" && cb.strHead == 0 && cb.decodedBody == ""
    }

    ghost function Current(): State
      reads this
    {
      State(phase, buf, pr, if isChunked then Chunked else Length(contentLengthValue), sc)
    }

    /** What a read makes of the state. */
    ghost predicate HasCome(progress: Progress, outcome: Outcome)
      reads this, cb
    {
      match progress
      case Wait(st) => outcome == Waiting && Current() == st && Valid()
      case Done(o) => outcome == o
    }

    method ReadHttpRequest(read: Read, contexts: seq<ServerContext>) returns (r: Verdict)
      requires Valid()
      requires read.Bytes? ==> !Hangs(Feed(contexts, Current(), read.piece))
      modifies this, cb
      ensures read.ReadError? ==> r == Verdict(Failed(INTERNAL_SERVER_ERROR))
      ensures read.Closed? ==> r == NoRequest && Current() == old(Current())
      ensures read.Bytes? ==> r.Verdict? && HasCome(Feed(contexts, old(Current()), read.piece), r.outcome)
      ensures r.Verdict? && r.outcome.ChunkedRead? && r.outcome.decode.Returned? ==>
        pr == r.outcome.request.(body := r.outcome.request.body + r.outcome.decode.decoded)
    {
      if read.ReadError? { return Verdict(Failed(INTERNAL_SERVER_ERROR)); }
      if read.Closed? { return NoRequest; }
      buf := buf + UntilNul(read.piece);
      ghost var goal := Advance(contexts, Current());
      if phase == WaitRequest {
        var failure := ReadRequestLine();
        if failure.Some? { return Verdict(failure.value); }
      }
      if phase == WaitHeader {
        var failure := ReadHeaders(contexts);
        if failure.Some? { return Verdict(failure.value); }
      }
      var outcome := ReadBody();
      return Verdict(outcome);
    }

    /** The request line; a result means that the call ends with it. */
    method ReadRequestLine() returns (r: Option<Outcome>)
      requires Valid() && phase == WaitRequest
      modifies this`buf, this`pr, this`phase
      ensures r.Some? ==> !r.value.ChunkedRead?
      ensures r.Some? ==> forall contexts :: HasCome(AdvanceLine(contexts, old(Current())), r.value)
      ensures r.None? ==> Valid() && phase == WaitHeader
      ensures r.None? ==>
        forall contexts :: AdvanceLine(contexts, old(Current())) == AdvanceHeaders(contexts, Current())
    {
      var pos := FindNL(buf, 0);
      if pos.None? { return Some(Waiting); }
      var line := TrimByCRLF(pos.value);
      var request := InputHttpRequestLine(line);
      if request.Refused? { return Some(Failed(request.code)); }
      pr, phase := request.value, WaitHeader;
      return None;
    }

    method TrimByCRLF(pos: nat) returns (trim: string)
      requires pos + 2 <= |buf|
      modifies this`buf
      ensures trim == old(buf)[..pos] && buf == old(buf)[pos + 2..]
    {
      trim := buf[..pos];
      buf := buf[pos + 2..];
    }

    /** The header lines and the empty line behind them; a result means that the call ends with it. */
    method ReadHeaders(contexts: seq<ServerContext>) returns (r: Option<Outcome>)
      requires Valid() && phase == WaitHeader
      modifies this, cb
      ensures r.Some? ==> !r.value.ChunkedRead? && HasCome(AdvanceHeaders(contexts, old(Current())), r.value)
      ensures r.None? ==>
        Valid() && phase == WaitBody && AdvanceHeaders(contexts, old(Current())) == AdvanceBody(Current())
    {
      ghost var goal := AdvanceHeaders(contexts, Current());
      var more := true;
      r := None;
      while more
        invariant more ==> Valid() && phase == WaitHeader && AdvanceHeaders(contexts, Current()) == goal
        invariant !more && r.Some? ==> !r.value.ChunkedRead? && HasCome(goal, r.value)
        invariant !more && r.None? ==> Valid() && phase == WaitBody && goal == AdvanceBody(Current())
        decreases more, |buf|
      {
        more, r := ReadHeader(contexts);
      }
    }

    /** The body of the loop: one line. */
    method ReadHeader(contexts: seq<ServerContext>) returns (more: bool, r: Option<Outcome>)
      requires Valid() && phase == WaitHeader
      modifies this, cb
      ensures more ==> Valid() && phase == WaitHeader && |buf| < |old(buf)|
      ensures more ==> AdvanceHeaders(contexts, Current()) == AdvanceHeaders(contexts, old(Current()))
      ensures !more && r.Some? ==> !r.value.ChunkedRead? && HasCome(AdvanceHeaders(contexts, old(Current())), r.value)
      ensures !more && r.None? ==>
        Valid() && phase == WaitBody && AdvanceHeaders(contexts, old(Current())) == AdvanceBody(Current())
    {
      var pos := FindNL(buf, 0);
      if pos.None? { return false, Some(Waiting); }
      var line := TrimByCRLF(pos.value);
      if line == "" {
        r := EndOfHeaders(contexts);
        return false, r;
      }
      var p := SplitRequestHeaderLine(line);
      if p.Refused? { return false, Some(Failed(p.code)); }
      pr := pr.(headers := pr.headers + [p.value]);
      return true, None;
    }

    method EndOfHeaders(contexts: seq<ServerContext>) returns (r: Option<Outcome>)
      requires Valid() && phase == WaitHeader
      modifies this`isChunked, this`contentLengthValue, this`sc, this`phase, cb`maxBodySize
      ensures r.Some? ==> r.value.Failed? && EndHeaders(contexts, pr, buf) == Done(r.value)
      ensures r.None? ==> Valid() && phase == WaitBody && EndHeaders(contexts, pr, buf) == AdvanceBody(Current())
    {
      var valid := IsValidHeader();
      if valid.Refused? { return Some(Failed(valid.code)); }
      var selected := SelectServerContext(contexts, pr.headers);
      if selected.Refused? { return Some(Failed(selected.code)); }
      sc := selected.value;
      if !isChunked {
        if contentLengthValue > sc.clientBodySize.1 { return Some(Failed(ENTITY_TOO_LARGE)); }
      }
      cb.SetMaxSize(MaxBody(sc));
      phase := WaitBody;
      return None;
    }

    method IsValidHeader() returns (r: Result<()>)
      requires !isChunked && contentLengthValue == 0
      modifies this`isChunked, this`contentLengthValue
      ensures match HeaderFraming(pr.verb, pr.headers)
              case Refused(code) => r == Refused(code)
              case Ok(framing) =>
                r.Ok? && framing == if isChunked then Chunked else Length(contentLengthValue)
    {
      var numOfTransferEncoding := CountTransferEncoding(pr.headers);
      var numOfContentLength := CountHeaderField(pr.headers, "content-length");
      if IsBodyRequired(pr.verb) {
        if numOfTransferEncoding == 1 && numOfContentLength == 0 {
          isChunked := true;
        } else if numOfTransferEncoding == 0 && numOfContentLength == 1 {
          isChunked := false;
          var str := GetValueByKey(pr.headers, "content-length");
          if str.None? { return Refused(BAD_REQUEST); }
          var l := Number(str.value);
          if l < 0 { return Refused(BAD_REQUEST); }
          contentLengthValue := l;
        } else {
          return Refused(BAD_REQUEST);
        }
      }
      var hosts := CountHeaderField(pr.headers, "host");
      if hosts != 1 { return Refused(BAD_REQUEST); }
      return Ok(());
    }

    /** The last part of a call; a chunked body is given to the decoder. */
    method ReadBody() returns (outcome: Outcome)
      requires Valid() && phase == WaitBody && !Hangs(AdvanceBody(Current()))
      modifies this`pr, this`buf, cb
      ensures HasCome(AdvanceBody(old(Current())), outcome)
      ensures outcome.ChunkedRead? && outcome.decode.Returned? ==>
        pr == outcome.request.(body := outcome.request.body + outcome.decode.decoded)
    {
      if IsBodyRequired(pr.verb) {
        if isChunked {
          outcome := ReadChunkedBody();
          return;
        }
        if |buf| < contentLengthValue { return Waiting; }
        pr := pr.(body := buf[..contentLengthValue]);
        buf := "";
      }
      return Complete(pr, sc);
    }

    method ReadChunkedBody() returns (outcome: Outcome)
      requires Valid() && phase == WaitBody && isChunked
      requires ChunkedDecoding.Decode(buf, 0, "", MaxBody(sc)) != ChunkedDecoding.Forever
      modifies this`pr, this`buf, cb
      ensures outcome == ChunkedRead(old(pr), sc, old(ChunkedDecoding.Decode(buf, 0, "", MaxBody(sc))))
      ensures outcome.decode.Returned? ==>
        pr == outcome.request.(body := outcome.request.body + outcome.decode.decoded)
    {
      var request := pr;
      assert "" + buf == buf;
      var decode := cb.DecodeChunkedBody(buf);
      buf := "";
      if decode.Returned? {
        pr := pr.(body := pr.body + cb.decodedBody);
      }
      return ChunkedRead(request, sc, decode);
    }
  }
}
