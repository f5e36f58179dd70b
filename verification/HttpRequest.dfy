/** The incremental reader of HTTP requests. */
module HttpRequests {
  import opened Text
  import opened Configuration
  import Numbers
  import Paths
  import ChunkedDecoding

  datatype Method = Error | Delete | Get | Post

  type Header = seq<(string, string)>

  datatype Request = Request(
    verb: Method,
    path: string,
    query: string,
    version: string,
    headers: Header,
    body: string)

  const NO_REQUEST := Request(Error, "", "", "", [], "")

  /** What a part of the parser comes to: a value, or an error response with its status code. */
  datatype Result<+T> = Ok(value: T) | Refused(code: int) {
    predicate IsFailure() { Refused? }
    function PropagateFailure<U>(): Result<U>
      requires IsFailure()
    {
      Refused(code)
    }
    function Extract(): T
      requires !IsFailure()
    {
      value
    }
  }

  const BAD_REQUEST := 400
  const ENTITY_TOO_LARGE := 413
  const INTERNAL_SERVER_ERROR := 500
  const VERSION_NOT_SUPPORTED := 505

  // ---------------------------------------------------------------------------------------------
  // The request line

  function ConvertMethod(s: string): Result<Method> {
    if s == "DELETE" then Ok(Delete)
    else if s == "GET" then Ok(Get)
    else if s == "POST" then Ok(Post)
    else Refused(BAD_REQUEST)
  }

  predicate IsVersionFormat(v: string) {
    && "HTTP/" <= v
    && (|v| == 6 || |v| == 8) && IsDigit(v[5])
    && (|v| == 8 ==> v[6] == '.' && IsDigit(v[7]))
  }

  /** `s.find_last_of(c)` */
  function FindLast(s: string, c: char): (r: Option<nat>)
    ensures r.Some? ==> r.value < |s| && s[r.value] == c && forall i | r.value < i < |s| :: s[i] != c
    ensures r.None? ==> c !in s
  {
    if s == "" then None
    else if s[|s| - 1] == c then Some(|s| - 1)
    else FindLast(s[..|s| - 1], c)
  }

  /** The path and the query: they part at the last question mark, if it is behind the last slash and there is one. */
  function SplitTarget(target: string): (string, string) {
    var question, slash := FindLast(target, '?'), FindLast(target, '/');
    if question.Some? && slash.Some? && question.value > slash.value
    then (target[..question.value], target[question.value + 1..])
    else (target, "")
  }

  function ParseRequestLine(line: string): Result<Request> {
    var v := Paths.Split(line, " ");
    if |v| != 3 then Refused(BAD_REQUEST)
    else
      var m :- ConvertMethod(v[0]);
      if !IsVersionFormat(v[2]) then Refused(BAD_REQUEST)
      else if v[2] != "HTTP/1.1" then Refused(VERSION_NOT_SUPPORTED)
      else
        var (path, query) := SplitTarget(v[1]);
        Ok(Request(m, path, query, v[2], [], ""))
  }

  ghost predicate IsVersion(v: string) {
    exists d | IsDigit(d) :: v == "HTTP/" + [d] || exists e | IsDigit(e) :: v == "HTTP/" + [d, '.', e]
  }

  lemma VersionFormatMeans(v: string)
    ensures IsVersionFormat(v) <==> IsVersion(v)
  {
    if IsVersionFormat(v) {
      assert v == "HTTP/" + v[5..];
      assert if |v| == 6 then v[5..] == [v[5]] else v[5..] == [v[5], '.', v[7]];
    }
  }

  /**
   Which request lines are accepted, which have a version of another form than 1.1, and which are bad; `v` is what
   stands between spaces.
   */
  lemma RequestLineMeans(line: string, v: seq<string>)
    requires v == Paths.Split(line, " ")
    ensures var parsed := ParseRequestLine(line);
            var known := |v| == 3 && v[0] in {"GET", "POST", "DELETE"};
            && (parsed.Ok? <==> known && v[2] == "HTTP/1.1")
            && (parsed == Refused(505) <==> known && v[2] != "HTTP/1.1" && IsVersion(v[2]))
            && (parsed.Refused? ==> parsed.code == 505 || parsed.code == 400)
    ensures ParseRequestLine(line).Ok? ==>
      var r := ParseRequestLine(line).value;
      && r == Request(r.verb, SplitTarget(v[1]).0, SplitTarget(v[1]).1, "HTTP/1.1", [], "")
      && v[0] == (match r.verb case Get => "GET" case Post => "POST" case Delete => "DELETE" case Error => "")
  {
    if |v| == 3 {
      VersionFormatMeans(v[2]);
      assert v[2] == "HTTP/1.1" ==> "HTTP/" <= v[2];
    }
  }

  lemma FindLastAt(s: string, c: char, p: nat)
    requires p < |s| && s[p] == c && forall i | p < i < |s| :: s[i] != c
    ensures FindLast(s, c) == Some(p)
  {
  }

  /** The last question mark starts the query if there is a slash in front of it and none behind it. */
  lemma TargetMeans(front: string, tail: string)
    requires '?' !in tail
    ensures SplitTarget(tail) == (tail, "")
    ensures SplitTarget(front + "?" + tail) ==
            if '/' in front && '/' !in tail then (front, tail) else (front + "?" + tail, "")
  {
    var s := front + "?" + tail;
    assert FindLast(tail, '?') == None;
    FindLastAt(s, '?', |front|);
    assert s[..|front|] == front && s[|front| + 1..] == tail;
    forall i | |front| < i < |s| ensures s[i] == tail[i - |front| - 1] {}
    if '/' in tail {
      var k :| 0 <= k < |tail| && tail[k] == '/';
      assert s[|front| + 1 + k] == '/';
    } else if '/' in front {
      var k :| 0 <= k < |front| && front[k] == '/';
      assert s[k] == '/';
    }
  }

  // ---------------------------------------------------------------------------------------------
  // Header lines

  function Lower(s: string): string {
    seq(|s|, i requires 0 <= i < |s| => ToLower(s[i]))
  }

  /** The name in lower case, and the value without the space around it. */
  function ParseHeaderLine(line: string): Result<(string, string)> {
    match Colon(line)
    case None => Refused(BAD_REQUEST)
    case Some(p) =>
      var key, value := Lower(line[..p]), Trim(line[p + 1..]);
      if key == "" || value == "" then Refused(BAD_REQUEST) else Ok((key, value))
  }

  /** `low` is `s` with its upper-case letters replaced by the lower-case ones. */
  lemma LowerMeans(s: string, i: nat, k: nat)
    requires i < |s| && k < 26
    ensures |Lower(s)| == |s|
    ensures s[i] == UPPER_CASE[k] ==> Lower(s)[i] == LOWER_CASE[k]
    ensures s[i] !in UPPER_CASE ==> Lower(s)[i] == s[i]
  {
    LettersConvert(k);
    CharactersMean(s[i]);
  }

  /** A name, a colon and a value, with white space around the value only. A line without a colon is a bad one. */
  lemma HeaderLineMeans(name: string, before: string, value: string, after: string)
    requires ':' !in name && (value == "" || IsTrimmed(value))
    requires (forall i | 0 <= i < |before| :: IsSpace(before[i])) && forall i | 0 <= i < |after| :: IsSpace(after[i])
    ensures ParseHeaderLine(name) == Refused(400)
    ensures ParseHeaderLine(name + ":" + (before + value + after)) ==
            if name == "" || value == "" then Refused(400) else Ok((Lower(name), value))
  {
    ColonBehind(name, before + value + after);
    TrimOff(before, value, after);
    assert Colon(name) == None;
  }

  // ---------------------------------------------------------------------------------------------
  // What the headers say together

  function Count(headers: Header, key: string): nat {
    if headers == [] then 0
    else Count(headers[..|headers| - 1], key) + if headers[|headers| - 1].0 == key then 1 else 0
  }

  function CountChunked(headers: Header): nat {
    if headers == [] then 0
    else
      CountChunked(headers[..|headers| - 1])
      + if headers[|headers| - 1] == ("transfer-encoding", "chunked") then 1 else 0
  }

  /** The value of the first header with this name. */
  function ValueOf(headers: Header, key: string): Option<string> {
    if headers == [] then None
    else if headers[0].0 == key then Some(headers[0].1)
    else ValueOf(headers[1..], key)
  }

  predicate IsBodyRequired(m: Method) {
    !(m == Get || m == Delete)
  }

  datatype Framing = Length(n: nat) | Chunked

  /** How the body is delimited; section 6.3 of RFC 9112. */
  function BodyFraming(headers: Header): Result<Framing> {
    var chunked, lengths := CountChunked(headers), Count(headers, "content-length");
    if chunked == 1 && lengths == 0 then Ok(Chunked)
    else if chunked == 0 && lengths == 1 then
      match ValueOf(headers, "content-length")
      case None => Refused(BAD_REQUEST)
      case Some(s) => if Number(s) >= 0 then Ok(Length(Number(s))) else Refused(BAD_REQUEST)
    else Refused(BAD_REQUEST)
  }

  function HeaderFraming(m: Method, headers: Header): Result<Framing> {
    var framing :- if IsBodyRequired(m) then BodyFraming(headers) else Ok(Length(0));
    if Count(headers, "host") != 1 then Refused(BAD_REQUEST) else Ok(framing)
  }

  function HostAndPort(host: string): (string, string) {
    var v := Paths.Split(host, ":");
    if |v| == 1 then (v[0], "") else if |v| == 2 then (v[0], v[1]) else ("", "")
  }

  lemma OnePart(part: string)
    requires Paths.NoneOf(part, ":")
    ensures Paths.Split(part, ":") == if part == "" then [] else [part]
  {
    Paths.SplitStateOfPiece(part, ":");
  }

  lemma MoreParts(part: string, parts: string)
    requires Paths.NoneOf(part, ":")
    ensures Paths.Split(part + ":" + parts, ":") == (if part == "" then [] else [part]) + Paths.Split(parts, ":")
  {
    OnePart(part);
    Paths.SplitAtSeparator(part, ':', parts, ":");
    assert part + [':'] + parts == part + ":" + parts;
  }

  lemma OneOrTwoParts(host: string, port: string)
    requires Paths.NoneOf(host, ":") && Paths.NoneOf(port, ":")
    ensures HostAndPort(host) == (host, "")
    ensures HostAndPort(host + ":" + port) == if host == "" then (port, "") else (host, port)
  {
    OnePart(host);
    OnePart(port);
    MoreParts(host, port);
  }

  lemma ThreeParts(host: string, port: string, third: string)
    requires Paths.NoneOf(host, ":") && Paths.NoneOf(port, ":") && Paths.NoneOf(third, ":")
    requires host != "" && port != "" && third != ""
    ensures HostAndPort(host + ":" + (port + ":" + third)) == ("", "")
  {
    OnePart(third);
    MoreParts(port, third);
    MoreParts(host, port + ":" + third);
  }

  /**
   Of "host" the host and no port, of "host:port" the host and the port, and of three parts neither. A
   colon with nothing in front of it does not count, so the port in ":port" is taken for the host.
   */
  lemma HostHeaderMeans(host: string, port: string, third: string)
    requires Paths.NoneOf(host, ":") && Paths.NoneOf(port, ":") && Paths.NoneOf(third, ":")
    ensures HostAndPort(host) == (host, "")
    ensures HostAndPort(host + ":" + port) == if host == "" then (port, "") else (host, port)
    ensures host != "" && port != "" && third != "" ==> HostAndPort(host + ":" + (port + ":" + third)) == ("", "")
  {
    OneOrTwoParts(host, port);
    if host != "" && port != "" && third != "" {
      ThreeParts(host, port, third);
    }
  }

  predicate Serves(sc: ServerContext, host: (string, string)) {
    sc.serverName == host.0 && (host.1 == "" || sc.listen.1 == host.1)
  }

  function FirstServing(contexts: seq<ServerContext>, host: (string, string)): Option<ServerContext> {
    if contexts == [] then None
    else if Serves(contexts[0], host) then Some(contexts[0])
    else FirstServing(contexts[1..], host)
  }

  /** The first server that serves the host that was asked for, or simply the first one. */
  function SelectedServer(contexts: seq<ServerContext>, headers: Header): Result<ServerContext> {
    if contexts == [] then Refused(BAD_REQUEST)
    else if |contexts| == 1 then Ok(contexts[0])
    else
      match ValueOf(headers, "host")
      case None => Ok(contexts[0])
      case Some(host) =>
        match FirstServing(contexts, HostAndPort(host))
        case None => Ok(contexts[0])
        case Some(sc) => Ok(sc)
  }

  /** `key` is the name of exactly one header, the `i`-th. */
  ghost predicate OnlyAt(headers: Header, key: string, i: int) {
    0 <= i < |headers| && headers[i].0 == key && forall j | 0 <= j < |headers| && j != i :: headers[j].0 != key
  }

  lemma {:induction false} CountIsZero(headers: Header, key: string)
    ensures Count(headers, key) == 0 <==> forall j | 0 <= j < |headers| :: headers[j].0 != key
  {
    if headers != [] {
      CountIsZero(headers[..|headers| - 1], key);
      assert forall j | 0 <= j < |headers| - 1 :: headers[..|headers| - 1][j] == headers[j];
    }
  }

  lemma {:induction false} CountIsOne(headers: Header, key: string)
    ensures Count(headers, key) == 1 <==> exists i :: OnlyAt(headers, key, i)
  {
    if headers != [] {
      var n := |headers| - 1;
      var before := headers[..n];
      assert forall j | 0 <= j < n :: before[j] == headers[j];
      CountIsOne(before, key);
      CountIsZero(before, key);
      if headers[n].0 == key {
        assert Count(before, key) == 0 ==> OnlyAt(headers, key, n);
      } else {
        forall i | OnlyAt(before, key, i) ensures OnlyAt(headers, key, i) {}
        forall i | OnlyAt(headers, key, i) ensures OnlyAt(before, key, i) {}
      }
    }
  }

  lemma {:induction false} ValueOfOnly(headers: Header, key: string, i: int)
    requires OnlyAt(headers, key, i)
    ensures ValueOf(headers, key) == Some(headers[i].1)
    decreases i
  {
    if i > 0 {
      assert headers[0].0 != key;
      assert forall j | 0 <= j < |headers| - 1 :: headers[1..][j] == headers[j + 1];
      ValueOfOnly(headers[1..], key, i - 1);
    }
  }

  lemma {:induction false} NoChunkedCount(headers: Header)
    ensures CountChunked(headers) == 0 <==> ("transfer-encoding", "chunked") !in headers
  {
    if headers != [] {
      NoChunkedCount(headers[..|headers| - 1]);
      assert headers == headers[..|headers| - 1] + [headers[|headers| - 1]];
    }
  }

  /** A GET or DELETE request has no body, whatever its headers say, and is refused exactly if it has not one host. */
  lemma NoBodyIff(m: Method, headers: Header)
    requires m == Get || m == Delete
    ensures HeaderFraming(m, headers) == Ok(Length(0)) <==> exists i :: OnlyAt(headers, "host", i)
    ensures HeaderFraming(m, headers) != Ok(Length(0)) ==> HeaderFraming(m, headers) == Refused(400)
  {
    CountIsOne(headers, "host");
  }

  /**
   The body of a POST request has the length `n` exactly if there is one content length, which says so, no chunked
   transfer coding, and one host.
   */
  lemma LengthIff(headers: Header, n: nat)
    ensures HeaderFraming(Post, headers) == Ok(Length(n)) <==>
      && ("transfer-encoding", "chunked") !in headers
      && (exists i :: OnlyAt(headers, "content-length", i) && Number(headers[i].1) == n)
      && (exists i :: OnlyAt(headers, "host", i))
  {
    NoChunkedCount(headers);
    CountIsOne(headers, "content-length");
    CountIsOne(headers, "host");
    forall i | OnlyAt(headers, "content-length", i)
      ensures ValueOf(headers, "content-length") == Some(headers[i].1)
    {
      ValueOfOnly(headers, "content-length", i);
    }
  }

  lemma {:induction false} OneChunkedCount(headers: Header)
    ensures CountChunked(headers) == 1 <==> exists i :: OnlyChunkedAt(headers, i)
  {
    if headers != [] {
      var n := |headers| - 1;
      var before := headers[..n];
      OneChunkedCount(before);
      NoChunkedCount(before);
      assert forall j | 0 <= j < n :: before[j] == headers[j];
      if headers[n] == ("transfer-encoding", "chunked") {
        assert CountChunked(before) == 0 ==> OnlyChunkedAt(headers, n);
      } else {
        forall i | OnlyChunkedAt(before, i) ensures OnlyChunkedAt(headers, i) {}
        forall i | OnlyChunkedAt(headers, i) ensures OnlyChunkedAt(before, i) {}
      }
    }
  }

  ghost predicate OnlyChunkedAt(headers: Header, i: int) {
    && 0 <= i < |headers| && headers[i] == ("transfer-encoding", "chunked")
    && forall j | 0 <= j < |headers| && j != i :: headers[j] != ("transfer-encoding", "chunked")
  }

  /** It is chunked exactly if there is one chunked transfer coding, no content length, and one host ... */
  lemma ChunkedIff(headers: Header)
    ensures HeaderFraming(Post, headers) == Ok(Chunked) <==>
      && (exists i :: OnlyChunkedAt(headers, i))
      && (forall i | 0 <= i < |headers| :: headers[i].0 != "content-length")
      && (exists i :: OnlyAt(headers, "host", i))
  {
    OneChunkedCount(headers);
    CountIsZero(headers, "content-length");
    CountIsOne(headers, "host");
  }

  /** ... and with anything else the request is refused as a bad one. */
  lemma OtherwiseRefused(headers: Header)
    ensures var framing := HeaderFraming(Post, headers);
            framing == Ok(Chunked) || (framing.Ok? && framing.value.Length?) || framing == Refused(400)
  {
  }

  lemma {:induction false} FirstServingAt(contexts: seq<ServerContext>, host: (string, string))
    ensures match FirstServing(contexts, host)
            case None => forall i | 0 <= i < |contexts| :: !Serves(contexts[i], host)
            case Some(sc) =>
              exists i | 0 <= i < |contexts| ::
                contexts[i] == sc && Serves(sc, host) && forall j | 0 <= j < i :: !Serves(contexts[j], host)
  {
    if contexts != [] && !Serves(contexts[0], host) {
      FirstServingAt(contexts[1..], host);
      var sc := FirstServing(contexts[1..], host);
      if sc.Some? {
        var i :| 0 <= i < |contexts[1..]| && contexts[1..][i] == sc.value
          && forall j | 0 <= j < i :: !Serves(contexts[1..][j], host);
        assert contexts[i + 1] == sc.value;
        assert forall j | 1 <= j < i + 1 :: contexts[j] == contexts[1..][j - 1];
      } else {
        assert forall j | 1 <= j < |contexts| :: contexts[j] == contexts[1..][j - 1];
      }
    }
  }

  /** The server has the name and, if one is asked for, the port. */
  ghost predicate HasNameAndPort(contexts: seq<ServerContext>, i: int, name: string, port: string) {
    0 <= i < |contexts| && contexts[i].serverName == name && (port != "" ==> contexts[i].listen.1 == port)
  }

  /**
   Of several servers the first one with the name and the port that the host header asks for is selected, and if
   none has them, the first of all. A single server serves everybody.
   */
  lemma FirstServingIsFirst(contexts: seq<ServerContext>, headers: Header, h: int, name: string, port: string)
    requires contexts != [] && OnlyAt(headers, "host", h) && HostAndPort(headers[h].1) == (name, port)
    ensures SelectedServer(contexts, headers).Ok?
    ensures var sc := SelectedServer(contexts, headers).value;
            if |contexts| == 1 || forall i :: !HasNameAndPort(contexts, i, name, port) then sc == contexts[0]
            else exists i :: && HasNameAndPort(contexts, i, name, port) && sc == contexts[i]
                             && forall j | j < i :: !HasNameAndPort(contexts, j, name, port)
  {
    ValueOfOnly(headers, "host", h);
    FirstServingAt(contexts, (name, port));
    forall i | 0 <= i < |contexts|
      ensures Serves(contexts[i], (name, port)) == HasNameAndPort(contexts, i, name, port)
    {
    }
  }

  // ---------------------------------------------------------------------------------------------
  // The parser as a state machine

  datatype Phase = WaitRequest | WaitHeader | WaitBody

  datatype State = State(phase: Phase, buf: string, request: Request, framing: Framing, server: ServerContext)

  datatype Outcome =
    | Waiting                                   // more input is needed
    | Failed(code: int)                         // an error response
    | Complete(request: Request, server: ServerContext)
    | ChunkedRead(request: Request, server: ServerContext, decode: ChunkedDecoding.Outcome)
                                                // what one call of the decoder makes of all input up to now

  /** Either it goes on later from a state, or it is over. */
  datatype Progress = Wait(state: State) | Done(outcome: Outcome)

  const INITIAL := State(WaitRequest, "", NO_REQUEST, Length(0), NO_SERVER)

  ghost function AdvanceBody(st: State): Progress {
    if !IsBodyRequired(st.request.verb) then Done(Complete(st.request, st.server))
    else match st.framing
         case Length(n) =>
           if |st.buf| >= n then Done(Complete(st.request.(body := st.buf[..n]), st.server)) else Wait(st)
         case Chunked =>
           Done(ChunkedRead(st.request, st.server, ChunkedDecoding.Decode(st.buf, 0, "", MaxBody(st.server))))
  }

  /** `client_body_size` converted to `size_t` where it becomes the limit of the decoder. */
  function MaxBody(sc: ServerContext): nat {
    if sc.clientBodySize.1 < 0 then sc.clientBodySize.1 % 0x1_0000_0000_0000_0000 else sc.clientBodySize.1
  }

  /** The empty line has been read. */
  ghost function EndHeaders(contexts: seq<ServerContext>, request: Request, buf: string): Progress {
    match HeaderFraming(request.verb, request.headers)
    case Refused(code) => Done(Failed(code))
    case Ok(framing) =>
      match SelectedServer(contexts, request.headers)
      case Refused(code) => Done(Failed(code))
      case Ok(sc) =>
        if framing.Length? && framing.n > sc.clientBodySize.1 then Done(Failed(ENTITY_TOO_LARGE))
        else AdvanceBody(State(WaitBody, buf, request, framing, sc))
  }

  function AfterHeader(st: State, end: nat, h: (string, string)): State
    requires end + 2 <= |st.buf|
  {
    st.(buf := st.buf[end + 2..], request := st.request.(headers := st.request.headers + [h]))
  }

  ghost function AdvanceHeaders(contexts: seq<ServerContext>, st: State): Progress
    decreases |st.buf|
  {
    match FindNL(st.buf, 0)
    case None => Wait(st)
    case Some(p) =>
      if p == 0 then EndHeaders(contexts, st.request, st.buf[2..])
      else
        match ParseHeaderLine(st.buf[..p])
        case Refused(code) => Done(Failed(code))
        case Ok(h) =>
          AdvanceHeaders(contexts, AfterHeader(st, p, h))
  }

  ghost function AdvanceLine(contexts: seq<ServerContext>, st: State): Progress {
    match FindNL(st.buf, 0)
    case None => Wait(st)
    case Some(p) =>
      match ParseRequestLine(st.buf[..p])
      case Refused(code) => Done(Failed(code))
      case Ok(request) => AdvanceHeaders(contexts, st.(phase := WaitHeader, buf := st.buf[p + 2..], request := request))
  }

  ghost function Advance(contexts: seq<ServerContext>, st: State): Progress {
    match st.phase
    case WaitRequest => AdvanceLine(contexts, st)
    case WaitHeader => AdvanceHeaders(contexts, st)
    case WaitBody => AdvanceBody(st)
  }

  /** All of `text` parsed at once. */
  ghost function Parse(contexts: seq<ServerContext>, text: string): Progress {
    Advance(contexts, INITIAL.(buf := text))
  }

  // ---------------------------------------------------------------------------------------------
  // The same in pieces

  function AddTo(st: State, more: string): State {
    st.(buf := st.buf + more)
  }

  /** A text that was waited behind can be continued from the state then reached; a verdict stays what it is. */
  ghost predicate Continues(contexts: seq<ServerContext>, before: Progress, after: Progress, more: string) {
    match before
    case Wait(st) => after == Advance(contexts, AddTo(st, more))
    case Done(o) =>
      if o.ChunkedRead? then
        && after.Done? && after.outcome.ChunkedRead?
        && after.outcome.request == o.request && after.outcome.server == o.server
      else after == before
  }

  lemma BodyContinues(contexts: seq<ServerContext>, st: State, more: string)
    requires st.phase == WaitBody
    ensures Continues(contexts, AdvanceBody(st), AdvanceBody(AddTo(st, more)), more)
  {
    if st.framing.Length? && |st.buf| >= st.framing.n {
      assert (st.buf + more)[..st.framing.n] == st.buf[..st.framing.n];
    }
  }

  lemma EndHeadersContinues(contexts: seq<ServerContext>, request: Request, buf: string, more: string)
    ensures Continues(contexts, EndHeaders(contexts, request, buf), EndHeaders(contexts, request, buf + more), more)
  {
    var framing := HeaderFraming(request.verb, request.headers);
    var sc := SelectedServer(contexts, request.headers);
    if framing.Ok? && sc.Ok? {
      BodyContinues(contexts, State(WaitBody, buf, request, framing.value, sc.value), more);
    }
  }

  /** The first line of a text is the first line of every longer text. */
  lemma LineExtends(buf: string, more: string)
    requires FindNL(buf, 0).Some?
    ensures FindNL(buf + more, 0) == FindNL(buf, 0)
    ensures var p := FindNL(buf, 0).value;
            (buf + more)[..p] == buf[..p] && (buf + more)[p + 2..] == buf[p + 2..] + more
  {
    FindNLExtends(buf, more, 0);
  }

  lemma {:induction false} HeadersContinue(contexts: seq<ServerContext>, st: State, more: string)
    requires st.phase == WaitHeader
    ensures Continues(contexts, AdvanceHeaders(contexts, st), AdvanceHeaders(contexts, AddTo(st, more)), more)
    decreases |st.buf|
  {
    match FindNL(st.buf, 0)
    case None =>
    case Some(p) =>
      LineExtends(st.buf, more);
      if p == 0 {
        EndHeadersContinues(contexts, st.request, st.buf[2..], more);
      } else {
        var h := ParseHeaderLine(st.buf[..p]);
        if h.Ok? {
          HeadersContinue(contexts, AfterHeader(st, p, h.value), more);
        }
      }
  }

  lemma LineContinues(contexts: seq<ServerContext>, st: State, more: string)
    requires st.phase == WaitRequest
    ensures Continues(contexts, AdvanceLine(contexts, st), AdvanceLine(contexts, AddTo(st, more)), more)
  {
    match FindNL(st.buf, 0)
    case None =>
    case Some(p) =>
      LineExtends(st.buf, more);
      var request := ParseRequestLine(st.buf[..p]);
      if request.Ok? {
        HeadersContinue(contexts, st.(phase := WaitHeader, buf := st.buf[p + 2..], request := request.value), more);
      }
  }

  lemma AdvanceContinues(contexts: seq<ServerContext>, st: State, more: string)
    ensures Continues(contexts, Advance(contexts, st), Advance(contexts, AddTo(st, more)), more)
  {
    match st.phase
    case WaitRequest => LineContinues(contexts, st, more);
    case WaitHeader => HeadersContinue(contexts, st, more);
    case WaitBody => BodyContinues(contexts, st, more);
  }

  /** What is appended to the buffer for a read: the bytes up to the first NUL. */
  function UntilNul(piece: string): string {
    if piece == "" || piece[0] == '\0' then "" else [piece[0]] + UntilNul(piece[1..])
  }

  ghost function Feed(contexts: seq<ServerContext>, st: State, piece: string): Progress {
    Advance(contexts, AddTo(st, UntilNul(piece)))
  }

  /** One read after the other, until there is a verdict. */
  ghost function Run(contexts: seq<ServerContext>, st: State, pieces: seq<string>): Outcome
    decreases pieces
  {
    if pieces == [] then Waiting
    else match Feed(contexts, st, pieces[0])
         case Wait(next) => Run(contexts, next, pieces[1..])
         case Done(o) => o
  }

  /** The call does not return. */
  ghost predicate Hangs(p: Progress) {
    p.Done? && p.outcome.ChunkedRead? && p.outcome.decode == ChunkedDecoding.Forever
  }

  /** The call throws `std::out_of_range`, which nothing catches. */
  ghost predicate Crashes(p: Progress) {
    p.Done? && p.outcome.ChunkedRead? && p.outcome.decode.OutOfRange?
  }

  function OutcomeOf(p: Progress): Outcome {
    match p case Wait(_) => Waiting case Done(o) => o
  }

  predicate NulFree(s: string) {
    forall i | 0 <= i < |s| :: s[i] != '\0'
  }

  lemma {:induction false} NothingLost(piece: string)
    requires NulFree(piece)
    ensures UntilNul(piece) == piece
  {
    if piece != "" {
      NothingLost(piece[1..]);
    }
  }

  predicate AllNulFree(pieces: seq<string>) {
    forall i | 0 <= i < |pieces| :: NulFree(pieces[i])
  }

  /** The text read when there is a verdict, or all of it if there is none. */
  ghost function TextRead(contexts: seq<ServerContext>, read: string, pieces: seq<string>): string
    decreases pieces
  {
    if pieces == [] then read
    else if Parse(contexts, read + pieces[0]).Done? then read + pieces[0]
    else TextRead(contexts, read + pieces[0], pieces[1..])
  }

  /** Whatever the reads are, the verdict is that on the text read up to then, parsed at once. */
  lemma {:induction false} RunIsParse(contexts: seq<ServerContext>, st: State, read: string, pieces: seq<string>)
    requires AllNulFree(pieces) && Parse(contexts, read) == Wait(st)
    ensures Run(contexts, st, pieces) == OutcomeOf(Parse(contexts, TextRead(contexts, read, pieces)))
    decreases pieces
  {
    if pieces != [] {
      NothingLost(pieces[0]);
      AdvanceContinues(contexts, INITIAL.(buf := read), pieces[0]);
      var next := Feed(contexts, st, pieces[0]);
      if next.Wait? {
        RunIsParse(contexts, next.state, read + pieces[0], pieces[1..]);
      }
    }
  }

  /** A verdict on a text is the verdict on every longer one, unless the body is chunked. */
  lemma {:induction false} TextReadIsAll(contexts: seq<ServerContext>, read: string, pieces: seq<string>)
    requires !OutcomeOf(Parse(contexts, read + Concat(pieces))).ChunkedRead?
    requires Parse(contexts, read).Wait?
    ensures OutcomeOf(Parse(contexts, TextRead(contexts, read, pieces)))
         == OutcomeOf(Parse(contexts, read + Concat(pieces)))
    decreases pieces
  {
    var rest := Concat(pieces);
    if pieces == [] {
      assert read + rest == read;
    } else {
      var others := Concat(pieces[1..]);
      Associative(read, pieces[0], others);
      if Parse(contexts, read + pieces[0]).Done? {
        AdvanceContinues(contexts, INITIAL.(buf := read + pieces[0]), others);
      } else {
        TextReadIsAll(contexts, read + pieces[0], pieces[1..]);
      }
    }
  }

  /**
   Two ways of cutting a request stream into reads, without NUL bytes, have the same verdict: that of parsing
   the whole stream at once. Only a chunked body is excepted.
   */
  lemma CutsDoNotMatter(contexts: seq<ServerContext>, a: seq<string>, b: seq<string>)
    requires AllNulFree(a) && AllNulFree(b) && Concat(a) == Concat(b)
    requires !OutcomeOf(Parse(contexts, Concat(a))).ChunkedRead?
    ensures Run(contexts, INITIAL, a) == Run(contexts, INITIAL, b)
    ensures Run(contexts, INITIAL, a) == OutcomeOf(Parse(contexts, Concat(a)))
  {
    var all := Concat(a);
    assert "" + all == all;
    assert Parse(contexts, "") == Wait(INITIAL);
    RunIsParse(contexts, INITIAL, "", a);
    RunIsParse(contexts, INITIAL, "", b);
    TextReadIsAll(contexts, "", a);
    TextReadIsAll(contexts, "", b);
  }

  // ---------------------------------------------------------------------------------------------
  // NUL bytes

  /** What is read of each piece. */
  ghost function Cleaned(pieces: seq<string>): seq<string> {
    seq(|pieces|, i requires 0 <= i < |pieces| => UntilNul(pieces[i]))
  }

  lemma {:induction false} UntilNulIsNulFree(s: string)
    ensures NulFree(UntilNul(s)) && UntilNul(s) <= s && (UntilNul(s) == s || s[|UntilNul(s)|] == '\0')
  {
    if s != "" && s[0] != '\0' {
      UntilNulIsNulFree(s[1..]);
    }
  }

  lemma NulFreeRest(a: string)
    requires a != ""
    ensures NulFree(a) <==> a[0] != '\0' && NulFree(a[1..])
  {
    forall i | 0 < i < |a| ensures a[i] == a[1..][i - 1] {}
  }

  lemma {:induction false} UntilNulOfConcat(a: string, b: string)
    ensures UntilNul(a + b) == if NulFree(a) then a + UntilNul(b) else UntilNul(a)
  {
    if a == "" {
      assert a + b == b;
    } else {
      assert (a + b)[0] == a[0] && (a + b)[1..] == a[1..] + b;
      NulFreeRest(a);
      UntilNulOfConcat(a[1..], b);
      Associative([a[0]], a[1..], UntilNul(b));
    }
  }

  lemma CleanedRest(pieces: seq<string>)
    requires pieces != []
    ensures Cleaned(pieces)[0] == UntilNul(pieces[0]) && Cleaned(pieces)[1..] == Cleaned(pieces[1..])
    ensures Concat(Cleaned(pieces)) == UntilNul(pieces[0]) + Concat(Cleaned(pieces[1..]))
  {
  }

  /** Bytes behind a NUL in a read are as if they had not been sent. */
  lemma {:induction false} RunOfCleaned(contexts: seq<ServerContext>, st: State, pieces: seq<string>)
    ensures AllNulFree(Cleaned(pieces)) && Run(contexts, st, pieces) == Run(contexts, st, Cleaned(pieces))
    decreases pieces
  {
    forall i | 0 <= i < |pieces| ensures NulFree(Cleaned(pieces)[i]) {
      UntilNulIsNulFree(pieces[i]);
    }
    if pieces != [] {
      CleanedRest(pieces);
      UntilNulIsNulFree(pieces[0]);
      NothingLost(UntilNul(pieces[0]));
      var next := Feed(contexts, st, pieces[0]);
      if next.Wait? {
        RunOfCleaned(contexts, next.state, pieces[1..]);
      }
    }
  }

  /**
   `kept` is what may be read of `text`, depending on the cuts: at each NUL, all up to some place behind it is
   lost, which may be up to the end.
   */
  ghost predicate IsKept(text: string, kept: string)
    decreases |text|
  {
    var x := UntilNul(text);
    if x == text then kept == text
    else x <= kept && exists k | |x| < k <= |text| :: IsKept(text[k..], kept[|x|..])
  }

  lemma KeptBehind(a: string, text: string, kept: string)
    requires NulFree(a) && IsKept(text, kept)
    ensures IsKept(a + text, a + kept)
  {
    UntilNulOfConcat(a, text);
    UntilNulIsNulFree(text);
    var x := UntilNul(text);
    if x != text {
      var k :| |x| < k <= |text| && IsKept(text[k..], kept[|x|..]);
      assert (a + text)[|a| + k..] == text[k..] && (a + kept)[|a + x|..] == kept[|x|..];
    }
  }

  lemma {:induction false} CleanedIsKept(pieces: seq<string>)
    ensures IsKept(Concat(pieces), Concat(Cleaned(pieces)))
  {
    if pieces != [] {
      var p, rest, kept := pieces[0], Concat(pieces[1..]), Concat(Cleaned(pieces[1..]));
      CleanedIsKept(pieces[1..]);
      CleanedRest(pieces);
      UntilNulOfConcat(p, rest);
      UntilNulIsNulFree(p);
      if NulFree(p) {
        NothingLost(p);
        KeptBehind(p, rest, kept);
      } else {
        var x := UntilNul(p);
        assert (p + rest)[|p|..] == rest && (x + kept)[|x|..] == kept;
        assert IsKept((p + rest)[|p|..], (x + kept)[|x|..]);
      }
    }
  }

  lemma {:induction false} KeptIsCleaned(text: string, kept: string) returns (pieces: seq<string>)
    requires IsKept(text, kept)
    ensures Concat(pieces) == text && Concat(Cleaned(pieces)) == kept
    decreases |text|
  {
    var x := UntilNul(text);
    if x == text {
      pieces := [text];
      OneIsCleaned(text);
    } else {
      var k :| |x| < k <= |text| && IsKept(text[k..], kept[|x|..]);
      var others := KeptIsCleaned(text[k..], kept[|x|..]);
      pieces := [text[..k]] + others;
      FirstIsCleaned(text, k);
      PrependCleaned(text[..k], others);
      SplitKept(x, kept);
    }
  }

  lemma SplitKept(x: string, kept: string)
    requires x <= kept
    ensures x + kept[|x|..] == kept
  {
  }

  lemma OneIsCleaned(text: string)
    ensures Concat([text]) == text && Concat(Cleaned([text])) == UntilNul(text)
  {
    ConcatOne(text);
    ConcatOne(UntilNul(text));
    assert Cleaned([text]) == [UntilNul(text)];
  }

  lemma FirstIsCleaned(text: string, k: nat)
    requires |UntilNul(text)| < k <= |text|
    ensures UntilNul(text[..k]) == UntilNul(text) && text[..k] + text[k..] == text
  {
    assert text == text[..k] + text[k..];
    UntilNulIsNulFree(text);
    UntilNulOfConcat(text[..k], text[k..]);
    assert text[..k][|UntilNul(text)|] == text[|UntilNul(text)|];
  }

  lemma PrependCleaned(first: string, others: seq<string>)
    ensures Concat([first] + others) == first + Concat(others)
    ensures Concat(Cleaned([first] + others)) == UntilNul(first) + Concat(Cleaned(others))
  {
    assert ([first] + others)[1..] == others;
    CleanedRest([first] + others);
  }

  lemma {:induction false} HeadersHaveOutcome(contexts: seq<ServerContext>, st: State)
    ensures AdvanceHeaders(contexts, st) != Done(Waiting)
    decreases |st.buf|
  {
    match FindNL(st.buf, 0)
    case None =>
    case Some(p) =>
      if p > 0 {
        var h := ParseHeaderLine(st.buf[..p]);
        if h.Ok? { HeadersHaveOutcome(contexts, AfterHeader(st, p, h.value)); }
      }
  }

  /** A verdict is not to wait. */
  lemma ParseHasOutcome(contexts: seq<ServerContext>, text: string)
    ensures Parse(contexts, text) != Done(Waiting)
  {
    match FindNL(text, 0)
    case None =>
    case Some(p) =>
      var request := ParseRequestLine(text[..p]);
      if request.Ok? {
        HeadersHaveOutcome(
          contexts, INITIAL.(phase := WaitHeader, buf := text[p + 2..], request := request.value));
      }
  }

  /** A stream without NUL bytes is waited on exactly if parsing all of it waits. */
  lemma {:induction false} WaitsIff(contexts: seq<ServerContext>, st: State, read: string, pieces: seq<string>)
    requires AllNulFree(pieces) && Parse(contexts, read) == Wait(st)
    ensures Run(contexts, st, pieces) == Waiting <==> Parse(contexts, read + Concat(pieces)).Wait?
    decreases pieces
  {
    if pieces == [] {
      assert read + "" == read;
    } else {
      var more := Concat(pieces[1..]);
      NothingLost(pieces[0]);
      AdvanceContinues(contexts, INITIAL.(buf := read), pieces[0]);
      Associative(read, pieces[0], more);
      var next := Feed(contexts, st, pieces[0]);
      if next.Wait? {
        WaitsIff(contexts, next.state, read + pieces[0], pieces[1..]);
      } else {
        ParseHasOutcome(contexts, read + pieces[0]);
        AdvanceContinues(contexts, INITIAL.(buf := read + pieces[0]), more);
      }
    }
  }

  ghost predicate CutsAgree(contexts: seq<ServerContext>, text: string) {
    forall a, b | Concat(a) == text && Concat(b) == text :: Run(contexts, INITIAL, a) == Run(contexts, INITIAL, b)
  }

  /** Whatever the cuts are, what is before the first NUL is read. */
  lemma {:induction false} BeginningIsRead(pieces: seq<string>)
    ensures UntilNul(Concat(pieces)) <= Concat(Cleaned(pieces))
  {
    CleanedIsKept(pieces);
  }

  /** A verdict that is reached before the first NUL byte is reached whatever comes behind it. */
  lemma VerdictBeforeNulAgrees(contexts: seq<ServerContext>, text: string)
    requires Parse(contexts, UntilNul(text)).Done? && !Parse(contexts, UntilNul(text)).outcome.ChunkedRead?
    ensures CutsAgree(contexts, text)
  {
    forall pieces | Concat(pieces) == text
      ensures Run(contexts, INITIAL, pieces) == Parse(contexts, UntilNul(text)).outcome
    {
      BeginningIsRead(pieces);
      VerdictStays(contexts, UntilNul(text), Concat(Cleaned(pieces)));
      RunOfCleaned(contexts, INITIAL, pieces);
      CutsDoNotMatter(contexts, Cleaned(pieces), Cleaned(pieces));
    }
  }

  lemma VerdictStays(contexts: seq<ServerContext>, text: string, longer: string)
    requires Parse(contexts, text).Done? && !Parse(contexts, text).outcome.ChunkedRead? && text <= longer
    ensures Parse(contexts, longer) == Parse(contexts, text)
  {
    assert text + longer[|text|..] == longer;
    AdvanceContinues(contexts, INITIAL.(buf := text), longer[|text|..]);
  }

  lemma RunWaitsIff(contexts: seq<ServerContext>, pieces: seq<string>)
    ensures Run(contexts, INITIAL, pieces) == Waiting <==> Parse(contexts, Concat(Cleaned(pieces))).Wait?
  {
    RunOfCleaned(contexts, INITIAL, pieces);
    assert "" + Concat(Cleaned(pieces)) == Concat(Cleaned(pieces)) && Parse(contexts, "") == Wait(INITIAL);
    WaitsIff(contexts, INITIAL, "", Cleaned(pieces));
  }

  /**
   A stream, with any number of NUL bytes, has the same verdict however it is cut exactly if there is a verdict
   before the first NUL, or if there is none at all, whatever has been lost with the NULs.
   */
  lemma NulCutsAgreeIff(contexts: seq<ServerContext>, text: string)
    requires !OutcomeOf(Parse(contexts, UntilNul(text))).ChunkedRead?
    ensures CutsAgree(contexts, text) <==>
      Parse(contexts, UntilNul(text)).Done? || forall kept | IsKept(text, kept) :: Parse(contexts, kept).Wait?
  {
    if Parse(contexts, UntilNul(text)).Done? {
      VerdictBeforeNulAgrees(contexts, text);
    } else if forall kept | IsKept(text, kept) :: Parse(contexts, kept).Wait? {
      forall pieces | Concat(pieces) == text ensures Run(contexts, INITIAL, pieces) == Waiting {
        CleanedIsKept(pieces);
        RunWaitsIff(contexts, pieces);
      }
    } else {
      var kept :| IsKept(text, kept) && !Parse(contexts, kept).Wait?;
      var pieces := KeptIsCleaned(text, kept);
      RunWaitsIff(contexts, pieces);
      OneIsCleaned(text);
      RunWaitsIff(contexts, [text]);
      TwoCutsDisagree(contexts, text, [text], pieces);
    }
  }

  lemma TwoCutsDisagree(contexts: seq<ServerContext>, text: string, a: seq<string>, b: seq<string>)
    requires Concat(a) == text && Concat(b) == text && Run(contexts, INITIAL, a) != Run(contexts, INITIAL, b)
    ensures !CutsAgree(contexts, text)
  {
  }

  // ---------------------------------------------------------------------------------------------
  // Bodies with a length

  /** The first empty line of `text` is the one behind the line end at `p`. */
  ghost predicate HeadEnds(text: string, p: nat) {
    AtNL(text, p) && AtNL(text, p + 2) && forall i: nat | i < p :: !(AtNL(text, i) && AtNL(text, i + 2))
  }

  /** The first empty line among header lines is at `k`. */
  ghost predicate HeadersEnd(buf: string, k: nat) {
    && AtNL(buf, k) && (k > 0 ==> 2 <= k && AtNL(buf, k - 2) && !AtNL(buf, 0))
    && forall i: nat | i + 2 < k :: !(AtNL(buf, i) && AtNL(buf, i + 2))
  }

  lemma LineInFront(buf: string, p: nat, k: nat)
    requires FindNL(buf, 0) == Some(p) && HeadersEnd(buf[p + 2..], k)
    ensures HeadEnds(buf, p + k) && (p > 0 ==> HeadersEnd(buf, p + 2 + k))
  {
    FindNLFinds(buf, 0);
    forall i: nat {:trigger AtNL(buf[p + 2..], i)} ensures AtNL(buf[p + 2..], i) == AtNL(buf, p + 2 + i) {}
    assert k > 0 ==> AtNL(buf[p + 2..], k - 2);
    forall i: nat | i < p + k ensures !(AtNL(buf, i) && AtNL(buf, i + 2)) {
      if i > p + 1 {
        assert !(AtNL(buf[p + 2..], i - p - 2) && AtNL(buf[p + 2..], i - p));
      } else if i == p {
        assert !AtNL(buf[p + 2..], 0);
      } else {
        assert !AtNL(buf, i);
      }
    }
  }

  lemma HeaderGoesOn(contexts: seq<ServerContext>, st: State, p: nat) returns (next: State)
    requires st.phase == WaitHeader && OutcomeOf(AdvanceHeaders(contexts, st)).Complete?
    requires FindNL(st.buf, 0) == Some(p) && p > 0
    ensures AdvanceHeaders(contexts, st) == AdvanceHeaders(contexts, next) && next.phase == WaitHeader
    ensures next.buf == st.buf[p + 2..] && |next.buf| < |st.buf|
    ensures next.request.verb == st.request.verb && next.request.body == st.request.body
  {
    next := AfterHeader(st, p, ParseHeaderLine(st.buf[..p]).value);
  }

  lemma RestOfRest(s: string, m: nat, n: nat)
    requires m + n <= |s|
    ensures s[m..][n..] == s[m + n..]
  {
  }

  /** How a request comes to be complete: with the first empty line. */
  lemma {:induction false} CompletedHeaders(contexts: seq<ServerContext>, st: State) returns (k: nat, rq: Request)
    requires st.phase == WaitHeader && OutcomeOf(AdvanceHeaders(contexts, st)).Complete?
    ensures HeadersEnd(st.buf, k)
    ensures AdvanceHeaders(contexts, st) == EndHeaders(contexts, rq, st.buf[k + 2..])
    ensures rq.verb == st.request.verb && rq.body == st.request.body
    decreases |st.buf|
  {
    var p := FindNL(st.buf, 0).value;
    if p == 0 {
      FindNLFinds(st.buf, 0);
      k, rq := 0, st.request;
    } else {
      var next := HeaderGoesOn(contexts, st, p);
      k, rq := CompletedHeaders(contexts, next);
      LineInFront(st.buf, p, k);
      RestOfRest(st.buf, p + 2, k + 2);
      k := p + 2 + k;
    }
  }

  lemma CompletedBody(contexts: seq<ServerContext>, rq: Request, rest: string)
    requires rq.body == "" && OutcomeOf(EndHeaders(contexts, rq, rest)).Complete?
    ensures var r := EndHeaders(contexts, rq, rest).outcome.request;
            && r.verb == rq.verb
            && (r.verb == Get || r.verb == Delete ==> r.body == "")
            && (r.verb == Post ==>
                  && |r.body| <= |rest| && r.body == rest[..|r.body|]
                  && exists i :: OnlyAt(r.headers, "content-length", i) && Number(r.headers[i].1) == |r.body|)
  {
    var r := EndHeaders(contexts, rq, rest).outcome.request;
    if rq.verb == Post {
      LengthIff(rq.headers, |r.body|);
    }
  }

  lemma LineOfRequest(contexts: seq<ServerContext>, text: string) returns (end: nat, request: Request)
    requires OutcomeOf(Parse(contexts, text)).Complete?
    ensures FindNL(text, 0) == Some(end) && request.body == "" && request.verb != Error
    ensures var st := State(WaitHeader, text[end + 2..], request, Length(0), NO_SERVER);
            Parse(contexts, text) == AdvanceHeaders(contexts, st)
  {
    end := FindNL(text, 0).value;
    request := ParseRequestLine(text[..end]).value;
  }

  lemma EndOfHead(contexts: seq<ServerContext>, text: string) returns (end: nat, rq: Request, k: nat)
    requires OutcomeOf(Parse(contexts, text)).Complete?
    ensures HeadEnds(text, end + k) && rq.body == "" && rq.verb != Error
    ensures Parse(contexts, text) == EndHeaders(contexts, rq, text[end + k + 4..])
  {
    var request;
    end, request := LineOfRequest(contexts, text);
    var rest := text[end + 2..];
    k, rq := CompletedHeaders(contexts, State(WaitHeader, rest, request, Length(0), NO_SERVER));
    LineInFront(text, end, k);
    RestOfRest(text, end + 2, k + 2);
  }

  /**
   The body of a complete request: none for GET and DELETE; for POST the bytes behind the first empty line, as
   many as the only content length says.
   */
  lemma CompleteBody(contexts: seq<ServerContext>, text: string) returns (p: nat)
    requires OutcomeOf(Parse(contexts, text)).Complete?
    ensures HeadEnds(text, p)
    ensures var r := Parse(contexts, text).outcome.request;
            && (r.verb == Get || r.verb == Delete || r.verb == Post)
            && (r.verb != Post ==> r.body == "")
            && (r.verb == Post ==>
                  p + 4 + |r.body| <= |text| && r.body == text[p + 4..p + 4 + |r.body|]
                  && exists i :: OnlyAt(r.headers, "content-length", i) && Number(r.headers[i].1) == |r.body|)
  {
    var end, rq, k := EndOfHead(contexts, text);
    CompletedBody(contexts, rq, text[end + k + 4..]);
    p := end + k;
  }

  // ---------------------------------------------------------------------------------------------
  // Chunked bodies

  /** `rest` is what a chunked request has behind its headers so far, and all that comes later. */
  ghost predicate IsChunkedRest(
    contexts: seq<ServerContext>, st: State, request: Request, sc: ServerContext, rest: string)
  {
    forall more ::
      Advance(contexts, AddTo(st, more))
      == Done(ChunkedRead(request, sc, ChunkedDecoding.Decode(rest + more, 0, "", MaxBody(sc))))
  }

  lemma EmptyLineRest(contexts: seq<ServerContext>, st: State)
    requires st.phase == WaitHeader && FindNL(st.buf, 0) == Some(0)
    requires OutcomeOf(AdvanceHeaders(contexts, st)).ChunkedRead?
    ensures var o := AdvanceHeaders(contexts, st).outcome; IsChunkedRest(contexts, st, o.request, o.server, st.buf[2..])
  {
    forall more
      ensures AdvanceHeaders(contexts, AddTo(st, more)) == EndHeaders(contexts, st.request, st.buf[2..] + more)
    {
      LineExtends(st.buf, more);
    }
  }

  lemma HeaderExtends(contexts: seq<ServerContext>, st: State, p: nat, h: (string, string), more: string)
    requires st.phase == WaitHeader && FindNL(st.buf, 0) == Some(p) && p > 0
    requires ParseHeaderLine(st.buf[..p]) == Ok(h)
    ensures Advance(contexts, AddTo(st, more)) == Advance(contexts, AddTo(AfterHeader(st, p, h), more))
  {
    LineExtends(st.buf, more);
  }

  lemma {:induction false} ChunkedHeadersRest(contexts: seq<ServerContext>, st: State) returns (rest: string)
    requires st.phase == WaitHeader && OutcomeOf(AdvanceHeaders(contexts, st)).ChunkedRead?
    ensures var o := AdvanceHeaders(contexts, st).outcome; IsChunkedRest(contexts, st, o.request, o.server, rest)
    ensures |rest| < |st.buf| && rest == st.buf[|st.buf| - |rest|..]
    decreases |st.buf|
  {
    var p := FindNL(st.buf, 0).value;
    if p == 0 {
      EmptyLineRest(contexts, st);
      rest := st.buf[2..];
    } else {
      var h := ParseHeaderLine(st.buf[..p]).value;
      rest := ChunkedHeadersRest(contexts, AfterHeader(st, p, h));
      forall more
        ensures Advance(contexts, AddTo(st, more)) == Advance(contexts, AddTo(AfterHeader(st, p, h), more))
      {
        HeaderExtends(contexts, st, p, h, more);
      }
    }
  }

  lemma ChunkedRest(contexts: seq<ServerContext>, text: string) returns (rest: string)
    requires OutcomeOf(Parse(contexts, text)).ChunkedRead?
    ensures var o := Parse(contexts, text).outcome;
            IsChunkedRest(contexts, INITIAL.(buf := text), o.request, o.server, rest)
    ensures |rest| < |text| && rest == text[|text| - |rest|..]
  {
    var st := INITIAL.(buf := text);
    var o := Parse(contexts, text).outcome;
    var p := FindNL(text, 0).value;
    var request := ParseRequestLine(text[..p]).value;
    var next := st.(phase := WaitHeader, buf := text[p + 2..], request := request);
    rest := ChunkedHeadersRest(contexts, next);
    forall more
      ensures Advance(contexts, AddTo(st, more))
           == Done(ChunkedRead(o.request, o.server, ChunkedDecoding.Decode(rest + more, 0, "", MaxBody(o.server))))
    {
      LineExtends(text, more);
      assert Advance(contexts, AddTo(next, more))
          == Done(ChunkedRead(o.request, o.server, ChunkedDecoding.Decode(rest + more, 0, "", MaxBody(o.server))));
    }
  }

  lemma RestIsDecoded(contexts: seq<ServerContext>, text: string, rest: string)
    requires OutcomeOf(Parse(contexts, text)).ChunkedRead?
    requires var o := Parse(contexts, text).outcome;
             IsChunkedRest(contexts, INITIAL.(buf := text), o.request, o.server, rest)
    ensures var o := Parse(contexts, text).outcome;
            o.decode == ChunkedDecoding.Decode(rest, 0, "", MaxBody(o.server))
  {
    var st := INITIAL.(buf := text);
    assert AddTo(st, "") == st && rest + "" == rest;
    assert Advance(contexts, AddTo(st, "")).Done?;
  }

  /** A request never gets a verdict exactly if its chunked body leads the decoder to a trap. */
  lemma HangsIff(contexts: seq<ServerContext>, text: string, rest: string)
    requires OutcomeOf(Parse(contexts, text)).ChunkedRead?
    requires var o := Parse(contexts, text).outcome;
             IsChunkedRest(contexts, INITIAL.(buf := text), o.request, o.server, rest)
    ensures var max := MaxBody(Parse(contexts, text).outcome.server);
            Hangs(Parse(contexts, text)) <==>
              exists n :: var r := ChunkedDecoding.After(rest, max, ChunkedDecoding.More(0, ""), n);
                r.More? && ChunkedDecoding.Trap(rest, r.head)
  {
    RestIsDecoded(contexts, text, rest);
    ChunkedDecoding.ForeverIff(rest, 0, "", MaxBody(Parse(contexts, text).outcome.server));
  }

  /** It makes the call throw exactly if the body leads the decoder one or two bytes behind the end of its buffer. */
  lemma CrashesIff(contexts: seq<ServerContext>, text: string, rest: string)
    requires OutcomeOf(Parse(contexts, text)).ChunkedRead?
    requires var o := Parse(contexts, text).outcome;
             IsChunkedRest(contexts, INITIAL.(buf := text), o.request, o.server, rest)
    ensures var max := MaxBody(Parse(contexts, text).outcome.server);
            Crashes(Parse(contexts, text)) <==>
              exists n :: var r := ChunkedDecoding.After(rest, max, ChunkedDecoding.More(0, ""), n);
                r.More? && ChunkedDecoding.Overshoots(rest, r.head, r.decoded, max)
  {
    RestIsDecoded(contexts, text, rest);
    ChunkedDecoding.OutOfRangeIff(rest, 0, "", MaxBody(Parse(contexts, text).outcome.server));
  }

  /** With a chunked body behind `head`, parsing `head + a` decodes `a`. */
  lemma ChunkedParse(contexts: seq<ServerContext>, head: string, a: string)
    requires OutcomeOf(Parse(contexts, head)).ChunkedRead?
    requires var o := Parse(contexts, head).outcome;
             IsChunkedRest(contexts, INITIAL.(buf := head), o.request, o.server, "")
    ensures var o := Parse(contexts, head).outcome;
            Parse(contexts, head + a)
            == Done(ChunkedRead(o.request, o.server, ChunkedDecoding.Decode(a, 0, "", MaxBody(o.server))))
  {
    var st := INITIAL.(buf := head);
    assert AddTo(st, a) == INITIAL.(buf := head + a) && "" + a == a;
    assert Advance(contexts, AddTo(st, a)).Done?;
  }

  /**
   With a chunked body there is a verdict as soon as the headers end, and it depends on the reads. If `a` of the
   body has been read by then and `b` has not, the verdict is that on the whole stream exactly if `b` makes no
   difference where `a` ends: behind the end of the body, or inside a size line or the CRLF behind a chunk that
   `b` does not complete; never inside the data of a chunk.
   */
  lemma ChunkedCutsMatter(contexts: seq<ServerContext>, pieces: seq<string>, head: string, a: string, b: string)
    requires OutcomeOf(Parse(contexts, head)).ChunkedRead?
    requires var o := Parse(contexts, head).outcome;
             IsChunkedRest(contexts, INITIAL.(buf := head), o.request, o.server, "")
    requires AllNulFree(pieces) && Concat(pieces) == head + a + b && TextRead(contexts, "", pieces) == head + a
    ensures var max := MaxBody(Parse(contexts, head).outcome.server);
            Run(contexts, INITIAL, pieces) == OutcomeOf(Parse(contexts, Concat(pieces))) <==>
              b == "" || ChunkedDecoding.Indifferent(
                a, b, ChunkedDecoding.EndingOf(a, 0, "", max), ChunkedDecoding.Decode(a, 0, "", max))
  {
    var max := MaxBody(Parse(contexts, head).outcome.server);
    assert Parse(contexts, "") == Wait(INITIAL);
    RunIsParse(contexts, INITIAL, "", pieces);
    ChunkedParse(contexts, head, a);
    ChunkedParse(contexts, head, a + b);
    Associative(head, a, b);
    if b == "" {
      assert a + b == a;
    } else {
      ChunkedDecoding.LaterInputIff(a, b, 0, "", max);
    }
  }

  /** A chunked request that comes in one read is read as it was sent: the two directions of the coding fit. */
  lemma ChunkedRequestInOneRead(contexts: seq<ServerContext>, head: string, lines: seq<string>, chunks: seq<string>,
                                zeros: string)
    requires OutcomeOf(Parse(contexts, head)).ChunkedRead?
    requires var o := Parse(contexts, head).outcome;
             && IsChunkedRest(contexts, INITIAL.(buf := head), o.request, o.server, "")
             && |Concat(chunks)| <= o.server.clientBodySize.1
    requires ChunkedDecoding.Spell(lines, chunks) && Numbers.IsSpelling(zeros, 0)
    requires AllNonEmpty(chunks) && |Concat(chunks)| <= Numbers.LONG_MAX
    requires NulFree(head + (ChunkedDecoding.Frames(lines, chunks) + ChunkedDecoding.LastChunk(zeros)))
    ensures var body := ChunkedDecoding.Frames(lines, chunks) + ChunkedDecoding.LastChunk(zeros);
            var o := Run(contexts, INITIAL, [head + body]);
            && o.ChunkedRead? && o.request == Parse(contexts, head).outcome.request
            && o.decode.Returned? && o.decode.stat == ChunkedDecoding.DecodeComplete
            && o.decode.decoded == Concat(chunks)
  {
    var o := Parse(contexts, head).outcome;
    var last := ChunkedDecoding.LastChunk(zeros);
    var body := ChunkedDecoding.Frames(lines, chunks) + last;
    NothingLost(head + body);
    assert "" + (head + body) == head + body && "" + body == body && last[..|last|] == last;
    assert AddTo(INITIAL, head + body) == AddTo(INITIAL.(buf := head), body);
    ChunkedDecoding.DecodeSpelt(lines, chunks, zeros, |last|, MaxBody(o.server));
    assert Advance(contexts, AddTo(INITIAL.(buf := head), body)).Done?;
  }

  /** One that is larger than its server allows is answered with 413. */
  lemma ChunkedTooLarge(contexts: seq<ServerContext>, head: string, lines: seq<string>, chunks: seq<string>,
                        rest: string)
    requires OutcomeOf(Parse(contexts, head)).ChunkedRead?
    requires var o := Parse(contexts, head).outcome;
             && IsChunkedRest(contexts, INITIAL.(buf := head), o.request, o.server, "")
             && 0 <= o.server.clientBodySize.1 < |Concat(chunks)|
    requires ChunkedDecoding.Spell(lines, chunks) && AllNonEmpty(chunks) && |Concat(chunks)| <= Numbers.LONG_MAX
    ensures var o := OutcomeOf(Parse(contexts, head + (ChunkedDecoding.Frames(lines, chunks) + rest)));
            o.ChunkedRead? && o.decode == ChunkedDecoding.PayloadTooLarge
  {
    var frames, max := ChunkedDecoding.Frames(lines, chunks), MaxBody(Parse(contexts, head).outcome.server);
    ChunkedParse(contexts, head, frames + rest);
    ChunkedDecoding.FramesInFront(frames, rest);
    ChunkedDecoding.FromNothing(Concat(chunks));
    ChunkedDecoding.DecodeTooManyFrames(frames + rest, 0, lines, chunks, "", max);
  }

  /**
   A correctly framed request whose first read stops inside the data of a chunk that fits the limit makes the
   call throw exactly if one or two bytes of the data are missing.
   */
  lemma CutReadCrashesIff(contexts: seq<ServerContext>, head: string, lines: seq<string>, chunks: seq<string>,
                          line: string, data: string, missing: nat)
    requires OutcomeOf(Parse(contexts, head)).ChunkedRead?
    requires var o := Parse(contexts, head).outcome;
             && IsChunkedRest(contexts, INITIAL.(buf := head), o.request, o.server, "")
             && |Concat(chunks)| + |data| <= o.server.clientBodySize.1
    requires ChunkedDecoding.Spell(lines, chunks) && Numbers.IsSpelling(line, |data|)
    requires AllNonEmpty(chunks) && 0 < missing <= |data| && |Concat(chunks)| + |data| <= Numbers.LONG_MAX
    ensures var body := ChunkedDecoding.Frames(lines, chunks) + ChunkedDecoding.CutFrame(line, data, missing);
            Crashes(Parse(contexts, head + body)) <==> missing <= 2
  {
    var max := MaxBody(Parse(contexts, head).outcome.server);
    ChunkedParse(contexts, head, ChunkedDecoding.Frames(lines, chunks) + ChunkedDecoding.CutFrame(line, data, missing));
    ChunkedDecoding.CutInData(lines, chunks, line, data, missing, max);
  }
}
