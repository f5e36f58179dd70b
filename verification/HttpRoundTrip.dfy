/** Every request that is read completely can be written down again, and is read back from what is written. */
module HttpRoundTrip {
  import opened Text
  import opened Configuration
  import opened HttpRequests
  import Paths

  // ---------------------------------------------------------------------------------------------
  // The requests that can be read

  predicate HasNoNL(s: string) {
    forall i | 0 <= i < |s| :: !AtNL(s, i)
  }

  predicate IsLower(s: string) {
    forall i | 0 <= i < |s| :: ToLower(s[i]) == s[i]
  }

  predicate ValidHeader(h: (string, string)) {
    && h.0 != "" && ':' !in h.0 && IsLower(h.0) && HasNoNL(h.0)
    && IsTrimmed(h.1) && HasNoNL(h.1)
  }

  predicate AllHeadersValid(headers: Header) {
    forall i | 0 <= i < |headers| :: ValidHeader(headers[i])
  }

  predicate IsTargetPart(s: string) {
    ' ' !in s && HasNoNL(s)
  }

  /** The path is not empty, and there is a query only behind a path with a slash. */
  predicate ValidLine(r: Request) {
    && r.verb != Error && r.version == "HTTP/1.1"
    && r.path != "" && IsTargetPart(r.path)
    && IsTargetPart(r.query) && '?' !in r.query && '/' !in r.query && (r.query != "" ==> '/' in r.path)
  }

  ghost predicate ValidRequest(contexts: seq<ServerContext>, r: Request, sc: ServerContext) {
    && ValidLine(r) && AllHeadersValid(r.headers)
    && HeaderFraming(r.verb, r.headers) == Ok(Length(|r.body|))
    && SelectedServer(contexts, r.headers) == Ok(sc) && |r.body| <= sc.clientBodySize.1
  }

  // ---------------------------------------------------------------------------------------------
  // Writing

  function MethodName(m: Method): string
    requires m != Error
  {
    match m case Delete => "DELETE" case Get => "GET" case Post => "POST"
  }

  /** The request target: a question mark is needed before a query, and behind a path that would be split itself. */
  function Target(path: string, query: string): string {
    if query == "" && SplitTarget(path) == (path, "") then path else path + "?" + query
  }

  function RequestLine(r: Request): string
    requires r.verb != Error
  {
    MethodName(r.verb) + [' '] + (Target(r.path, r.query) + [' '] + r.version)
  }

  function HeaderLine(h: (string, string)): string {
    h.0 + ":" + h.1
  }

  function HeaderLines(headers: Header): string {
    if headers == [] then NL else HeaderLine(headers[0]) + NL + HeaderLines(headers[1..])
  }

  function Written(r: Request): string
    requires r.verb != Error
  {
    RequestLine(r) + NL + (HeaderLines(r.headers) + r.body)
  }

  // ---------------------------------------------------------------------------------------------
  // What is read is valid

  lemma NoNLInPart(s: string, from: nat, to: nat)
    requires from <= to <= |s| && forall i | 0 <= i < to :: i + 1 < to ==> !AtNL(s, i)
    ensures HasNoNL(s[from..to])
  {
    forall i | 0 <= i < to - from ensures !AtNL(s[from..to], i) {
      assert i + from + 1 < to ==> !AtNL(s, i + from);
    }
  }

  /** The first line of a buffer, and any part of it, has no line end. */
  lemma LineHasNoNL(buf: string)
    requires FindNL(buf, 0).Some?
    ensures HasNoNL(buf[..FindNL(buf, 0).value])
  {
    FindNLFinds(buf, 0);
    var p := FindNL(buf, 0).value;
    assert IsFirstNL(buf, 0, p);
    NoNLInPart(buf, 0, p);
  }

  lemma PartHasNoNL(s: string, from: nat, to: nat)
    requires HasNoNL(s) && from <= to <= |s|
    ensures HasNoNL(s[from..to])
    ensures from == 0 ==> HasNoNL(s[..to])
    ensures to == |s| ==> HasNoNL(s[from..])
  {
    assert to == |s| ==> s[from..to] == s[from..];
    assert from == 0 ==> s[from..to] == s[..to];
    NoNLInPart(s, from, to);
  }

  lemma TrimIsTrimmed(s: string)
    requires HasNoNL(s) && Trim(s) != ""
    ensures IsTrimmed(Trim(s)) && HasNoNL(Trim(s))
  {
    var t := SkipSpace(s);
    SkipSpaceIsSuffix(s);
    TrimRightIsPrefix(t);
    PartHasNoNL(s, |s| - |t|, |s|);
    PartHasNoNL(t, 0, |Trim(s)|);
  }

  lemma LowerKeepsNL(s: string)
    requires HasNoNL(s) && ':' !in s
    ensures HasNoNL(Lower(s)) && IsLower(Lower(s)) && ':' !in Lower(s)
  {
    forall i | 0 <= i < |s| ensures !AtNL(Lower(s), i) && Lower(s)[i] != ':' {
      assert !AtNL(s, i) && s[i] in s;
    }
  }

  lemma HeaderLineIsValid(line: string)
    requires HasNoNL(line) && ParseHeaderLine(line).Ok?
    ensures ValidHeader(ParseHeaderLine(line).value)
  {
    var p := Colon(line).value;
    PartHasNoNL(line, 0, p);
    PartHasNoNL(line, p + 1, |line|);
    assert forall i | 0 <= i < p :: line[..p][i] == line[i] && line[i] != ':';
    LowerKeepsNL(line[..p]);
    TrimIsTrimmed(line[p + 1..]);
  }

  lemma {:induction false} PiecesAreParts(s: string, seps: string)
    requires HasNoNL(s)
    ensures forall p <- Paths.SplitState(s, seps).0 :: HasNoNL(p)
    ensures var item := Paths.SplitState(s, seps).1; |item| <= |s| && item == s[|s| - |item|..]
  {
    if s != "" {
      PartHasNoNL(s, 0, |s| - 1);
      PiecesAreParts(s[..|s| - 1], seps);
      var item := Paths.SplitState(s[..|s| - 1], seps).1;
      PartHasNoNL(s, |s| - 1 - |item|, |s| - 1);
    }
  }

  lemma SplitHasNoNL(s: string, seps: string)
    requires HasNoNL(s)
    ensures forall p <- Paths.Split(s, seps) :: HasNoNL(p)
  {
    PiecesAreParts(s, seps);
    var item := Paths.SplitState(s, seps).1;
    PartHasNoNL(s, |s| - |item|, |s|);
  }

  lemma TargetIsSplit(target: string)
    requires target != "" && IsTargetPart(target)
    ensures var (path, query) := SplitTarget(target);
            && path != "" && IsTargetPart(path) && IsTargetPart(query)
            && '?' !in query && '/' !in query && (query != "" ==> '/' in path)
  {
    var question, slash := FindLast(target, '?'), FindLast(target, '/');
    if question.Some? && slash.Some? && question.value > slash.value {
      var path, query := target[..question.value], target[question.value + 1..];
      PartHasNoNL(target, 0, question.value);
      PartHasNoNL(target, question.value + 1, |target|);
      assert path[slash.value] == '/';
      assert forall i | 0 <= i < |path| :: path[i] == target[i] && path[i] in target;
      forall i | 0 <= i < |query|
        ensures query[i] in target && query[i] != '?' && query[i] != '/'
      {
        assert query[i] == target[i + question.value + 1];
      }
    }
  }

  lemma RequestLineIsValid(line: string)
    requires HasNoNL(line) && ParseRequestLine(line).Ok?
    ensures ValidLine(ParseRequestLine(line).value) && ParseRequestLine(line).value.headers == []
  {
    var v := Paths.Split(line, " ");
    Paths.PiecesAreClean(line, " ");
    SplitHasNoNL(line, " ");
    assert v[1] in v && Paths.NoneOf(v[1], " ");
    assert ' ' !in v[1] by {
      assert " "[0] == ' ';
    }
    TargetIsSplit(v[1]);
  }

  lemma EndHeadersIsValid(contexts: seq<ServerContext>, request: Request, buf: string)
    requires ValidLine(request) && AllHeadersValid(request.headers) && request.body == ""
    ensures var o := OutcomeOf(EndHeaders(contexts, request, buf));
            o.Complete? ==> ValidRequest(contexts, o.request, o.server)
  {
  }

  lemma {:induction false} HeadersAreValid(contexts: seq<ServerContext>, st: State)
    requires st.phase == WaitHeader
    requires ValidLine(st.request) && AllHeadersValid(st.request.headers) && st.request.body == ""
    ensures var o := OutcomeOf(AdvanceHeaders(contexts, st));
            o.Complete? ==> ValidRequest(contexts, o.request, o.server)
    decreases |st.buf|
  {
    match FindNL(st.buf, 0)
    case None =>
    case Some(p) =>
      LineHasNoNL(st.buf);
      if p == 0 {
        EndHeadersIsValid(contexts, st.request, st.buf[2..]);
      } else {
        var h := ParseHeaderLine(st.buf[..p]);
        if h.Ok? {
          HeaderLineIsValid(st.buf[..p]);
          HeadersAreValid(contexts, AfterHeader(st, p, h.value));
        }
      }
  }

  /** Whatever is read completely is a valid request. */
  lemma ParsedIsValid(contexts: seq<ServerContext>, text: string)
    ensures var o := OutcomeOf(Parse(contexts, text));
            o.Complete? ==> ValidRequest(contexts, o.request, o.server)
  {
    match FindNL(text, 0)
    case None =>
    case Some(p) =>
      LineHasNoNL(text);
      var request := ParseRequestLine(text[..p]);
      if request.Ok? {
        RequestLineIsValid(text[..p]);
        HeadersAreValid(contexts, INITIAL.(phase := WaitHeader, buf := text[p + 2..], request := request.value));
      }
  }

  // ---------------------------------------------------------------------------------------------
  // What is written is read

  lemma JoinHasNoNL(a: string, c: char, b: string)
    requires HasNoNL(a) && HasNoNL(b) && c != '\r' && c != '\n'
    ensures HasNoNL(a + [c] + b) && HasNoNL(a + ([c] + b))
  {
    var s := a + [c] + b;
    assert s == a + ([c] + b);
    forall i | 0 <= i < |s| ensures !AtNL(s, i) {
      if i < |a| {
        assert !AtNL(a, i);
      } else if i > |a| {
        assert !AtNL(b, i - |a| - 1);
      }
    }
  }

  /** A line ends where its line end is, even behind a carriage return. */
  lemma LineIsFound(line: string, rest: string)
    requires HasNoNL(line)
    ensures FindNL(line + NL + rest, 0) == Some(|line|)
    ensures (line + NL + rest)[..|line|] == line && (line + NL + rest)[|line| + 2..] == rest
  {
    var s := line + NL + rest;
    forall i | 0 <= i < |line| ensures !AtNL(s, i) {
      assert !AtNL(line, i);
    }
    FindNLIsAt(s, 0, |line|);
  }

  lemma LastIsAt(s: string, c: char, i: nat)
    requires i < |s| && s[i] == c && forall j | i < j < |s| :: s[j] != c
    ensures FindLast(s, c) == Some(i)
  {
    assert s[i] in s;
  }

  lemma TargetIsRead(path: string, query: string)
    requires '?' !in query && '/' !in query && (query != "" ==> '/' in path)
    ensures SplitTarget(Target(path, query)) == (path, query)
  {
    if query != "" || SplitTarget(path) != (path, "") {
      var t := path + "?" + query;
      var slash := FindLast(path, '/').value;
      forall j | |path| < j < |t| ensures t[j] != '?' && t[j] != '/' {
        assert t[j] == query[j - |path| - 1];
      }
      LastIsAt(t, '?', |path|);
      assert forall j | 0 <= j < |path| :: t[j] == path[j];
      LastIsAt(t, '/', slash);
      assert t[..|path|] == path && t[|path| + 1..] == query;
    }
  }

  lemma TargetIsWord(path: string, query: string)
    requires IsTargetPart(path) && IsTargetPart(query) && path != ""
    ensures Target(path, query) != "" && IsTargetPart(Target(path, query))
  {
    JoinHasNoNL(path, '?', query);
    assert path + "?" + query == path + ['?'] + query;
    assert ' ' !in "?";
  }

  lemma OnePiece(s: string)
    requires s != "" && ' ' !in s
    ensures Paths.Split(s, " ") == [s]
  {
    assert forall i | 0 <= i < |s| :: s[i] in s;
    Paths.SplitStateOfPiece(s, " ");
  }

  lemma ThreePieces(a: string, b: string, c: string)
    requires a != "" && b != "" && c != "" && ' ' !in a && ' ' !in b && ' ' !in c
    ensures Paths.Split(a + [' '] + (b + [' '] + c), " ") == [a, b, c]
  {
    OnePiece(a);
    OnePiece(b);
    OnePiece(c);
    Paths.SplitAtSeparator(a, ' ', b + [' '] + c, " ");
    Paths.SplitAtSeparator(b, ' ', c, " ");
  }

  lemma MethodIsRead(m: Method)
    requires m != Error
    ensures ConvertMethod(MethodName(m)) == Ok(m)
    ensures MethodName(m) != "" && ' ' !in MethodName(m) && HasNoNL(MethodName(m))
  {
    assert "DELETE"[0] == 'D' && "GET"[0] == 'G' && "POST"[0] == 'P';
  }

  lemma VersionIsRead()
    ensures IsVersionFormat("HTTP/1.1") && ' ' !in "HTTP/1.1" && HasNoNL("HTTP/1.1")
  {
  }

  lemma RequestLineIsRead(r: Request)
    requires ValidLine(r)
    ensures ParseRequestLine(RequestLine(r)) == Ok(r.(headers := [], body := ""))
    ensures HasNoNL(RequestLine(r))
  {
    var target := Target(r.path, r.query);
    MethodIsRead(r.verb);
    VersionIsRead();
    TargetIsWord(r.path, r.query);
    TargetIsRead(r.path, r.query);
    ThreePieces(MethodName(r.verb), target, r.version);
    JoinHasNoNL(target, ' ', r.version);
    JoinHasNoNL(MethodName(r.verb), ' ', target + [' '] + r.version);
  }

  lemma HeaderLineIsRead(h: (string, string))
    requires ValidHeader(h)
    ensures ParseHeaderLine(HeaderLine(h)) == Ok(h) && HasNoNL(HeaderLine(h)) && HeaderLine(h) != ""
  {
    var line := HeaderLine(h);
    JoinHasNoNL(h.0, ':', h.1);
    assert line == h.0 + [':'] + h.1;
    assert line[|h.0|] == ':' && forall i | 0 <= i < |h.0| :: line[i] == h.0[i] && h.0[i] in h.0;
    assert Colon(line) == Some(|h.0|);
    assert line[..|h.0|] == h.0 && line[|h.0| + 1..] == h.1;
    assert Lower(h.0) == h.0;
    assert Trim(h.1) == h.1;
  }

  lemma {:induction false} HeaderLinesAreRead(
    contexts: seq<ServerContext>, st: State, headers: Header, body: string)
    requires st.phase == WaitHeader && AllHeadersValid(headers) && st.buf == HeaderLines(headers) + body
    ensures AdvanceHeaders(contexts, st)
         == EndHeaders(contexts, st.request.(headers := st.request.headers + headers), body)
    decreases headers
  {
    if headers == [] {
      LineIsFound("", body);
      assert "" + NL + body == st.buf && st.request.headers + headers == st.request.headers;
    } else {
      FirstLine(HeaderLine(headers[0]), HeaderLines(headers[1..]), body);
      assert ValidHeader(headers[0]);
      FirstHeaderIsRead(contexts, st, headers[0], HeaderLines(headers[1..]) + body);
      HeaderLinesAreRead(contexts, AfterHeader(st, |HeaderLine(headers[0])|, headers[0]), headers[1..], body);
      MoveFirst(st.request.headers, headers);
    }
  }

  lemma FirstLine(line: string, others: string, body: string)
    ensures line + NL + others + body == line + NL + (others + body)
  {
  }

  lemma MoveFirst<T>(done: seq<T>, left: seq<T>)
    requires left != []
    ensures done + [left[0]] + left[1..] == done + left
  {
  }

  lemma FirstHeaderIsRead(contexts: seq<ServerContext>, st: State, h: (string, string), rest: string)
    requires st.phase == WaitHeader && ValidHeader(h) && st.buf == HeaderLine(h) + NL + rest
    ensures AfterHeader(st, |HeaderLine(h)|, h).buf == rest
    ensures AdvanceHeaders(contexts, st) == AdvanceHeaders(contexts, AfterHeader(st, |HeaderLine(h)|, h))
  {
    HeaderLineIsRead(h);
    LineIsFound(HeaderLine(h), rest);
  }

  lemma EndOfWritten(contexts: seq<ServerContext>, r: Request, sc: ServerContext)
    requires ValidRequest(contexts, r, sc)
    ensures EndHeaders(contexts, r.(body := ""), r.body) == Done(Complete(r, sc))
  {
    assert r.body[..|r.body|] == r.body;
  }

  lemma WrittenHeaders(contexts: seq<ServerContext>, r: Request)
    requires ValidLine(r) && AllHeadersValid(r.headers)
    ensures Parse(contexts, Written(r)) == EndHeaders(contexts, r.(body := ""), r.body)
  {
    var line, rest := RequestLine(r), HeaderLines(r.headers) + r.body;
    RequestLineIsRead(r);
    LineIsFound(line, rest);
    var st := INITIAL.(phase := WaitHeader, buf := rest, request := r.(headers := [], body := ""));
    HeaderLinesAreRead(contexts, st, r.headers, r.body);
    assert [] + r.headers == r.headers;
  }

  /** A valid request that is written down is read back. */
  lemma WrittenIsParsed(contexts: seq<ServerContext>, r: Request, sc: ServerContext)
    requires ValidRequest(contexts, r, sc)
    ensures Parse(contexts, Written(r)) == Done(Complete(r, sc))
  {
    WrittenHeaders(contexts, r);
    EndOfWritten(contexts, r, sc);
  }

  /** A request line that is refused, and a header line that is, wherever it stands, is the verdict. */
  lemma BadRequestLine(contexts: seq<ServerContext>, line: string, rest: string, code: int)
    requires HasNoNL(line) && ParseRequestLine(line) == Refused(code)
    ensures Parse(contexts, line + NL + rest) == Done(Failed(code))
  {
    LineIsFound(line, rest);
  }

  lemma BadHeaderLine(contexts: seq<ServerContext>, r: Request, line: string, rest: string, code: int)
    requires ValidLine(r) && AllHeadersValid(r.headers)
    requires line != "" && HasNoNL(line) && ParseHeaderLine(line) == Refused(code)
    ensures Parse(contexts, RequestLine(r) + NL + (HeaderBlock(r.headers) + (line + NL + rest))) == Done(Failed(code))
  {
    var block := HeaderBlock(r.headers) + (line + NL + rest);
    RequestLineIsRead(r);
    LineIsFound(RequestLine(r), block);
    var st := INITIAL.(phase := WaitHeader, buf := block, request := r.(headers := [], body := ""));
    HeaderBlockIsRead(contexts, st, r.headers, line + NL + rest);
    LineIsFound(line, rest);
  }

  function HeaderBlock(headers: Header): string {
    if headers == [] then "" else HeaderLine(headers[0]) + NL + HeaderBlock(headers[1..])
  }

  lemma {:induction false} HeaderBlockIsRead(contexts: seq<ServerContext>, st: State, headers: Header, rest: string)
    requires st.phase == WaitHeader && AllHeadersValid(headers) && st.buf == HeaderBlock(headers) + rest
    ensures AdvanceHeaders(contexts, st) == AdvanceHeaders(
              contexts, st.(buf := rest, request := st.request.(headers := st.request.headers + headers)))
    decreases headers
  {
    if headers == [] {
      assert st.buf == rest && st.request.headers + headers == st.request.headers;
      assert st.(buf := rest, request := st.request.(headers := st.request.headers + headers)) == st;
    } else {
      FirstLine(HeaderLine(headers[0]), HeaderBlock(headers[1..]), rest);
      assert ValidHeader(headers[0]);
      FirstHeaderIsRead(contexts, st, headers[0], HeaderBlock(headers[1..]) + rest);
      HeaderBlockIsRead(contexts, AfterHeader(st, |HeaderLine(headers[0])|, headers[0]), headers[1..], rest);
      MoveFirst(st.request.headers, headers);
    }
  }

  /** A request without a host or with several is refused; with one host, GET and DELETE are complete at once. */
  lemma WrittenWithoutBody(contexts: seq<ServerContext>, r: Request, sc: ServerContext)
    requires ValidLine(r) && AllHeadersValid(r.headers) && SelectedServer(contexts, r.headers) == Ok(sc)
    requires sc.clientBodySize.1 >= 0
    ensures (forall i :: !OnlyAt(r.headers, "host", i)) ==> Parse(contexts, Written(r)) == Done(Failed(400))
    ensures (exists i :: OnlyAt(r.headers, "host", i)) && r.verb != Post ==>
      Parse(contexts, Written(r)) == Done(Complete(r.(body := ""), sc))
  {
    WrittenHeaders(contexts, r);
    CountIsOne(r.headers, "host");
    if r.verb == Get || r.verb == Delete {
      NoBodyIff(r.verb, r.headers);
    }
  }

  /** A POST request with a content length: too large for its server, waited for, or complete. */
  lemma WrittenWithLength(contexts: seq<ServerContext>, r: Request, sc: ServerContext, h: int, l: int, n: nat)
    requires ValidLine(r) && AllHeadersValid(r.headers) && r.verb == Post
    requires SelectedServer(contexts, r.headers) == Ok(sc)
    requires OnlyAt(r.headers, "host", h) && ("transfer-encoding", "chunked") !in r.headers
    requires OnlyAt(r.headers, "content-length", l) && Number(r.headers[l].1) == n
    ensures n > sc.clientBodySize.1 ==> Parse(contexts, Written(r)) == Done(Failed(413))
    ensures |r.body| < n <= sc.clientBodySize.1 ==> Parse(contexts, Written(r)).Wait?
    ensures n <= sc.clientBodySize.1 && n <= |r.body| ==>
      Parse(contexts, Written(r)) == Done(Complete(r.(body := r.body[..n]), sc))
  {
    WrittenHeaders(contexts, r);
    LengthIff(r.headers, n);
  }

  /**
   Any request that was read completely, from any reads, can be written down and is read back from that, in
   any reads again.
   */
  lemma CompleteRequestRoundTrip(contexts: seq<ServerContext>, text: string, pieces: seq<string>)
    requires OutcomeOf(Parse(contexts, text)).Complete?
    requires var o := Parse(contexts, text).outcome;
             o.request.verb != Error && Concat(pieces) == Written(o.request)
    requires AllNulFree(pieces)
    ensures Run(contexts, INITIAL, pieces) == Parse(contexts, text).outcome
  {
    var o := Parse(contexts, text).outcome;
    ParsedIsValid(contexts, text);
    WrittenIsParsed(contexts, o.request, o.server);
    CutsDoNotMatter(contexts, pieces, pieces);
  }
}
