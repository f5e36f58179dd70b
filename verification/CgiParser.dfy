/** The incremental parser of CGI replies; compare section 6 of RFC 3875. */
module CgiParsing {
  import opened Text
  import Paths

  const MAX_HEADER_SIZE := 2048

  datatype ResponseType =
    ToBeDetermined | ClientRedirectDocument | Document | LocalRedirect | ClientRedirect | ErrorType

  type HeaderVec = seq<(string, string)>

  // ---------------------------------------------------------------------------------------------
  // Header lines

  function Upper(s: string): string {
    seq(|s|, i requires 0 <= i < |s| => ToUpper(s[i]))
  }

  /** The name in upper case and the value without the space around it; `None` stands for the error response. */
  function Header(line: string): Option<(string, string)> {
    match Colon(line)
    case None => None
    case Some(p) =>
      var value := Trim(line[p + 1..]);
      if p <= 1 || value == "" then None else Some((Upper(line[..p]), value))
  }

  /** The first header with this name, or a pair of empty strings. */
  function Find(headers: HeaderVec, key: string): (string, string) {
    if headers == [] then ("", "") else if headers[0].0 == key then headers[0] else Find(headers[1..], key)
  }

  /** The headers in `lines` behind those in `done`; no name may occur twice. */
  function Headers(done: HeaderVec, lines: seq<string>): Option<HeaderVec>
    decreases lines
  {
    if lines == [] then Some(done)
    else match Header(lines[0])
         case None => None
         case Some(h) => if Find(done, h.0).0 == h.0 then None else Headers(done + [h], lines[1..])
  }

  // ---------------------------------------------------------------------------------------------
  // The class of a reply

  predicate IsAlnum(c: char) {
    IsDigit(c) || IsAlpha(c)
  }

  predicate IsValidStatusCode(s: string) {
    |s| >= 3 && IsAlnum(s[0]) && IsAlnum(s[1]) && IsAlnum(s[2])
  }

  predicate Exists(headers: HeaderVec, key: string) {
    Find(headers, key).0 != ""
  }

  predicate IsDocument(headers: HeaderVec) {
    && headers != [] && Exists(headers, "CONTENT-TYPE")
    && (Exists(headers, "STATUS") ==> IsValidStatusCode(Find(headers, "STATUS").1))
  }

  predicate IsAbsoluteUri(uri: string) {
    match Colon(uri)
    case None => false
    case Some(p) => uri[..p] in {"https", "http"} && "//" <= uri[p + 1..]
  }

  predicate IsClientRedirect(headers: HeaderVec) {
    headers != [] && Exists(headers, "LOCATION") && IsAbsoluteUri(Find(headers, "LOCATION").1)
  }

  predicate IsClientRedirectWithDocument(headers: HeaderVec) {
    && |headers| >= 3 && Exists(headers, "STATUS") && Exists(headers, "CONTENT-TYPE")
    && Find(headers, "STATUS").1 == "302 Found" && IsClientRedirect(headers)
  }

  /** Whether there is a body is asked when the header has been read, not when the reply has ended. */
  predicate IsLocalRedirect(headers: HeaderVec, body: string) {
    && |headers| == 1 && body == "" && headers[0].0 == "LOCATION"
    && Paths.Normalized(headers[0].1).Some? && "/" <= headers[0].1
  }

  function Class(headers: HeaderVec, body: string): Option<ResponseType> {
    if Exists(headers, "CONTENT-LENGTH") || Exists(headers, "CONNECTION") then None
    else if IsClientRedirectWithDocument(headers) then Some(ClientRedirectDocument)
    else if IsDocument(headers) then Some(Document)
    else if IsLocalRedirect(headers, body) then Some(LocalRedirect)
    else if IsClientRedirect(headers) then Some(ClientRedirect)
    else None
  }

  // ---------------------------------------------------------------------------------------------
  // The state machine

  datatype State = State(
    inHeader: bool,
    header: string,
    newLine: string,
    body: string,
    headers: HeaderVec,
    kind: ResponseType)

  const INITIAL := State(true, "", "", "", [], ToBeDetermined)

  predicate EndsCRLF(s: string, i: nat) {
    AtNL(s, i) && AtNL(s, i + 2)
  }

  predicate EndsLF(s: string, i: nat) {
    i + 1 < |s| && s[i] == '\n' && s[i + 1] == '\n'
  }

  /** `s.find("\r\n\r\n", from)` */
  function FindCRLF(s: string, from: nat): (r: Option<nat>)
    ensures r.Some? ==> from <= r.value && r.value + 4 <= |s|
    decreases |s| - from
  {
    if from >= |s| then None else if EndsCRLF(s, from) then Some(from) else FindCRLF(s, from + 1)
  }

  /** `s.find("\n\n", from)` */
  function FindLF(s: string, from: nat): (r: Option<nat>)
    ensures r.Some? ==> from <= r.value && r.value + 2 <= |s|
    decreases |s| - from
  {
    if from >= |s| then None else if EndsLF(s, from) then Some(from) else FindLF(s, from + 1)
  }

  lemma {:induction false} FirstCRLF(s: string, from: nat)
    ensures match FindCRLF(s, from)
            case Some(p) => from <= p && EndsCRLF(s, p) && forall i: nat | from <= i < p :: !EndsCRLF(s, i)
            case None => forall i: nat | from <= i :: !EndsCRLF(s, i)
    decreases |s| - from
  {
    if from < |s| && !EndsCRLF(s, from) {
      FirstCRLF(s, from + 1);
    }
  }

  lemma {:induction false} FirstLF(s: string, from: nat)
    ensures match FindLF(s, from)
            case Some(p) => from <= p && EndsLF(s, p) && forall i: nat | from <= i < p :: !EndsLF(s, i)
            case None => forall i: nat | from <= i :: !EndsLF(s, i)
    decreases |s| - from
  {
    if from < |s| && !EndsLF(s, from) {
      FirstLF(s, from + 1);
    }
  }

  lemma FirstEnds(s: string)
    ensures match FindCRLF(s, 0)
            case Some(p) => EndsCRLF(s, p) && forall i: nat | i < p :: !EndsCRLF(s, i)
            case None => forall i: nat :: !EndsCRLF(s, i)
    ensures match FindLF(s, 0)
            case Some(p) => EndsLF(s, p) && forall i: nat | i < p :: !EndsLF(s, i)
            case None => forall i: nat :: !EndsLF(s, i)
  {
    FirstCRLF(s, 0);
    FirstLF(s, 0);
  }

  /** Where the header ends, and its line end: a double CRLF anywhere goes before a double LF. */
  function HeaderEnd(s: string): Option<(nat, string)> {
    match FindCRLF(s, 0)
    case Some(p) => Some((p, "\r\n"))
    case None =>
      match FindLF(s, 0)
      case Some(p) => Some((p, "\n"))
      case None => None
  }

  /** The first double CRLF ends the header, or, if there is none, the first double LF. */
  lemma HeaderEndMeans(s: string, p: nat)
    ensures HeaderEnd(s) == Some((p, "\r\n")) <==> EndsCRLF(s, p) && forall i: nat | i < p :: !EndsCRLF(s, i)
    ensures HeaderEnd(s) == Some((p, "\n")) <==>
      (forall i: nat :: !EndsCRLF(s, i)) && EndsLF(s, p) && forall i: nat | i < p :: !EndsLF(s, i)
    ensures HeaderEnd(s) == None <==> forall i: nat :: !EndsCRLF(s, i) && !EndsLF(s, i)
  {
    FirstEnds(s);
    assert |"\r\n"| != |"\n"|;
  }

  /** The header has ended. */
  function EndHeader(header: string, newLine: string, body: string): Option<State> {
    match Headers([], Paths.Split(header, newLine))
    case None => None
    case Some(headers) =>
      match Class(headers, body)
      case None => None
      case Some(t) => Some(State(false, header, newLine, body, headers, t))
  }

  lemma HeaderEndFits(s: string)
    requires HeaderEnd(s).Some?
    ensures var (p, newLine) := HeaderEnd(s).value;
            p + 2 * |newLine| <= |s| && s[p..p + 2 * |newLine|] == newLine + newLine
  {
    FirstEnds(s);
  }

  /** One call; `None` stands for the error response 500. */
  function Step(st: State, s: string): Option<State> {
    if s == "" && st.kind == ToBeDetermined then None
    else if !st.inHeader then Some(st.(body := st.body + s))
    else
      var header := st.header + s;
      match HeaderEnd(header)
      case None => if |header| > MAX_HEADER_SIZE then None else Some(st.(header := header))
      case Some((p, newLine)) =>
        HeaderEndFits(header);
        EndHeader(header[..p], newLine, header[p + 2 * |newLine|..])
  }

  function Run(st: State, pieces: seq<string>): Option<State>
    decreases pieces
  {
    if pieces == [] then Some(st)
    else match Step(st, pieces[0])
         case None => None
         case Some(next) => Run(next, pieces[1..])
  }

  // ---------------------------------------------------------------------------------------------
  // The type of the reply

  /** The type is open as long as the header is, and never that of an error. */
  predicate Proper(st: State) {
    (st.inHeader <==> st.kind == ToBeDetermined) && st.kind != ErrorType
  }

  /**
   A parser whose type is open refuses empty output; once it has settled the type, it refuses nothing and
   keeps to that type.
   */
  lemma StepIsProper(st: State, s: string)
    requires Proper(st)
    ensures Step(st, s).Some? ==> Proper(Step(st, s).value)
    ensures st.kind == ToBeDetermined && s == "" ==> Step(st, s).None?
    ensures st.kind != ToBeDetermined ==> Step(st, s).Some? && Step(st, s).value.kind == st.kind
  {
  }

  lemma {:induction false} RunIsProper(st: State, pieces: seq<string>)
    requires Proper(st) && Run(st, pieces).Some?
    ensures Proper(Run(st, pieces).value)
    ensures st.kind != ToBeDetermined ==> Run(st, pieces).value.kind == st.kind
    decreases pieces
  {
    if pieces != [] {
      StepIsProper(st, pieces[0]);
      RunIsProper(Step(st, pieces[0]).value, pieces[1..]);
    }
  }

  // ---------------------------------------------------------------------------------------------
  // No byte is lost

  /** The input that a state stands for. */
  function Input(st: State): string {
    if st.inHeader then st.header else st.header + st.newLine + st.newLine + st.body
  }

  lemma CutOut(s: string, p: nat, newLine: string)
    requires p + 2 * |newLine| <= |s| && s[p..p + 2 * |newLine|] == newLine + newLine
    ensures s[..p] + newLine + newLine + s[p + 2 * |newLine|..] == s
  {
    assert s == s[..p] + s[p..p + 2 * |newLine|] + s[p + 2 * |newLine|..];
    assert s[..p] + (newLine + newLine) == s[..p] + newLine + newLine;
  }

  lemma StepKeepsInput(st: State, s: string)
    requires Step(st, s).Some?
    ensures Input(Step(st, s).value) == Input(st) + s
  {
    if st.inHeader {
      var header := st.header + s;
      if HeaderEnd(header).Some? {
        var (p, newLine) := HeaderEnd(header).value;
        HeaderEndFits(header);
        CutOut(header, p, newLine);
      }
    } else {
      Associative(st.header + st.newLine + st.newLine, st.body, s);
    }
  }

  /** Header, twice its line end, and body are together all the input, however it came. */
  lemma {:induction false} RunKeepsInput(st: State, pieces: seq<string>)
    requires Run(st, pieces).Some?
    ensures Input(Run(st, pieces).value) == Input(st) + Concat(pieces)
    decreases pieces
  {
    if pieces == [] {
      assert Input(st) + "" == Input(st);
    } else {
      StepKeepsInput(st, pieces[0]);
      RunKeepsInput(Step(st, pieces[0]).value, pieces[1..]);
      Associative(Input(st), pieces[0], Concat(pieces[1..]));
    }
  }

  // ---------------------------------------------------------------------------------------------
  // The cuts

  /** A double LF before `p`. */
  ghost predicate HasDoubleLF(text: string, p: nat) {
    exists i: nat :: i < p && EndsLF(text, i)
  }

  /** No double LF is in front of a double CRLF that ends the header. */
  ghost predicate OneEnd(text: string, p: nat, newLine: string) {
    newLine == "\r\n" ==> !HasDoubleLF(text, p)
  }

  /** Until its end has been read, a header is waited for. */
  lemma HeaderIsWaitedFor(text: string, p: nat, newLine: string, n: nat)
    requires HeaderEnd(text) == Some((p, newLine)) && OneEnd(text, p, newLine)
    requires n < p + 2 * |newLine| && n <= |text|
    ensures HeaderEnd(text[..n]) == None
  {
    var read := text[..n];
    FirstEnds(text);
    FirstEnds(read);
    forall i: nat | i < n ensures !EndsCRLF(read, i) && !EndsLF(read, i) {
      assert EndsCRLF(read, i) ==> EndsCRLF(text, i);
      assert EndsLF(read, i) ==> EndsLF(text, i);
    }
  }

  lemma HeaderIsFound(text: string, p: nat, newLine: string, n: nat)
    requires HeaderEnd(text) == Some((p, newLine)) && p + 2 * |newLine| <= n <= |text|
    ensures HeaderEnd(text[..n]) == Some((p, newLine))
  {
    var read := text[..n];
    FirstEnds(text);
    FirstEnds(read);
    forall i: nat ensures EndsCRLF(read, i) ==> EndsCRLF(text, i) {}
    forall i: nat ensures EndsLF(read, i) ==> EndsLF(text, i) {}
    if newLine == "\r\n" {
      assert EndsCRLF(read, p);
    } else {
      assert FindCRLF(read, 0) == None && EndsLF(read, p);
    }
  }

  lemma NotFoundInOne(headers: HeaderVec, key: string)
    ensures |headers| == 1 && headers[0].0 != key ==> Find(headers, key) == ("", "")
  {
    if |headers| == 1 {
      assert headers[1..] == [];
    }
  }

  /** With a content type, the class does not depend on whether a body has come along. */
  lemma ClassIgnoresBody(headers: HeaderVec, a: string, b: string)
    requires Exists(headers, "CONTENT-TYPE")
    ensures Class(headers, a) == Class(headers, b)
  {
    assert "LOCATION"[0] == 'L' && "CONTENT-TYPE"[0] == 'C';
    NotFoundInOne(headers, "CONTENT-TYPE");
  }

  /** If the header can be read at all, it has a content type. */
  ghost predicate HasType(header: string, newLine: string) {
    match Headers([], Paths.Split(header, newLine))
    case None => true
    case Some(headers) => Exists(headers, "CONTENT-TYPE")
  }

  function WithBody(st: Option<State>, more: string): Option<State> {
    match st case None => None case Some(s) => Some(s.(body := s.body + more))
  }

  lemma EndHeaderWithBody(header: string, newLine: string, body: string, more: string)
    requires HasType(header, newLine)
    ensures EndHeader(header, newLine, body + more) == WithBody(EndHeader(header, newLine, body), more)
  {
    var headers := Headers([], Paths.Split(header, newLine));
    if headers.Some? {
      ClassIgnoresBody(headers.value, body, body + more);
    }
  }

  lemma {:induction false} RunInBody(st: State, pieces: seq<string>)
    requires !st.inHeader && AllNonEmpty(pieces)
    ensures Run(st, pieces) == WithBody(Some(st), Concat(pieces))
    decreases pieces
  {
    if pieces == [] {
      assert st.body + "" == st.body;
    } else {
      RunInBody(st.(body := st.body + pieces[0]), pieces[1..]);
      Associative(st.body, pieces[0], Concat(pieces[1..]));
    }
  }

  /** What a reply comes to whose header ends at `p`. */
  function Reply(text: string, p: nat, newLine: string): Option<State>
    requires p + 2 * |newLine| <= |text|
  {
    EndHeader(text[..p], newLine, text[p + 2 * |newLine|..])
  }

  lemma StepAtEnd(header: string, piece: string, text: string, p: nat, newLine: string)
    requires piece != "" && header + piece == text && HeaderEnd(text) == Some((p, newLine))
    ensures p + 2 * |newLine| <= |text|
    ensures Step(INITIAL.(header := header), piece) == Reply(text, p, newLine)
  {
    HeaderEndFits(text);
  }

  /** The parts of `text` when it is cut at `n` and `m`, and its header with the line ends stops at `end`. */
  lemma Parts(text: string, n: nat, p: nat, end: nat, m: nat)
    requires n < m && p <= end <= m <= |text|
    ensures text[n..m] != "" && text[..n] + text[n..m] == text[..m]
    ensures text[..m][..p] == text[..p] && text[..m][end..] == text[end..m]
    ensures text[end..m] + text[m..] == text[end..]
  {
  }

  lemma StepOverEnd(text: string, p: nat, newLine: string, n: nat, m: nat)
    requires HeaderEnd(text) == Some((p, newLine)) && HasType(text[..p], newLine)
    requires n < p + 2 * |newLine| <= m <= |text|
    ensures WithBody(Step(INITIAL.(header := text[..n]), text[n..m]), text[m..]) == Reply(text, p, newLine)
  {
    var end := p + 2 * |newLine|;
    Parts(text, n, p, end, m);
    HeaderIsFound(text, p, newLine, m);
    StepAtEnd(text[..n], text[n..m], text[..m], p, newLine);
    EndHeaderWithBody(text[..p], newLine, text[end..m], text[m..]);
  }

  lemma {:induction false} RunInHeader(text: string, p: nat, newLine: string, n: nat, pieces: seq<string>)
    requires HeaderEnd(text) == Some((p, newLine)) && OneEnd(text, p, newLine)
    requires p + 2 * |newLine| - 1 <= MAX_HEADER_SIZE && n < p + 2 * |newLine| <= |text|
    requires Concat(pieces) == text[n..] && AllNonEmpty(pieces) && HasType(text[..p], newLine)
    ensures Run(INITIAL.(header := text[..n]), pieces) == Reply(text, p, newLine)
    decreases pieces
  {
    var st := INITIAL.(header := text[..n]);
    FirstPiece(text, n, pieces);
    var m := n + |pieces[0]|;
    if m >= p + 2 * |newLine| {
      StepOverEnd(text, p, newLine, n, m);
      StepAndBody(st, pieces, text[m..], Reply(text, p, newLine));
    } else {
      HeaderIsWaitedFor(text, p, newLine, m);
      RunInHeader(text, p, newLine, m, pieces[1..]);
    }
  }

  /** If the first piece has ended the header, the others are the rest of the body. */
  lemma StepAndBody(st: State, pieces: seq<string>, more: string, reply: Option<State>)
    requires pieces != [] && AllNonEmpty(pieces) && Concat(pieces[1..]) == more
    requires WithBody(Step(st, pieces[0]), more) == reply
    requires Step(st, pieces[0]).Some? ==> !Step(st, pieces[0]).value.inHeader
    ensures Run(st, pieces) == reply
  {
    if Step(st, pieces[0]).Some? {
      RunInBody(Step(st, pieces[0]).value, pieces[1..]);
    }
  }

  lemma FirstPiece(text: string, n: nat, pieces: seq<string>)
    requires n < |text| && Concat(pieces) == text[n..] && AllNonEmpty(pieces)
    ensures pieces != [] && pieces[0] != "" && n + |pieces[0]| <= |text|
    ensures var m := n + |pieces[0]|;
            text[n..m] == pieces[0] && text[..n] + pieces[0] == text[..m] && text[m..] == Concat(pieces[1..])
  {
    var piece, later := pieces[0], Concat(pieces[1..]);
    assert text == text[..n] + (piece + later);
  }

  lemma FirstOfTwo(a: string, b: string)
    ensures Run(INITIAL, [a, b]) == match Step(INITIAL, a) case None => None case Some(next) => Run(next, [b])
  {
    assert [a, b][1..] == [b];
  }

  /** All but the last byte of a double CRLF, with a double LF in front of it. */
  lemma DoubleLFFound(text: string, p: nat)
    requires HeaderEnd(text) == Some((p, "\r\n")) && HasDoubleLF(text, p)
    ensures p + 4 <= |text| && FindLF(text, 0).Some? && FindLF(text, 0).value < p
    ensures HeaderEnd(text[..p + 3]) == Some((FindLF(text, 0).value, "\n"))
  {
    var first := text[..p + 3];
    FirstEnds(text);
    FirstEnds(first);
    var i: nat :| i < p && EndsLF(text, i);
    forall j: nat ensures !EndsCRLF(first, j) {
      assert EndsCRLF(first, j) ==> j < p && EndsCRLF(text, j);
    }
    var q := FindLF(text, 0).value;
    assert EndsLF(first, q);
    forall j: nat | j < q ensures !EndsLF(first, j) {
      assert EndsLF(first, j) ==> EndsLF(text, j);
    }
  }

  lemma LineEndIsKept(st: State, s: string, later: string)
    requires st.inHeader && s != "" && later != ""
    requires HeaderEnd(st.header + s).Some? && Step(st, s).Some?
    ensures Run(Step(st, s).value, [later]).Some?
    ensures Run(Step(st, s).value, [later]).value.newLine == HeaderEnd(st.header + s).value.1
  {
    RunInBody(Step(st, s).value, [later]);
  }

  lemma LineEndOfReply(text: string, p: nat)
    requires p + 4 <= |text| && Reply(text, p, "\r\n").Some?
    ensures Reply(text, p, "\r\n").value.newLine != "\n"
  {
    assert |"\n"| != |"\r\n"|;
  }

  lemma DoubleLFMatters(text: string, p: nat, n: nat)
    requires HeaderEnd(text) == Some((p, "\r\n")) && n + 1 == p + 4 <= |text| && Reply(text, p, "\r\n").Some?
    requires HasDoubleLF(text, p)
    ensures Run(INITIAL, [text[..n], text[n..]]) != Reply(text, p, "\r\n")
  {
    var first, second := text[..n], text[n..];
    FirstOfTwo(first, second);
    assert "" + first == first;
    DoubleLFFound(text, p);
    LineEndOfReply(text, p);
    if Step(INITIAL, first).Some? {
      LineEndIsKept(INITIAL, first, second);
    }
  }

  lemma TooLongMatters(text: string, p: nat, newLine: string, n: nat)
    requires HeaderEnd(text) == Some((p, newLine)) && OneEnd(text, p, newLine)
    requires MAX_HEADER_SIZE < n < p + 2 * |newLine| && n <= |text|
    ensures Run(INITIAL, [text[..n], text[n..]]) == None
  {
    var first := text[..n];
    FirstOfTwo(first, text[n..]);
    assert "" + first == first;
    HeaderIsWaitedFor(text, p, newLine, n);
  }

  /** Cutting a reply behind all but the last byte of what ends its header does not go unnoticed. */
  lemma CutThatMatters(text: string, p: nat, newLine: string, n: nat)
    requires HeaderEnd(text) == Some((p, newLine)) && n + 1 == p + 2 * |newLine| <= |text|
    requires Reply(text, p, newLine).Some? && (n > MAX_HEADER_SIZE || !OneEnd(text, p, newLine))
    ensures Run(INITIAL, [text[..n], text[n..]]) != Reply(text, p, newLine)
  {
    if OneEnd(text, p, newLine) {
      TooLongMatters(text, p, newLine, n);
    } else {
      DoubleLFMatters(text, p, n);
    }
  }

  /** A way of cutting `text`. */
  ghost predicate IsCut(pieces: seq<string>, text: string) {
    AllNonEmpty(pieces) && Concat(pieces) == text
  }

  /** The cuts of a reply do not matter. */
  ghost predicate CutsDoNotMatter(text: string) {
    forall pieces | IsCut(pieces, text) :: Run(INITIAL, pieces) == Run(INITIAL, [text])
  }

  lemma WholeReply(text: string, p: nat, newLine: string)
    requires HeaderEnd(text) == Some((p, newLine)) && HasType(text[..p], newLine)
    ensures p + 2 * |newLine| <= |text| && Run(INITIAL, [text]) == Reply(text, p, newLine)
  {
    HeaderEndFits(text);
    StepOverEnd(text, p, newLine, 0, |text|);
    OneOfOne(text);
    WithNothing(Step(INITIAL, text));
    assert text[..0] == "" && text[0..|text|] == text && text[|text|..] == "";
  }

  lemma OneOfOne(a: string)
    ensures Run(INITIAL, [a]) == Step(INITIAL, a)
  {
    assert |[a][1..]| == 0;
  }

  lemma WithNothing(st: Option<State>)
    ensures WithBody(st, "") == st
  {
    if st.Some? {
      assert st.value.body + "" == st.value.body;
    }
  }

  /**
   A reply with a content type that is accepted at once may be cut anywhere exactly if its header is short
   enough and, if it ends with a double CRLF, has no double LF.
   */
  lemma CutsDoNotMatterIff(text: string, p: nat, newLine: string)
    requires HeaderEnd(text) == Some((p, newLine)) && HasType(text[..p], newLine) && Run(INITIAL, [text]).Some?
    ensures CutsDoNotMatter(text) <==> p + 2 * |newLine| - 1 <= 2048 && OneEnd(text, p, newLine)
  {
    WholeReply(text, p, newLine);
    if p + 2 * |newLine| - 1 <= MAX_HEADER_SIZE && OneEnd(text, p, newLine) {
      forall pieces | IsCut(pieces, text)
        ensures Run(INITIAL, pieces) == Run(INITIAL, [text])
      {
        assert text[..0] == "" && text[0..] == text;
        RunInHeader(text, p, newLine, 0, pieces);
      }
    } else {
      var n := p + 2 * |newLine| - 1;
      CutThatMatters(text, p, newLine, n);
      TwoPieces(text, n);
      OneCutMatters(text, [text[..n], text[n..]]);
    }
  }

  lemma TwoPieces(text: string, n: nat)
    requires 0 < n < |text|
    ensures IsCut([text[..n], text[n..]], text)
  {
    ConcatTwo(text[..n], text[n..]);
    assert text[..n] + text[n..] == text;
  }

  lemma OneCutMatters(text: string, pieces: seq<string>)
    requires IsCut(pieces, text) && Run(INITIAL, pieces) != Run(INITIAL, [text])
    ensures !CutsDoNotMatter(text)
  {
  }

  /** The header that a double LF in front of the double CRLF ends, for some cuts, can be read. */
  ghost predicate ReadableEarlier(text: string, p: nat, newLine: string) {
    !OneEnd(text, p, newLine) &&
    match FindLF(text, 0) case None => false case Some(q) => EndHeader(text[..q], "\n", text[q + 2..]).Some?
  }

  /** Where the header ends in what has been read up to `n`. */
  lemma EndOfPrefix(text: string, p: nat, newLine: string, n: nat)
    requires HeaderEnd(text) == Some((p, newLine)) && n <= |text|
    ensures var end := HeaderEnd(text[..n]);
            || end == None || end == Some((p, newLine))
            || (!OneEnd(text, p, newLine) && FindLF(text, 0).Some? && end == Some((FindLF(text, 0).value, "\n")))
  {
    if n >= p + 2 * |newLine| {
      HeaderIsFound(text, p, newLine, n);
    } else if OneEnd(text, p, newLine) {
      HeaderIsWaitedFor(text, p, newLine, n);
    } else {
      DoubleLFFound(text, p);
      EarlierEnd(text, p, n);
    }
  }

  lemma EarlierEnd(text: string, p: nat, n: nat)
    requires HeaderEnd(text) == Some((p, "\r\n")) && n < p + 4 && n <= |text| && FindLF(text, 0).Some?
    ensures HeaderEnd(text[..n]) == None || HeaderEnd(text[..n]) == Some((FindLF(text, 0).value, "\n"))
  {
    var read, q := text[..n], FindLF(text, 0).value;
    FirstEnds(text);
    FirstEnds(read);
    forall j: nat ensures !EndsCRLF(read, j) {
      assert EndsCRLF(read, j) ==> j < p && EndsCRLF(text, j);
    }
    forall j: nat | j < q ensures !EndsLF(read, j) {
      assert EndsLF(read, j) ==> EndsLF(text, j);
    }
    if q + 2 <= n {
      assert EndsLF(read, q);
    } else {
      assert forall j: nat | EndsLF(read, j) :: j + 2 <= n && j < q;
    }
  }

  /** A header that cannot be read is refused with whatever part of the body has come. */
  lemma RefusedWithAnyBody(header: string, newLine: string, a: string, b: string)
    requires HasType(header, newLine) && EndHeader(header, newLine, a) == None
    ensures EndHeader(header, newLine, b) == None
  {
    var headers := Headers([], Paths.Split(header, newLine));
    if headers.Some? {
      ClassIgnoresBody(headers.value, a, b);
    }
  }

  /** The step with which the end of a header is read, wherever that is. */
  lemma StepOfPrefix(text: string, n: nat, m: nat, q: nat, lineEnd: string)
    requires n < m <= |text| && HeaderEnd(text[..m]) == Some((q, lineEnd))
    ensures q + 2 * |lineEnd| <= m
    ensures Step(INITIAL.(header := text[..n]), text[n..m]) == EndHeader(text[..q], lineEnd, text[q + 2 * |lineEnd|..m])
  {
    HeaderEndFits(text[..m]);
    StepAtEnd(text[..n], text[n..m], text[..m], q, lineEnd);
    Parts(text, n, q, q + 2 * |lineEnd|, m);
  }

  lemma RefusedPrefix(text: string, n: nat, m: nat, q: nat, lineEnd: string)
    requires n < m <= |text| && HeaderEnd(text[..m]) == Some((q, lineEnd)) && q + 2 * |lineEnd| <= |text|
    requires HasType(text[..q], lineEnd) && EndHeader(text[..q], lineEnd, text[q + 2 * |lineEnd|..]) == None
    ensures Step(INITIAL.(header := text[..n]), text[n..m]) == None
  {
    StepOfPrefix(text, n, m, q, lineEnd);
    RefusedWithAnyBody(text[..q], lineEnd, text[q + 2 * |lineEnd|..], text[q + 2 * |lineEnd|..m]);
  }

  lemma WaitingPrefix(text: string, n: nat, m: nat)
    requires n < m <= |text| && HeaderEnd(text[..m]) == None
    ensures Step(INITIAL.(header := text[..n]), text[n..m]) ==
            if m > MAX_HEADER_SIZE then None else Some(INITIAL.(header := text[..m]))
  {
    assert text[..n] + text[n..m] == text[..m];
  }

  /** Then no beginning of the text is accepted, so nothing is, however it comes. */
  lemma {:induction false} NeverAccepted(text: string, p: nat, newLine: string, n: nat, pieces: seq<string>)
    requires HeaderEnd(text) == Some((p, newLine)) && p + 2 * |newLine| <= |text| && HasType(text[..p], newLine)
    requires FindLF(text, 0).Some? ==> HasType(text[..FindLF(text, 0).value], "\n")
    requires Reply(text, p, newLine) == None && !ReadableEarlier(text, p, newLine)
    requires n < p + 2 * |newLine| && Concat(pieces) == text[n..] && AllNonEmpty(pieces)
    ensures Run(INITIAL.(header := text[..n]), pieces) == None
    decreases pieces
  {
    FirstPiece(text, n, pieces);
    var m := n + |pieces[0]|;
    EndOfPrefix(text, p, newLine, m);
    match HeaderEnd(text[..m])
    case None =>
      if m >= p + 2 * |newLine| { HeaderIsFound(text, p, newLine, m); }
      WaitingPrefix(text, n, m);
      if m <= MAX_HEADER_SIZE { NeverAccepted(text, p, newLine, m, pieces[1..]); }
    case Some((q, lineEnd)) =>
      RefusedPrefix(text, n, m, q, lineEnd);
  }

  /**
   A reply with a content type that is refused at once is refused however it is cut exactly if it has no double
   LF in front of its double CRLF that ends a header which can be read.
   */
  lemma RefusedHoweverCutIff(text: string, p: nat, newLine: string)
    requires HeaderEnd(text) == Some((p, newLine)) && HasType(text[..p], newLine) && Run(INITIAL, [text]) == None
    requires FindLF(text, 0).Some? ==> HasType(text[..FindLF(text, 0).value], "\n")
    ensures CutsDoNotMatter(text) <==> !ReadableEarlier(text, p, newLine)
  {
    WholeReply(text, p, newLine);
    if !ReadableEarlier(text, p, newLine) {
      forall pieces | IsCut(pieces, text) ensures Run(INITIAL, pieces) == Run(INITIAL, [text]) {
        assert text[..0] == "" && text[0..] == text;
        NeverAccepted(text, p, newLine, 0, pieces);
      }
    } else {
      DoubleLFFound(text, p);
      AcceptedPrefix(text, p + 3, FindLF(text, 0).value, "\n");
      TwoPieces(text, p + 3);
      OneCutMatters(text, [text[..p + 3], text[p + 3..]]);
    }
  }

  lemma AcceptedFirst(first: string, second: string)
    requires Step(INITIAL, first).Some? && !Step(INITIAL, first).value.inHeader && second != ""
    ensures Run(INITIAL, [first, second]).Some?
  {
    FirstOfTwo(first, second);
    RunInBody(Step(INITIAL, first).value, [second]);
  }

  lemma AcceptedPrefix(text: string, n: nat, q: nat, lineEnd: string)
    requires 0 < n < |text| && HeaderEnd(text[..n]) == Some((q, lineEnd)) && q + 2 * |lineEnd| <= |text|
    requires HasType(text[..q], lineEnd) && EndHeader(text[..q], lineEnd, text[q + 2 * |lineEnd|..]).Some?
    ensures Run(INITIAL, [text[..n], text[n..]]).Some?
  {
    StepOfPrefix(text, 0, n, q, lineEnd);
    assert text[..0] == "" && text[0..n] == text[..n];
    if EndHeader(text[..q], lineEnd, text[q + 2 * |lineEnd|..n]) == None {
      RefusedWithAnyBody(text[..q], lineEnd, text[q + 2 * |lineEnd|..n], text[q + 2 * |lineEnd|..]);
    }
    AcceptedFirst(text[..n], text[n..]);
  }

  // ---------------------------------------------------------------------------------------------
  // The object

  method FindByKey(headers: HeaderVec, key: string) returns (h: (string, string))
    ensures h == Find(headers, key)
  {
    for i := 0 to |headers|
      invariant Find(headers[i..], key) == Find(headers, key)
    {
      assert headers[i..][1..] == headers[i + 1..];
      if headers[i].0 == key { return headers[i]; }
    }
    return ("", "");
  }

  /** The first place from `from` on that has no space. */
  method SkipSpaceFrom(s: string, from: nat) returns (i: nat)
    requires from <= |s|
    ensures from <= i <= |s| && s[i..] == SkipSpace(s[from..])
  {
    i := from;
    while i < |s| && IsSpace(s[i])
      invariant from <= i <= |s| && SkipSpace(s[i..]) == SkipSpace(s[from..])
    {
      assert s[i..][1..] == s[i + 1..];
      i := i + 1;
    }
  }

  /** The last place from `from` on that has no space. */
  method SkipSpaceFromEnd(s: string, from: nat) returns (end: nat)
    requires from < |s| && !IsSpace(s[from])
    ensures from <= end < |s| && s[from..end + 1] == TrimRight(s[from..])
  {
    end := |s| - 1;
    assert s[from..end + 1] == s[from..];
    while end > 0 && IsSpace(s[end])
      invariant from <= end < |s| && TrimRight(s[from..end + 1]) == TrimRight(s[from..])
    {
      assert s[from..end + 1][..end - from] == s[from..end];
      end := end - 1;
    }
  }

  method MakeHeader(s: string) returns (h: Option<(string, string)>)
    ensures h == Header(s)
  {
    var colon := Colon(s);
    if colon.None? || colon.value <= 1 { return None; }
    var valStart := SkipSpaceFrom(s, colon.value + 1);
    SkipSpaceIsSuffix(s[colon.value + 1..]);
    if valStart == |s| { return None; }
    assert s[valStart..][0] == s[valStart];
    var end := SkipSpaceFromEnd(s, valStart);
    return Some((Upper(s[..colon.value]), s[valStart..end + 1]));
  }

  class CgiParser {
    var inHeader: bool
    var header: string
    var newLine: string
    var body: string
    var headerVec: HeaderVec
    var resType: ResponseType

    constructor ()
      ensures Current() == INITIAL
    {
      inHeader, header, newLine, body, headerVec, resType := true, "", "", "", [], ToBeDetermined;
    }

    ghost function Current(): State
      reads this
    {
      State(inHeader, header, newLine, body, headerVec, resType)
    }

    /** Says whether it returned without throwing. */
    method Parse(s: string) returns (ok: bool)
      requires inHeader ==> headerVec == [] && resType == ToBeDetermined
      modifies this
      ensures ok <==> old(Step(Current(), s)).Some?
      ensures ok ==> Current() == old(Step(Current(), s)).value
      ensures !ok ==> resType in {ToBeDetermined, ErrorType}
    {
      if s == "" && resType == ToBeDetermined { return false; }
      if inHeader {
        header := header + s;
        var end := HeaderEnd(header);
        if end.Some? {
          HeaderEndFits(header);
          ok := EndOfHeader(end.value.0, end.value.1);
          return;
        }
        return |header| <= MAX_HEADER_SIZE;
      }
      body := body + s;
      return true;
    }

    /** The header ends at `p`: body and header part, and the header is parsed and classified. */
    method EndOfHeader(p: nat, lineEnd: string) returns (ok: bool)
      requires headerVec == [] && p + 2 * |lineEnd| <= |header|
      modifies this
      ensures var st := EndHeader(old(header)[..p], lineEnd, old(header)[p + 2 * |lineEnd|..]);
              (ok <==> st.Some?) && (ok ==> Current() == st.value)
      ensures !ok ==> resType in {old(resType), ErrorType}
    {
      newLine := lineEnd;
      body := header[p + 2 * |newLine|..];
      header := header[..p];
      inHeader := false;
      ok := ParseHeader();
      if ok { ok := ValidateHeader(); }
    }

    method ParseHeader() returns (ok: bool)
      requires headerVec == []
      modifies this`headerVec
      ensures ok <==> Headers([], Paths.Split(header, newLine)).Some?
      ensures ok ==> headerVec == Headers([], Paths.Split(header, newLine)).value
    {
      var lines := Paths.SplitWithMultipleSpecifier(header, newLine);
      for i := 0 to |lines|
        invariant Headers(headerVec, lines[i..]) == Headers([], lines)
      {
        assert lines[i..][1..] == lines[i + 1..];
        var p := MakeHeader(lines[i]);
        if p.None? { return false; }
        var found := FindByKey(headerVec, p.value.0);
        if found.0 == p.value.0 { return false; }
        headerVec := headerVec + [p.value];
      }
      return true;
    }

    method ValidateHeader() returns (ok: bool)
      modifies this`resType
      ensures ok <==> Class(headerVec, body).Some?
      ensures ok ==> resType == Class(headerVec, body).value
      ensures !ok ==> resType == ErrorType
    {
      var length := FindByKey(headerVec, "CONTENT-LENGTH");
      var connection := FindByKey(headerVec, "CONNECTION");
      if length.0 != "" || connection.0 != "" {
        resType := ErrorType;
        return false;
      }
      var localRedirect := LocalRedirectResponse();
      if IsClientRedirectWithDocument(headerVec) {
        resType := ClientRedirectDocument;
      } else if IsDocument(headerVec) {
        resType := Document;
      } else if localRedirect {
        resType := LocalRedirect;
      } else if IsClientRedirect(headerVec) {
        resType := ClientRedirect;
      } else {
        resType := ErrorType;
        return false;
      }
      return true;
    }

    method LocalRedirectResponse() returns (r: bool)
      ensures r == IsLocalRedirect(headerVec, body)
    {
      if |headerVec| != 1 || body != "" || headerVec[0].0 != "LOCATION" { return false; }
      var valid := Paths.IsValidPath(headerVec[0].1);
      return valid && headerVec[0].1 != "" && headerVec[0].1[0] == '/';
    }
  }

  // ---------------------------------------------------------------------------------------------
  // Headers written again

  function HeaderPairToStr(h: (string, string)): string {
    h.0 + ": " + h.1 + "\r\n"
  }

  function HeaderText(headers: HeaderVec): string {
    if headers == [] then "" else HeaderPairToStr(headers[0]) + HeaderText(headers[1..])
  }

  /** What the parser makes of a header line that has been split off at CR and LF. */
  predicate ValidHeader(h: (string, string)) {
    && |h.0| > 1 && Paths.NoneOf(h.0, ":\r\n") && (forall i | 0 <= i < |h.0| :: ToUpper(h.0[i]) == h.0[i])
    && IsTrimmed(h.1) && Paths.NoneOf(h.1, "\r\n")
  }

  lemma LineEndChars(c: char)
    ensures c in "\r\n" <==> c == '\r' || c == '\n'
    ensures c in ":\r\n" <==> c == ':' || c == '\r' || c == '\n'
  {
    assert "\r\n"[0] == '\r' && "\r\n"[1] == '\n';
    assert ":\r\n"[0] == ':' && ":\r\n"[1] == '\r' && ":\r\n"[2] == '\n';
  }

  lemma KeyIsValid(name: string)
    requires ':' !in name && Paths.NoneOf(name, "\r\n")
    ensures Paths.NoneOf(Upper(name), ":\r\n")
  {
    forall i | 0 <= i < |name| ensures Upper(name)[i] !in ":\r\n" {
      assert name[i] in name && name[i] !in "\r\n";
      LineEndChars(name[i]);
      LineEndChars(ToUpper(name[i]));
    }
  }

  lemma ValueIsValid(s: string)
    requires Paths.NoneOf(s, "\r\n") && Trim(s) != ""
    ensures IsTrimmed(Trim(s)) && Paths.NoneOf(Trim(s), "\r\n")
  {
    var t := SkipSpace(s);
    SkipSpaceIsSuffix(s);
    TrimRightIsPrefix(t);
    forall i | 0 <= i < |Trim(s)| ensures Trim(s)[i] !in "\r\n" {
      assert Trim(s)[i] == t[i] == s[i + |s| - |t|];
    }
  }

  lemma HeaderIsValid(line: string)
    requires Paths.NoneOf(line, "\r\n") && Header(line).Some?
    ensures ValidHeader(Header(line).value)
  {
    var p := Colon(line).value;
    var name, rest := line[..p], line[p + 1..];
    assert Paths.NoneOf(name, "\r\n") && Paths.NoneOf(rest, "\r\n");
    KeyIsValid(name);
    ValueIsValid(rest);
  }

  lemma HeaderIsReadAgain(h: (string, string))
    requires ValidHeader(h)
    ensures Header(h.0 + ": " + h.1) == Some(h)
  {
    var line := h.0 + ": " + h.1;
    assert ":\r\n"[0] == ':';
    assert line[|h.0|] == ':' && forall i | 0 <= i < |h.0| :: line[i] == h.0[i] && line[i] != ':';
    assert Colon(line) == Some(|h.0|);
    assert line[..|h.0|] == h.0 && Upper(h.0) == h.0;
    assert line[|h.0| + 1..][1..] == h.1 && line[|h.0| + 1..][0] == ' ';
    assert SkipSpace(h.1) == h.1 && TrimRight(h.1) == h.1;
  }

  function HeaderLines(headers: HeaderVec): seq<string> {
    seq(|headers|, i requires 0 <= i < |headers| => headers[i].0 + ": " + headers[i].1)
  }

  predicate AllValid(headers: HeaderVec) {
    forall i | 0 <= i < |headers| :: ValidHeader(headers[i])
  }

  lemma LineIsPiece(h: (string, string))
    requires ValidHeader(h)
    ensures Paths.Split(h.0 + ": " + h.1, "\r\n") == [h.0 + ": " + h.1]
  {
    var line := h.0 + ": " + h.1;
    assert "\r\n"[0] == '\r' && "\r\n"[1] == '\n' && ":\r\n"[1] == '\r' && ":\r\n"[2] == '\n';
    forall i | 0 <= i < |line| ensures line[i] !in "\r\n" {
      if i < |h.0| {
        assert line[i] == h.0[i];
      } else if i >= |h.0| + 2 {
        assert line[i] == h.1[i - |h.0| - 2];
      }
    }
    Paths.SplitStateOfPiece(line, "\r\n");
  }

  lemma CRLFSplits(line: string, rest: string)
    ensures Paths.Split(line + "\r\n" + rest, "\r\n") == Paths.Split(line, "\r\n") + Paths.Split(rest, "\r\n")
  {
    Paths.SplitAtSeparator(line, '\r', "\n" + rest, "\r\n");
    Paths.SplitAtSeparator("", '\n', rest, "\r\n");
    assert line + "\r\n" + rest == line + ['\r'] + ("\n" + rest) && "" + ['\n'] + rest == "\n" + rest;
    assert Paths.Split("", "\r\n") == [];
  }

  lemma {:induction false} HeaderTextIsSplit(headers: HeaderVec)
    requires AllValid(headers)
    ensures Paths.Split(HeaderText(headers), "\r\n") == HeaderLines(headers)
  {
    if headers != [] {
      var h := headers[0];
      assert ValidHeader(h);
      HeaderTextIsSplit(headers[1..]);
      LineIsPiece(h);
      CRLFSplits(h.0 + ": " + h.1, HeaderText(headers[1..]));
      assert HeaderText(headers) == h.0 + ": " + h.1 + "\r\n" + HeaderText(headers[1..]);
      assert HeaderLines(headers) == [h.0 + ": " + h.1] + HeaderLines(headers[1..]);
    }
  }

  lemma {:induction false} HeadersAreReadAgain(done: HeaderVec, lines: seq<string>) returns (headers: HeaderVec)
    requires Headers(done, lines).Some? && forall i | 0 <= i < |lines| :: Paths.NoneOf(lines[i], "\r\n")
    ensures AllValid(headers) && Headers(done, lines) == Some(done + headers)
    ensures Headers(done, HeaderLines(headers)) == Some(done + headers)
    decreases lines
  {
    if lines == [] {
      headers := [];
      assert done + [] == done;
    } else {
      var h := Header(lines[0]).value;
      var others := HeadersAreReadAgain(done + [h], lines[1..]);
      headers := [h] + others;
      HeaderIsValid(lines[0]);
      HeaderIsReadAgain(h);
      FirstHeaderLine(h, others);
      AppendFirst(done, h, others);
    }
  }

  lemma FirstHeaderLine(h: (string, string), others: HeaderVec)
    ensures HeaderLines([h] + others) != [] && HeaderLines([h] + others)[0] == h.0 + ": " + h.1
    ensures HeaderLines([h] + others)[1..] == HeaderLines(others)
  {
  }

  lemma AppendFirst<T>(done: seq<T>, first: T, others: seq<T>)
    ensures done + [first] + others == done + ([first] + others)
  {
  }

  /** The headers of a reply with CRLF line ends, sent on as they are printed, are read as the same headers again. */
  lemma HeaderRoundTrip(header: string)
    requires Headers([], Paths.Split(header, "\r\n")).Some?
    ensures var headers := Headers([], Paths.Split(header, "\r\n")).value;
            Headers([], Paths.Split(HeaderText(headers), "\r\n")) == Some(headers)
  {
    var lines := Paths.Split(header, "\r\n");
    Paths.PiecesAreClean(header, "\r\n");
    assert forall i | 0 <= i < |lines| :: lines[i] in lines;
    var headers := HeadersAreReadAgain([], lines);
    assert [] + headers == headers;
    HeaderTextIsSplit(headers);
  }
}
