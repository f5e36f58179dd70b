/** Which headers make a CGI reply a reply of which class; compare section 6 of RFC 3875. */
module CgiClasses {
  import opened Text
  import opened CgiParsing
  import Paths

  // ---------------------------------------------------------------------------------------------
  // Header lines

  lemma UpperMeans(s: string, i: nat, k: nat)
    requires i < |s| && k < 26
    ensures |Upper(s)| == |s|
    ensures s[i] == LOWER_CASE[k] ==> Upper(s)[i] == UPPER_CASE[k]
    ensures s[i] !in LOWER_CASE ==> Upper(s)[i] == s[i]
  {
    LettersConvert(k);
    CharactersMean(s[i]);
  }

  /** A name of two characters at least, a colon and a value, with white space around the value only. */
  lemma HeaderMeans(name: string, before: string, value: string, after: string)
    requires ':' !in name && (value == "" || IsTrimmed(value))
    requires (forall i | 0 <= i < |before| :: IsSpace(before[i])) && forall i | 0 <= i < |after| :: IsSpace(after[i])
    ensures Header(name) == None
    ensures Header(name + ":" + (before + value + after)) ==
            if |name| < 2 || value == "" then None else Some((Upper(name), value))
  {
    ColonBehind(name, before + value + after);
    TrimOff(before, value, after);
    assert Colon(name) == None;
  }

  ghost predicate Distinct(headers: HeaderVec) {
    forall i, j | 0 <= i < j < |headers| :: headers[i].0 != headers[j].0
  }

  /** Every line is a header. */
  ghost predicate LinesAre(lines: seq<string>, headers: HeaderVec) {
    |lines| == |headers| && forall i | 0 <= i < |lines| :: Header(lines[i]) == Some(headers[i])
  }

  lemma {:induction false} HeadersExtend(done: HeaderVec, lines: seq<string>)
    ensures Headers(done, lines).Some? ==> done <= Headers(done, lines).value
    decreases lines
  {
    if lines != [] && Header(lines[0]).Some? {
      HeadersExtend(done + [Header(lines[0]).value], lines[1..]);
    }
  }

  lemma DistinctBehind(done: HeaderVec, h: (string, string))
    requires Distinct(done)
    ensures Distinct(done + [h]) <==> !Named(done, h.0)
  {
    var longer := done + [h];
    assert longer[|done|] == h && forall i | 0 <= i < |done| :: longer[i] == done[i];
  }

  lemma DistinctInFront(done: HeaderVec, headers: HeaderVec)
    requires Distinct(done + headers)
    ensures Distinct(done)
  {
    assert forall i | 0 <= i < |done| :: (done + headers)[i] == done[i];
  }

  lemma FirstLineIs(lines: seq<string>, headers: HeaderVec)
    requires lines != [] && headers != []
    ensures LinesAre(lines, headers) <==> Header(lines[0]) == Some(headers[0]) && LinesAre(lines[1..], headers[1..])
  {
    if Header(lines[0]) == Some(headers[0]) && LinesAre(lines[1..], headers[1..]) {
      forall i | 0 <= i < |lines| ensures Header(lines[i]) == Some(headers[i]) {
        assert i > 0 ==> Header(lines[1..][i - 1]) == Some(headers[1..][i - 1]);
      }
    }
  }

  lemma {:induction false} HeadersGoOn(done: HeaderVec, lines: seq<string>, headers: HeaderVec)
    requires Distinct(done)
    ensures Headers(done, lines) == Some(done + headers) <==> LinesAre(lines, headers) && Distinct(done + headers)
    decreases lines
  {
    if lines == [] {
      assert headers != [] ==> |done + headers| > |done|;
      assert done + [] == done;
    } else if Header(lines[0]).Some? {
      var h := Header(lines[0]).value;
      FindMeans(done, h.0);
      DistinctBehind(done, h);
      HeadersExtend(done + [h], lines[1..]);
      if headers != [] && headers[0] == h {
        FirstLineIs(lines, headers);
        assert done + headers == done + [h] + headers[1..];
        if Distinct(done + headers) {
          DistinctInFront(done + [h], headers[1..]);
        }
        if !Named(done, h.0) {
          HeadersGoOn(done + [h], lines[1..], headers[1..]);
        }
      } else if headers != [] {
        assert (done + headers)[|done|] == headers[0] && (done + [h])[|done|] == h;
      }
    }
  }

  /** A header is read exactly if each of its lines is and no name occurs twice. */
  lemma HeadersMean(lines: seq<string>, headers: HeaderVec)
    ensures Headers([], lines) == Some(headers) <==> LinesAre(lines, headers) && Distinct(headers)
  {
    HeadersGoOn([], lines, headers);
    assert [] + headers == headers;
  }

  // ---------------------------------------------------------------------------------------------
  // Classes

  /** Some header has the name `key`. */
  ghost predicate Named(headers: HeaderVec, key: string) {
    exists i | 0 <= i < |headers| :: headers[i].0 == key
  }

  /** `value` is that of the first header with the name `key`. */
  ghost predicate HasValue(headers: HeaderVec, key: string, value: string) {
    exists i | 0 <= i < |headers| :: headers[i] == (key, value) && forall j | 0 <= j < i :: headers[j].0 != key
  }

  lemma {:induction false} FindMeans(headers: HeaderVec, key: string)
    requires key != ""
    ensures Find(headers, key).0 == if Named(headers, key) then key else ""
    ensures Named(headers, key) ==> HasValue(headers, key, Find(headers, key).1)
    ensures forall v | HasValue(headers, key, v) :: Named(headers, key) && v == Find(headers, key).1
  {
    if headers != [] && headers[0].0 != key {
      FindMeans(headers[1..], key);
      forall i | 0 <= i < |headers| - 1 ensures headers[1..][i] == headers[i + 1] {}
      NamedBehind(headers, key);
      forall v ensures HasValue(headers, key, v) <==> HasValue(headers[1..], key, v) {
        ValueBehind(headers, key, v);
      }
    } else if headers != [] {
      assert headers[0] == (key, headers[0].1);
    }
  }

  lemma NamedBehind(headers: HeaderVec, key: string)
    requires headers != [] && headers[0].0 != key
    ensures Named(headers, key) <==> Named(headers[1..], key)
  {
    forall i | 0 <= i < |headers| - 1 ensures headers[1..][i] == headers[i + 1] {}
    if Named(headers[1..], key) {
      var i :| 0 <= i < |headers| - 1 && headers[1..][i].0 == key;
      assert headers[i + 1].0 == key;
    }
    if Named(headers, key) {
      var i :| 0 <= i < |headers| && headers[i].0 == key;
      assert headers[1..][i - 1].0 == key;
    }
  }

  lemma ValueBehind(headers: HeaderVec, key: string, value: string)
    requires headers != [] && headers[0].0 != key
    ensures HasValue(headers, key, value) <==> HasValue(headers[1..], key, value)
  {
    forall i | 0 <= i < |headers| - 1 ensures headers[1..][i] == headers[i + 1] {}
    if HasValue(headers[1..], key, value) {
      var i :| 0 <= i < |headers| - 1 && headers[1..][i] == (key, value)
        && forall j | 0 <= j < i :: headers[1..][j].0 != key;
      assert headers[i + 1] == (key, value);
      forall j | 0 <= j < i + 1 ensures headers[j].0 != key {
        if j > 0 { assert headers[1..][j - 1].0 != key; }
      }
    }
    if HasValue(headers, key, value) {
      var i :| 0 <= i < |headers| && headers[i] == (key, value) && forall j | 0 <= j < i :: headers[j].0 != key;
      assert headers[1..][i - 1] == (key, value);
    }
  }

  /** A letter or a digit. */
  predicate IsCodeChar(c: char) {
    IsDigit(c) || IsAlpha(c)
  }

  /** Three letters or digits come first. */
  predicate StartsWithCode(v: string) {
    |v| >= 3 && forall i | 0 <= i < 3 :: IsCodeChar(v[i])
  }

  /** There is no status header, or its value starts with a code. */
  ghost predicate StatusFits(headers: HeaderVec) {
    forall v | HasValue(headers, "STATUS", v) :: StartsWithCode(v)
  }

  /** The location is an absolute URI of one of the two schemes. */
  ghost predicate LeadsAway(headers: HeaderVec) {
    exists v :: HasValue(headers, "LOCATION", v) && ("http://" <= v || "https://" <= v)
  }

  /** Neither of the two headers that a script may not send. */
  ghost predicate NothingForbidden(headers: HeaderVec) {
    !Named(headers, "CONTENT-LENGTH") && !Named(headers, "CONNECTION")
  }

  /** A location as the only header, in a path that never leads above the root, and no body yet. */
  ghost predicate OnlyPath(headers: HeaderVec, body: string) {
    exists path | headers == [("LOCATION", path)] ::
      && body == "" && "/" <= path
      && forall k | 0 <= k <= |Paths.Split(path, "/")| :: Paths.Depth(Paths.Split(path, "/")[..k]) >= 0
  }

  /** Status, content type and location: a redirection that brings a document along. */
  ghost predicate BringsDocument(headers: HeaderVec) {
    && |headers| >= 3 && HasValue(headers, "STATUS", "302 Found") && Named(headers, "CONTENT-TYPE")
    && LeadsAway(headers)
  }

  lemma StatusMeans(headers: HeaderVec)
    ensures StatusFits(headers) <==> (Exists(headers, "STATUS") ==> IsValidStatusCode(Find(headers, "STATUS").1))
  {
    FindMeans(headers, "STATUS");
  }

  lemma SchemeIsAbsolute(uri: string, scheme: string)
    requires scheme in {"http", "https"} && ':' !in scheme && scheme + "://" <= uri
    ensures IsAbsoluteUri(uri)
  {
    var n := |scheme|;
    assert uri[n] == (scheme + "://")[n] == ':' && uri[..n] == scheme;
    forall i | 0 <= i < n ensures uri[i] != ':' {
      assert uri[i] == scheme[i];
    }
    assert uri[n + 1..n + 3] == (scheme + "://")[n + 1..n + 3] == "//";
  }

  lemma AbsoluteHasScheme(uri: string) returns (scheme: string)
    requires IsAbsoluteUri(uri)
    ensures scheme in {"http", "https"} && scheme + "://" <= uri
  {
    var p := Colon(uri).value;
    scheme := uri[..p];
    assert uri == scheme + ":" + uri[p + 1..] && uri[p + 1..] == "//" + uri[p + 3..];
    assert uri == scheme + "://" + uri[p + 3..];
  }

  lemma AbsoluteMeans(uri: string)
    ensures IsAbsoluteUri(uri) <==> "http://" <= uri || "https://" <= uri
  {
    assert "http" + "://" == "http://" && "https" + "://" == "https://";
    if IsAbsoluteUri(uri) {
      var scheme := AbsoluteHasScheme(uri);
    }
    if "http://" <= uri {
      SchemeIsAbsolute(uri, "http");
    }
    if "https://" <= uri {
      SchemeIsAbsolute(uri, "https");
    }
  }

  lemma LocationMeans(headers: HeaderVec)
    ensures LeadsAway(headers) <==> IsClientRedirect(headers)
  {
    FindMeans(headers, "LOCATION");
    AbsoluteMeans(Find(headers, "LOCATION").1);
  }

  lemma OnlyPathMeans(headers: HeaderVec, body: string)
    ensures OnlyPath(headers, body) <==> IsLocalRedirect(headers, body)
  {
    if |headers| == 1 {
      assert headers == [(headers[0].0, headers[0].1)];
      Paths.NormalizesIffWithinRoot(headers[0].1);
    }
  }

  lemma BringsDocumentMeans(headers: HeaderVec)
    ensures BringsDocument(headers) <==> IsClientRedirectWithDocument(headers)
  {
    FindMeans(headers, "STATUS");
    FindMeans(headers, "CONTENT-TYPE");
    LocationMeans(headers);
  }

  lemma ClassCases(headers: HeaderVec, body: string)
    ensures NothingForbidden(headers) <==> !Exists(headers, "CONTENT-LENGTH") && !Exists(headers, "CONNECTION")
    ensures BringsDocument(headers) <==> IsClientRedirectWithDocument(headers)
    ensures IsDocument(headers) <==> Named(headers, "CONTENT-TYPE") && StatusFits(headers)
    ensures OnlyPath(headers, body) <==> IsLocalRedirect(headers, body)
    ensures LeadsAway(headers) <==> IsClientRedirect(headers)
  {
    FindMeans(headers, "CONTENT-LENGTH");
    FindMeans(headers, "CONNECTION");
    FindMeans(headers, "CONTENT-TYPE");
    BringsDocumentMeans(headers);
    StatusMeans(headers);
    OnlyPathMeans(headers, body);
    LocationMeans(headers);
  }

  lemma PathDoesNotLeadAway(headers: HeaderVec, body: string)
    requires OnlyPath(headers, body)
    ensures !LeadsAway(headers) && !Named(headers, "CONTENT-TYPE") && NothingForbidden(headers)
  {
    var path := headers[0].1;
    assert "/"[0] == '/' && path[0] == '/' && "http://"[0] == 'h' && "https://"[0] == 'h';
    forall v | HasValue(headers, "LOCATION", v) ensures v == path {}
    assert headers[0].0[0] == 'L';
    assert "CONTENT-TYPE"[0] == 'C' && "CONTENT-LENGTH"[0] == 'C' && "CONNECTION"[0] == 'C';
  }

  lemma DocumentFits(headers: HeaderVec)
    requires BringsDocument(headers)
    ensures StatusFits(headers)
  {
    FindMeans(headers, "STATUS");
    assert StartsWithCode("302 Found");
  }

  /** The class of a reply by its headers. */
  lemma ClassIff(headers: HeaderVec, body: string)
    ensures Class(headers, body) == Some(ClientRedirectDocument) <==>
      NothingForbidden(headers) && BringsDocument(headers)
    ensures Class(headers, body) == Some(Document) <==>
      NothingForbidden(headers) && Named(headers, "CONTENT-TYPE") && StatusFits(headers) && !BringsDocument(headers)
    ensures Class(headers, body) == Some(LocalRedirect) <==> OnlyPath(headers, body)
    ensures Class(headers, body) == Some(ClientRedirect) <==>
      NothingForbidden(headers) && LeadsAway(headers) && (!Named(headers, "CONTENT-TYPE") || !StatusFits(headers))
    ensures Class(headers, body) == None <==>
      || !NothingForbidden(headers)
      || (!LeadsAway(headers) && !OnlyPath(headers, body) && (!Named(headers, "CONTENT-TYPE") || !StatusFits(headers)))
  {
    ClassCases(headers, body);
    if OnlyPath(headers, body) {
      PathDoesNotLeadAway(headers, body);
    }
    if BringsDocument(headers) {
      DocumentFits(headers);
    }
  }
}
