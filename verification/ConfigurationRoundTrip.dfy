/** Every configuration that can be read can be written down again, and is read back from what is written. */
module ConfigurationRoundTrip {
  import opened Text
  import opened Lexing
  import opened Configuration
  import opened Grammar
  import opened Parsing
  import Numbers
  import Paths

  // ---------------------------------------------------------------------------------------------
  // The contexts that a configuration can mean

  predicate IsWordOrNone(s: string) {
    s == "" || IsWord(s)
  }

  ghost predicate ValidLocation(lc: LocationContext) {
    && lc.limitExcept <= METHODS
    && (lc.redirect == (-1, "") || (0 <= lc.redirect.0 <= RETURN_CODE_MAX && IsWordOrNone(lc.redirect.1)))
    && (lc.root == "" || (IsWord(lc.root) && IsFullPath(lc.root) && Paths.Normalized(lc.root) == Some(lc.root)))
    && lc.autoIndex in {"", "on", "off"}
    && IsWordOrNone(lc.index)
    && AllWords(lc.cgiExtension) && AllExtensions(lc.cgiExtension)
  }

  predicate HasNoColon(s: string) {
    forall i | 0 <= i < |s| :: s[i] != ':'
  }

  ghost predicate ValidListen(aton: string -> bool, listen: (string, string)) {
    || listen == ("", "")
    || (&& IsRun(listen.0) && HasNoColon(listen.0) && (listen.0 != "" ==> aton(listen.0))
        && IsRun(listen.1) && PORT_MIN <= Number(listen.1) <= PORT_MAX)
  }

  /** All codes have the same page. */
  ghost predicate ValidErrorPage(errorPage: map<int, string>) {
    && (forall code <- errorPage :: IsStatus(code) && IsWord(errorPage[code]))
    && forall c <- errorPage, d <- errorPage :: errorPage[c] == errorPage[d]
  }

  ghost predicate ValidLocations(locations: map<string, LocationContext>) {
    forall key <- locations :: IsWord(key) && ValidLocation(locations[key])
  }

  ghost predicate ValidServer(aton: string -> bool, sc: ServerContext) {
    && ValidListen(aton, sc.listen)
    && (sc.clientBodySize == NO_SERVER.clientBodySize
        || (sc.clientBodySize.0 && 0 <= sc.clientBodySize.1 <= Numbers.LONG_MAX))
    && IsWordOrNone(sc.serverName)
    && ValidErrorPage(sc.errorPage)
    && ValidLocations(sc.locations)
  }

  ghost predicate AllValid(aton: string -> bool, contexts: seq<ServerContext>) {
    forall i | 0 <= i < |contexts| :: ValidServer(aton, contexts[i])
  }

  // ---------------------------------------------------------------------------------------------
  // Whatever is read is valid

  lemma {:induction false} AddedMethods(methods: set<string>, args: seq<string>)
    requires methods <= METHODS && AddMethods(methods, args).Some?
    ensures AddMethods(methods, args).value <= METHODS
    decreases args
  {
    if args != [] {
      AddedMethods(methods + {args[0]}, args[1..]);
    }
  }

  predicate All(s: string, p: char -> bool) {
    forall i | 0 <= i < |s| :: p(s[i])
  }

  predicate AllOf(segments: seq<string>, p: char -> bool) {
    forall i | 0 <= i < |segments| :: All(segments[i], p)
  }

  lemma {:induction false} SplitKeeps(s: string, seps: string, p: char -> bool)
    requires All(s, p)
    ensures AllOf(Paths.SplitState(s, seps).0, p) && All(Paths.SplitState(s, seps).1, p)
  {
    if s != "" {
      SplitKeeps(s[..|s| - 1], seps, p);
    }
  }

  lemma {:induction false} ResolveKeeps(stack: seq<string>, segments: seq<string>, p: char -> bool)
    requires AllOf(stack, p) && AllOf(segments, p)
    ensures Paths.Resolve(stack, segments).Some? ==> AllOf(Paths.Resolve(stack, segments).value, p)
    decreases segments
  {
    if segments != [] {
      if segments[0] == "." {
        ResolveKeeps(stack, segments[1..], p);
      } else if segments[0] != ".." {
        ResolveKeeps(stack + [segments[0]], segments[1..], p);
      } else if stack != [] {
        ResolveKeeps(stack[..|stack| - 1], segments[1..], p);
      }
    }
  }

  lemma {:induction false} JoinKeeps(segments: seq<string>, lastSlash: bool, p: char -> bool)
    requires AllOf(segments, p) && p('/')
    ensures All(Paths.Join(segments, lastSlash), p)
  {
    if segments != [] {
      assert All(segments[0], p);
      JoinKeeps(segments[1..], lastSlash, p);
    }
  }

  predicate IsRunChar(c: char) {
    !IsBlank(c) && !IsSeparatorChar(c)
  }

  lemma NormalizedIsWord(path: string)
    requires IsRun(path) && Paths.Normalized(path).Some?
    ensures IsWord(Paths.Normalized(path).value) && IsFullPath(Paths.Normalized(path).value)
  {
    SplitKeeps(path, "/", IsRunChar);
    ResolveKeeps([], Paths.Split(path, "/"), IsRunChar);
    var stack := Paths.Resolve([], Paths.Split(path, "/")).value;
    JoinKeeps(stack, Paths.EndsWithSlash(path), IsRunChar);
    assert forall i | 0 <= i < |Paths.Join(stack, Paths.EndsWithSlash(path))| ::
      IsRunChar(Paths.Join(stack, Paths.EndsWithSlash(path))[i]);
  }

  lemma LocationStaysValid(lc: LocationContext, d: Directive)
    requires ValidLocation(lc) && IsDirective(d) && ApplyLocation(lc, d.name, d.args).Some?
    ensures ValidLocation(ApplyLocation(lc, d.name, d.args).value)
  {
    if d.name == "limit_except" {
      AddedMethods(lc.limitExcept, d.args);
    } else if d.name == "root" {
      NormalizedIsWord(d.args[0]);
      Paths.NormalizeIsIdempotent(d.args[0]);
    }
  }

  lemma {:induction false} BodyStaysValid(lc: LocationContext, body: seq<Directive>)
    requires ValidLocation(lc) && IsBody(body) && BodyMeaning(lc, body).Some?
    ensures ValidLocation(BodyMeaning(lc, body).value)
    decreases body
  {
    if body != [] {
      LocationStaysValid(lc, body[0]);
      BodyStaysValid(ApplyLocation(lc, body[0].name, body[0].args).value, body[1..]);
    }
  }

  lemma ListenStaysValid(aton: string -> bool, sc: ServerContext, arg: string)
    requires IsWord(arg) && Listen(aton, sc, [arg]).Some?
    ensures ValidListen(aton, Listen(aton, sc, [arg]).value.listen)
  {
    var listen := Listen(aton, sc, [arg]).value.listen;
    match Colon(arg)
    case None => assert listen == ("", arg);
    case Some(p) => assert listen == (arg[..p], arg[p + 1..]);
  }

  lemma ServerStaysValid(aton: string -> bool, sc: ServerContext, d: Directive)
    requires ValidServer(aton, sc) && IsDirective(d) && ApplyServer(aton, sc, d.name, d.args).Some?
    ensures ValidServer(aton, ApplyServer(aton, sc, d.name, d.args).value)
  {
    if d.name == "listen" {
      assert d.args == [d.args[0]];
      ListenStaysValid(aton, sc, d.args[0]);
    }
  }

  lemma ItemStaysValid(aton: string -> bool, sc: ServerContext, item: Item)
    requires ValidServer(aton, sc) && IsItem(item) && ItemMeaning(aton, sc, item).Some?
    ensures ValidServer(aton, ItemMeaning(aton, sc, item).value)
  {
    match item
    case Plain(d) => ServerStaysValid(aton, sc, d);
    case Block(key, body) => BodyStaysValid(NO_LOCATION, body);
  }

  lemma {:induction false} ItemsStayValid(aton: string -> bool, sc: ServerContext, items: seq<Item>)
    requires ValidServer(aton, sc) && IsServer(items) && ServerMeaning(aton, sc, items).Some?
    ensures ValidServer(aton, ServerMeaning(aton, sc, items).value)
    decreases items
  {
    if items != [] {
      assert IsItem(items[0]);
      ItemStaysValid(aton, sc, items[0]);
      ItemsStayValid(aton, ItemMeaning(aton, sc, items[0]).value, items[1..]);
    }
  }

  lemma {:induction false} MeaningIsValid(aton: string -> bool, servers: seq<seq<Item>>)
    requires IsConfiguration(servers) && Meaning(aton, servers).Some?
    ensures AllValid(aton, Meaning(aton, servers).value)
  {
    if servers != [] {
      assert IsServer(servers[0]);
      ItemsStayValid(aton, NO_SERVER, servers[0]);
      MeaningIsValid(aton, servers[1..]);
    }
  }

  // ---------------------------------------------------------------------------------------------
  // Writing a location

  predicate IsListing<T(==)>(list: seq<T>, s: set<T>) {
    && (forall x <- list :: x in s) && (forall x <- s :: x in list)
    && forall i, j | 0 <= i < j < |list| :: list[i] != list[j]
  }

  /** The elements of a set in some order, as an iterator would give them. */
  ghost function Listing<T(!new)>(s: set<T>): (list: seq<T>)
    ensures IsListing(list, s)
    decreases |s|
  {
    if s == {} then []
    else
      var x :| x in s;
      [x] + Listing(s - {x})
  }

  function When<T>(condition: bool, x: T): seq<T> {
    if condition then [x] else []
  }

  function ReturnArguments(redirect: (int, string)): seq<string>
    requires redirect.0 >= 0
  {
    [Numbers.Print(redirect.0, Numbers.Decimal)] + When(redirect.1 != "", redirect.1)
  }

  /** The directive for the `k`-th field, if the field is set at all. */
  ghost function LocationPart(lc: LocationContext, k: nat): seq<Directive>
    requires k < 6
  {
    match k
    case 0 => When(lc.limitExcept != {}, Directive("limit_except", Listing(lc.limitExcept)))
    case 1 => if lc.redirect.0 < 0 then [] else [Directive("return", ReturnArguments(lc.redirect))]
    case 2 => When(lc.root != "", Directive("root", [lc.root]))
    case 3 => When(lc.autoIndex != "", Directive("autoindex", [lc.autoIndex]))
    case 4 => When(lc.index != "", Directive("index", [lc.index]))
    case 5 => When(lc.cgiExtension != [], Directive("cgi_extension", lc.cgiExtension))
  }

  ghost function LocationParts(lc: LocationContext, k: nat): seq<Directive>
    requires k <= 6
  {
    if k == 0 then [] else LocationParts(lc, k - 1) + LocationPart(lc, k - 1)
  }

  ghost function LocationDirectives(lc: LocationContext): seq<Directive> {
    LocationParts(lc, 6)
  }

  /** The first `k` fields of `lc`, and nothing in the others. */
  function FirstFields(lc: LocationContext, k: nat): LocationContext {
    LocationContext(
      if k > 0 then lc.limitExcept else {},
      if k > 1 then lc.redirect else (-1, ""),
      if k > 2 then lc.root else "",
      if k > 3 then lc.autoIndex else "",
      if k > 4 then lc.index else "",
      if k > 5 then lc.cgiExtension else [])
  }

  lemma {:induction false} BodyMeaningAppend(
    lc: LocationContext, a: seq<Directive>, b: seq<Directive>, mid: LocationContext)
    requires BodyMeaning(lc, a) == Some(mid)
    ensures BodyMeaning(lc, a + b) == BodyMeaning(mid, b)
    decreases a
  {
    if a == [] {
      assert a + b == b;
    } else {
      assert (a + b)[0] == a[0] && (a + b)[1..] == a[1..] + b;
      BodyMeaningAppend(ApplyLocation(lc, a[0].name, a[0].args).value, a[1..], b, mid);
    }
  }

  /** `body` is well-formed and leads from one context to the other. */
  predicate Leads(before: LocationContext, body: seq<Directive>, after: LocationContext) {
    IsBody(body) && BodyMeaning(before, body) == Some(after)
  }

  lemma WhenLeads(before: LocationContext, condition: bool, d: Directive, after: LocationContext)
    requires condition ==> IsDirective(d) && ApplyLocation(before, d.name, d.args) == Some(after)
    requires !condition ==> before == after
    ensures Leads(before, When(condition, d), after)
  {
    assert [d][1..] == [];
  }

  function Elements<T>(list: seq<T>): set<T> {
    set x | x in list
  }

  lemma ElementsOfTail<T>(list: seq<T>)
    requires list != []
    ensures Elements(list) == {list[0]} + Elements(list[1..])
  {
    assert list == [list[0]] + list[1..];
  }

  lemma {:induction false} MethodsAdd(methods: set<string>, list: seq<string>)
    requires forall i | 0 <= i < |list| :: IsMethod(list[i]) && list[i] !in methods
    requires forall i, j | 0 <= i < j < |list| :: list[i] != list[j]
    ensures AddMethods(methods, list) == Some(methods + Elements(list))
    decreases list
  {
    if list == [] {
      assert Elements(list) == {} && methods + {} == methods;
    } else {
      MethodsAdd(methods + {list[0]}, list[1..]);
      ElementsOfTail(list);
      assert methods + {list[0]} + Elements(list[1..]) == methods + ({list[0]} + Elements(list[1..]));
    }
  }

  lemma MethodsAreWords()
    ensures IsWord("DELETE") && IsWord("GET") && IsWord("POST")
  {
  }

  lemma LimitExceptIsRead(lc: LocationContext, methods: set<string>)
    requires lc.limitExcept == {} && methods != {} && methods <= METHODS
    ensures LimitExcept(lc, Listing(methods)) == Some(lc.(limitExcept := methods))
    ensures AllWords(Listing(methods))
  {
    var list := Listing(methods);
    assert list != [] by {
      var m :| m in methods;
      assert m in list;
    }
    MethodsAreWords();
    forall i | 0 <= i < |list| ensures IsMethod(list[i]) && IsWord(list[i]) {
      assert list[i] in list && list[i] in methods && list[i] in METHODS;
    }
    MethodsAdd({}, list);
    assert Elements(list) == methods && {} + methods == methods;
  }

  lemma DigitsAreWord(s: string)
    requires s != "" && Numbers.AllDigits(s, Numbers.Decimal)
    ensures IsWord(s)
  {
    assert forall i | 0 <= i < |s| :: Numbers.IsDigitOf(s[i], Numbers.Decimal);
  }

  lemma PrintedIsWord(n: nat)
    requires n <= Numbers.LONG_MAX
    ensures IsWord(Numbers.Print(n, Numbers.Decimal)) && Number(Numbers.Print(n, Numbers.Decimal)) == n
  {
    Numbers.StrToLongOfPrint(n, Numbers.Decimal);
    DigitsAreWord(Numbers.Print(n, Numbers.Decimal));
  }

  lemma ReturnIsRead(lc: LocationContext, redirect: (int, string))
    requires lc.redirect == (-1, "") && 0 <= redirect.0 <= RETURN_CODE_MAX && IsWordOrNone(redirect.1)
    ensures Return(lc, ReturnArguments(redirect)) == Some(lc.(redirect := redirect))
    ensures AllWords(ReturnArguments(redirect))
  {
    PrintedIsWord(redirect.0);
  }

  lemma NamesAreWords()
    ensures IsWord("return") && IsWord("root") && IsWord("index")
  {
  }

  lemma LimitExceptIsWord()
    ensures IsWord("limit_except")
  {
  }

  lemma AutoIndexIsWord()
    ensures IsWord("autoindex") && IsWord("on") && IsWord("off")
  {
  }

  lemma CgiExtensionIsWord()
    ensures IsWord("cgi_extension")
  {
  }

  lemma LocationPartLeads(lc: LocationContext, k: nat)
    requires ValidLocation(lc) && k < 6
    ensures Leads(FirstFields(lc, k), LocationPart(lc, k), FirstFields(lc, k + 1))
  {
    var before, after := FirstFields(lc, k), FirstFields(lc, k + 1);
    match k
    case 0 =>
      LimitExceptIsWord();
      if lc.limitExcept != {} { LimitExceptIsRead(before, lc.limitExcept); }
      WhenLeads(before, lc.limitExcept != {}, Directive("limit_except", Listing(lc.limitExcept)), after);
    case 1 =>
      if lc.redirect.0 >= 0 {
        NamesAreWords();
        ReturnIsRead(before, lc.redirect);
        WhenLeads(before, true, Directive("return", ReturnArguments(lc.redirect)), after);
      }
    case 2 =>
      NamesAreWords();
      WhenLeads(before, lc.root != "", Directive("root", [lc.root]), after);
    case 3 =>
      AutoIndexIsWord();
      WhenLeads(before, lc.autoIndex != "", Directive("autoindex", [lc.autoIndex]), after);
    case 4 =>
      NamesAreWords();
      WhenLeads(before, lc.index != "", Directive("index", [lc.index]), after);
    case 5 =>
      CgiExtensionIsWord();
      assert [] + lc.cgiExtension == lc.cgiExtension;
      WhenLeads(before, lc.cgiExtension != [], Directive("cgi_extension", lc.cgiExtension), after);
  }

  lemma {:induction false} LocationPartsLead(lc: LocationContext, k: nat)
    requires ValidLocation(lc) && k <= 6
    ensures Leads(NO_LOCATION, LocationParts(lc, k), FirstFields(lc, k))
  {
    if k > 0 {
      LocationPartsLead(lc, k - 1);
      LocationPartLeads(lc, k - 1);
      BodyMeaningAppend(NO_LOCATION, LocationParts(lc, k - 1), LocationPart(lc, k - 1), FirstFields(lc, k - 1));
    }
  }

  /** What is written for a location is read as that location. */
  lemma LocationIsRead(lc: LocationContext)
    requires ValidLocation(lc)
    ensures IsBody(LocationDirectives(lc)) && BodyMeaning(NO_LOCATION, LocationDirectives(lc)) == Some(lc)
  {
    LocationPartsLead(lc, 6);
  }

  // ---------------------------------------------------------------------------------------------
  // Writing a server

  function ListenArgument(listen: (string, string)): string {
    if listen.0 == "" then listen.1 else listen.0 + ":" + listen.1
  }

  lemma NumberHasNoColon(s: string)
    requires Number(s) > 0
    ensures HasNoColon(s)
  {
    var t := SkipSpace(s);
    var digits := Numbers.Unsigned(t);
    forall i | 0 <= i < |digits| ensures digits[i] != ':' {
      assert Numbers.IsDigitOf(digits[i], Numbers.Decimal);
    }
    assert t == digits || t == [t[0]] + digits;
    SkippedHasColon(s);
  }

  lemma {:induction false} SkippedHasColon(s: string)
    ensures HasNoColon(SkipSpace(s)) ==> HasNoColon(s)
  {
    if s != "" && IsSpace(s[0]) {
      SkippedHasColon(s[1..]);
      assert s == [s[0]] + s[1..];
    }
  }

  lemma ListenIsRead(aton: string -> bool, sc: ServerContext, listen: (string, string))
    requires sc.listen == ("", "") && ValidListen(aton, listen) && listen.1 != ""
    ensures IsWord(ListenArgument(listen))
    ensures Listen(aton, sc, [ListenArgument(listen)]) == Some(sc.(listen := listen))
  {
    var arg := ListenArgument(listen);
    if listen.0 == "" {
      NumberHasNoColon(listen.1);
      assert Colon(arg) == None;
    } else {
      var n := |listen.0|;
      assert arg[n] == ':' && forall i | 0 <= i < n :: arg[i] == listen.0[i] && arg[i] != ':';
      assert Colon(arg) == Some(n);
      assert arg[..n] == listen.0 && arg[n + 1..] == listen.1;
    }
  }

  function CodeArguments(codes: seq<int>): seq<string>
    requires forall i | 0 <= i < |codes| :: IsStatus(codes[i])
  {
    seq(|codes|, i requires 0 <= i < |codes| && IsStatus(codes[i]) => Numbers.Print(codes[i], Numbers.Decimal))
  }

  lemma CodesAreRead(codes: seq<int>)
    requires forall i | 0 <= i < |codes| :: IsStatus(codes[i])
    ensures AllStatuses(CodeArguments(codes)) && AllWords(CodeArguments(codes))
    ensures Codes(CodeArguments(codes)) == Elements(codes)
  {
    forall i | 0 <= i < |codes|
      ensures IsWord(CodeArguments(codes)[i]) && Number(CodeArguments(codes)[i]) == codes[i]
    {
      PrintedIsWord(codes[i]);
    }
    forall c | c in codes ensures c in Codes(CodeArguments(codes)) {
      var i :| 0 <= i < |codes| && codes[i] == c;
      assert Number(CodeArguments(codes)[i]) == c;
    }
  }

  ghost function ErrorPageArguments(errorPage: map<int, string>): seq<string>
    requires ValidErrorPage(errorPage) && errorPage.Keys != {}
  {
    var codes := Listing(errorPage.Keys);
    KeysListed(errorPage);
    CodeArguments(codes) + [errorPage[codes[0]]]
  }

  lemma KeysListed(errorPage: map<int, string>)
    requires ValidErrorPage(errorPage)
    ensures forall i | 0 <= i < |Listing(errorPage.Keys)| ::
      Listing(errorPage.Keys)[i] in errorPage && IsStatus(Listing(errorPage.Keys)[i])
    ensures errorPage.Keys != {} ==> Listing(errorPage.Keys) != []
  {
    var codes := Listing(errorPage.Keys);
    forall i | 0 <= i < |codes| ensures codes[i] in errorPage.Keys {
      assert codes[i] in codes;
    }
    if codes == [] {
      assert errorPage.Keys == {};
    }
  }

  lemma OnePage(errorPage: map<int, string>, code: int)
    requires ValidErrorPage(errorPage) && code in errorPage
    ensures (map c | c in errorPage.Keys :: errorPage[code]) == errorPage
  {
    var same := map c | c in errorPage.Keys :: errorPage[code];
    assert same.Keys == errorPage.Keys;
    assert forall c <- errorPage :: same[c] == errorPage[c];
  }

  lemma ErrorPageIsRead(sc: ServerContext, errorPage: map<int, string>)
    requires sc.errorPage == map[] && ValidErrorPage(errorPage) && errorPage.Keys != {}
    ensures AllWords(ErrorPageArguments(errorPage))
    ensures ErrorPage(sc, ErrorPageArguments(errorPage)) == Some(sc.(errorPage := errorPage))
  {
    var codes := Listing(errorPage.Keys);
    KeysListed(errorPage);
    CodesAreRead(codes);
    assert Elements(codes) == errorPage.Keys;
    AppendPage(sc, CodeArguments(codes), errorPage[codes[0]], errorPage.Keys);
    OnePage(errorPage, codes[0]);
  }

  lemma AppendPage(sc: ServerContext, codes: seq<string>, path: string, keys: set<int>)
    requires sc.errorPage == map[] && codes != [] && AllStatuses(codes) && Codes(codes) == keys
    ensures ErrorPage(sc, codes + [path]) == Some(sc.(errorPage := map code | code in keys :: path))
  {
    var args := codes + [path];
    assert args[..|args| - 1] == codes && args[|args| - 1] == path;
    assert sc.errorPage.Keys + keys == keys;
  }

  ghost function Blocks(keys: seq<string>, locations: map<string, LocationContext>): seq<Item>
    requires forall i | 0 <= i < |keys| :: keys[i] in locations
  {
    if keys == [] then []
    else [Block(keys[0], LocationDirectives(locations[keys[0]]))] + Blocks(keys[1..], locations)
  }

  function Entered(before: map<string, LocationContext>, keys: seq<string>, locations: map<string, LocationContext>)
    : map<string, LocationContext>
    requires forall i | 0 <= i < |keys| :: keys[i] in locations
    decreases keys
  {
    if keys == [] then before else Entered(before[keys[0] := locations[keys[0]]], keys[1..], locations)
  }

  lemma {:induction false} BlocksAreRead(
    aton: string -> bool, sc: ServerContext, keys: seq<string>, locations: map<string, LocationContext>)
    requires ValidLocations(locations)
    requires forall i | 0 <= i < |keys| :: keys[i] in locations && keys[i] !in sc.locations
    requires forall i, j | 0 <= i < j < |keys| :: keys[i] != keys[j]
    ensures IsServer(Blocks(keys, locations))
    ensures ServerMeaning(aton, sc, Blocks(keys, locations))
         == Some(sc.(locations := Entered(sc.locations, keys, locations)))
    decreases keys
  {
    if keys != [] {
      var lc := locations[keys[0]];
      LocationIsRead(lc);
      var next := sc.(locations := sc.locations[keys[0] := lc]);
      BlocksAreRead(aton, next, keys[1..], locations);
      SplitHead(Block(keys[0], LocationDirectives(lc)), Blocks(keys[1..], locations));
    }
  }

  lemma {:induction false} EnteredAll(
    before: map<string, LocationContext>, keys: seq<string>, locations: map<string, LocationContext>)
    requires forall i | 0 <= i < |keys| :: keys[i] in locations
    ensures forall k :: k in Entered(before, keys, locations) <==> k in before || k in keys
    ensures forall k <- Entered(before, keys, locations) ::
      (k in keys ==> Entered(before, keys, locations)[k] == locations[k])
      && (k !in keys ==> Entered(before, keys, locations)[k] == before[k])
    decreases keys
  {
    if keys != [] {
      EnteredAll(before[keys[0] := locations[keys[0]]], keys[1..], locations);
      assert keys == [keys[0]] + keys[1..];
    }
  }

  lemma ListingEntersAll(locations: map<string, LocationContext>)
    ensures forall i | 0 <= i < |Listing(locations.Keys)| :: Listing(locations.Keys)[i] in locations
    ensures Entered(map[], Listing(locations.Keys), locations) == locations
  {
    var keys := Listing(locations.Keys);
    forall i | 0 <= i < |keys| ensures keys[i] in locations.Keys {
      assert keys[i] in keys;
    }
    EnteredAll(map[], keys, locations);
  }

  /** The item for the `k`-th field, if the field is set at all; the blocks for the locations. */
  ghost function ServerPart(sc: ServerContext, k: nat): seq<Item>
    requires k < 5 && ValidErrorPage(sc.errorPage)
  {
    match k
    case 0 => When(sc.listen.1 != "", Plain(Directive("listen", [ListenArgument(sc.listen)])))
    case 1 =>
      if !sc.clientBodySize.0 || sc.clientBodySize.1 < 0 then []
      else [Plain(Directive("client_max_body_size", [Numbers.Print(sc.clientBodySize.1, Numbers.Decimal)]))]
    case 2 => When(sc.serverName != "", Plain(Directive("server_name", [sc.serverName])))
    case 3 =>
      if sc.errorPage.Keys == {} then [] else [Plain(Directive("error_page", ErrorPageArguments(sc.errorPage)))]
    case 4 =>
      ListingEntersAll(sc.locations);
      Blocks(Listing(sc.locations.Keys), sc.locations)
  }

  ghost function ServerParts(sc: ServerContext, k: nat): seq<Item>
    requires k <= 5 && ValidErrorPage(sc.errorPage)
  {
    if k == 0 then [] else ServerParts(sc, k - 1) + ServerPart(sc, k - 1)
  }

  ghost function ServerItems(sc: ServerContext): seq<Item>
    requires ValidErrorPage(sc.errorPage)
  {
    ServerParts(sc, 5)
  }

  function FirstServerFields(sc: ServerContext, k: nat): ServerContext {
    ServerContext(
      if k > 0 then sc.listen else ("", ""),
      if k > 1 then sc.clientBodySize else (false, 100000),
      if k > 2 then sc.serverName else "",
      if k > 3 then sc.errorPage else map[],
      if k > 4 then sc.locations else map[])
  }

  predicate LeadsServer(aton: string -> bool, before: ServerContext, items: seq<Item>, after: ServerContext) {
    IsServer(items) && ServerMeaning(aton, before, items) == Some(after)
  }

  lemma WhenLeadsServer(
    aton: string -> bool, before: ServerContext, condition: bool, d: Directive, after: ServerContext)
    requires condition ==> IsDirective(d) && ApplyServer(aton, before, d.name, d.args) == Some(after)
    requires !condition ==> before == after
    ensures LeadsServer(aton, before, When(condition, Plain(d)), after)
  {
    assert [Plain(d)][1..] == [];
  }

  lemma {:induction false} ServerMeaningAppend(
    aton: string -> bool, sc: ServerContext, a: seq<Item>, b: seq<Item>, mid: ServerContext)
    requires ServerMeaning(aton, sc, a) == Some(mid)
    ensures ServerMeaning(aton, sc, a + b) == ServerMeaning(aton, mid, b)
    decreases a
  {
    if a == [] {
      assert a + b == b;
    } else {
      assert (a + b)[0] == a[0] && (a + b)[1..] == a[1..] + b;
      ServerMeaningAppend(aton, ItemMeaning(aton, sc, a[0]).value, a[1..], b, mid);
    }
  }

  lemma ListenIsWord()
    ensures IsWord("listen") && IsWord("error_page")
  {
  }

  lemma ServerNameIsWord()
    ensures IsWord("server_name")
  {
  }

  lemma ClientBodySizeIsWord()
    ensures IsWord("client_max_body_size")
  {
  }

  lemma ListenLeads(aton: string -> bool, sc: ServerContext)
    requires ValidServer(aton, sc)
    ensures LeadsServer(aton, FirstServerFields(sc, 0), ServerPart(sc, 0), FirstServerFields(sc, 1))
  {
    var before, after := FirstServerFields(sc, 0), FirstServerFields(sc, 1);
    ListenIsWord();
    if sc.listen.1 != "" { ListenIsRead(aton, before, sc.listen); }
    WhenLeadsServer(aton, before, sc.listen.1 != "", Directive("listen", [ListenArgument(sc.listen)]), after);
  }

  lemma ClientBodySizeLeads(aton: string -> bool, sc: ServerContext)
    requires ValidServer(aton, sc)
    ensures LeadsServer(aton, FirstServerFields(sc, 1), ServerPart(sc, 1), FirstServerFields(sc, 2))
  {
    if sc.clientBodySize.0 {
      ClientBodySizeIsWord();
      PrintedIsWord(sc.clientBodySize.1);
      var d := Directive("client_max_body_size", [Numbers.Print(sc.clientBodySize.1, Numbers.Decimal)]);
      WhenLeadsServer(aton, FirstServerFields(sc, 1), true, d, FirstServerFields(sc, 2));
    }
  }

  lemma ServerNameLeads(aton: string -> bool, sc: ServerContext)
    requires ValidServer(aton, sc)
    ensures LeadsServer(aton, FirstServerFields(sc, 2), ServerPart(sc, 2), FirstServerFields(sc, 3))
  {
    ServerNameIsWord();
    WhenLeadsServer(aton, FirstServerFields(sc, 2), sc.serverName != "", Directive("server_name", [sc.serverName]),
                    FirstServerFields(sc, 3));
  }

  lemma ErrorPageLeads(aton: string -> bool, sc: ServerContext)
    requires ValidServer(aton, sc)
    ensures LeadsServer(aton, FirstServerFields(sc, 3), ServerPart(sc, 3), FirstServerFields(sc, 4))
  {
    if sc.errorPage.Keys != {} {
      ListenIsWord();
      ErrorPageIsRead(FirstServerFields(sc, 3), sc.errorPage);
      WhenLeadsServer(aton, FirstServerFields(sc, 3), true, Directive("error_page", ErrorPageArguments(sc.errorPage)),
                      FirstServerFields(sc, 4));
    }
  }

  lemma LocationsLead(aton: string -> bool, sc: ServerContext)
    requires ValidServer(aton, sc)
    ensures LeadsServer(aton, FirstServerFields(sc, 4), ServerPart(sc, 4), FirstServerFields(sc, 5))
  {
    ListingEntersAll(sc.locations);
    BlocksAreRead(aton, FirstServerFields(sc, 4), Listing(sc.locations.Keys), sc.locations);
  }

  lemma ServerPartLeads(aton: string -> bool, sc: ServerContext, k: nat)
    requires ValidServer(aton, sc) && k < 5
    ensures LeadsServer(aton, FirstServerFields(sc, k), ServerPart(sc, k), FirstServerFields(sc, k + 1))
  {
    match k
    case 0 => ListenLeads(aton, sc);
    case 1 => ClientBodySizeLeads(aton, sc);
    case 2 => ServerNameLeads(aton, sc);
    case 3 => ErrorPageLeads(aton, sc);
    case 4 => LocationsLead(aton, sc);
  }

  lemma {:induction false} ServerPartsLead(aton: string -> bool, sc: ServerContext, k: nat)
    requires ValidServer(aton, sc) && k <= 5
    ensures LeadsServer(aton, NO_SERVER, ServerParts(sc, k), FirstServerFields(sc, k))
  {
    if k > 0 {
      ServerPartsLead(aton, sc, k - 1);
      ServerPartLeads(aton, sc, k - 1);
      ServerMeaningAppend(aton, NO_SERVER, ServerParts(sc, k - 1), ServerPart(sc, k - 1), FirstServerFields(sc, k - 1));
    }
  }

  // ---------------------------------------------------------------------------------------------
  // Writing a whole configuration

  ghost function Written(aton: string -> bool, contexts: seq<ServerContext>): seq<seq<Item>>
    requires AllValid(aton, contexts)
  {
    if contexts == [] then [] else [ServerItems(contexts[0])] + Written(aton, contexts[1..])
  }

  /** What is written for a server is read as that server. */
  lemma ServerItemsAreRead(aton: string -> bool, sc: ServerContext)
    requires ValidServer(aton, sc)
    ensures IsServer(ServerItems(sc)) && ServerMeaning(aton, NO_SERVER, ServerItems(sc)) == Some(sc)
  {
    ServerPartsLead(aton, sc, 5);
  }

  lemma MeaningOfFirst(aton: string -> bool, items: seq<Item>, sc: ServerContext,
                       others: seq<seq<Item>>, rest: seq<ServerContext>)
    requires IsServer(items) && ServerMeaning(aton, NO_SERVER, items) == Some(sc)
    requires IsConfiguration(others) && Meaning(aton, others) == Some(rest)
    ensures IsConfiguration([items] + others) && Meaning(aton, [items] + others) == Some([sc] + rest)
  {
    SplitHead(items, others);
  }

  lemma {:induction false} WrittenIsRead(aton: string -> bool, contexts: seq<ServerContext>)
    requires AllValid(aton, contexts)
    ensures IsConfiguration(Written(aton, contexts)) && Meaning(aton, Written(aton, contexts)) == Some(contexts)
  {
    if contexts != [] {
      WrittenIsRead(aton, contexts[1..]);
      ServerItemsAreRead(aton, contexts[0]);
      MeaningOfFirst(aton, ServerItems(contexts[0]), contexts[0], Written(aton, contexts[1..]), contexts[1..]);
      HeadAndTail(contexts);
    }
  }

  lemma HeadAndTail<T>(s: seq<T>)
    requires s != []
    ensures [s[0]] + s[1..] == s
  {
  }

  /** Printing valid contexts and parsing the tokens gives the contexts back. */
  lemma ParseOfWritten(aton: string -> bool, contexts: seq<ServerContext>)
    requires AllValid(aton, contexts) && contexts != []
    ensures Parsed(aton, ConfigurationTokens(Written(aton, contexts))) == Some(contexts)
  {
    WrittenIsRead(aton, contexts);
    ServersAreRead(aton, [], Written(aton, contexts));
    assert [] + contexts == contexts;
  }

  lemma ParsedIsValid(aton: string -> bool, data: seq<string>)
    requires AllTokens(data) && Parsed(aton, data).Some?
    ensures AllValid(aton, Parsed(aton, data).value) && Parsed(aton, data).value != []
  {
    var contexts := Parsed(aton, data).value;
    ParsedIffSpelt(aton, data, contexts);
    var servers :| Spells(aton, servers, data, contexts);
    MeaningIsValid(aton, servers);
    assert servers != [];
  }

  // ---------------------------------------------------------------------------------------------
  // From text to text

  lemma {:induction false} DirectivesAreTokens(body: seq<Directive>)
    requires IsBody(body)
    ensures AllTokens(BodyTokens(body))
  {
    if body != [] {
      assert IsDirective(body[0]);
      DirectivesAreTokens(body[1..]);
    }
  }

  lemma LocationIsAToken()
    ensures IsToken("location")
  {
  }

  lemma {:induction false} ItemsAreTokens(items: seq<Item>)
    requires IsServer(items)
    ensures AllTokens(ServerTokens(items))
  {
    if items != [] {
      assert IsItem(items[0]);
      ItemsAreTokens(items[1..]);
      match items[0]
      case Plain(d) =>
      case Block(key, body) =>
        LocationIsAToken();
        DirectivesAreTokens(body);
    }
  }

  lemma {:induction false} ConfigurationIsTokens(servers: seq<seq<Item>>)
    requires IsConfiguration(servers)
    ensures AllTokens(ConfigurationTokens(servers))
  {
    if servers != [] {
      assert IsServer(servers[0]);
      ItemsAreTokens(servers[0]);
      ConfigurationIsTokens(servers[1..]);
      assert IsToken("server") && IsToken("{");
    }
  }

  function ParsedText(aton: string -> bool, text: string): Option<seq<ServerContext>> {
    Parsed(aton, Datas(Tokens(text)))
  }

  lemma LayoutIsParsed(aton: string -> bool, data: seq<string>, indent: string, gaps: seq<string>)
    requires AllBlank(indent) && AllTokensAndBlanks(data, gaps) && WordsApart(data, gaps)
    ensures ParsedText(aton, indent + Layout(data, gaps)) == Parsed(aton, data)
  {
    ScanBlanks(0, indent, Layout(data, gaps));
    LayoutIsScannedIff(data, gaps, Newlines(indent));
  }

  /**
   Valid contexts, printed in any layout in which no two words touch, lexed and parsed, come back: blanks
   may stand in front of the first token and behind any one, and are not needed next to separators.
   */
  lemma TextRoundTrip(aton: string -> bool, contexts: seq<ServerContext>, indent: string, gaps: seq<string>)
    requires AllValid(aton, contexts) && contexts != []
    requires AllBlank(indent) && forall i | 0 <= i < |gaps| :: AllBlank(gaps[i])
    requires |gaps| == |ConfigurationTokens(Written(aton, contexts))|
    requires WordsApart(ConfigurationTokens(Written(aton, contexts)), gaps)
    ensures ParsedText(aton, indent + Layout(ConfigurationTokens(Written(aton, contexts)), gaps)) == Some(contexts)
  {
    WrittenIsRead(aton, contexts);
    ConfigurationIsTokens(Written(aton, contexts));
    ParseOfWritten(aton, contexts);
    LayoutIsParsed(aton, ConfigurationTokens(Written(aton, contexts)), indent, gaps);
  }

  /** Every text that can be parsed gives contexts that can be printed: the texts' contexts are the valid ones. */
  lemma ParsedTextIsValid(aton: string -> bool, text: string)
    requires ParsedText(aton, text).Some?
    ensures AllValid(aton, ParsedText(aton, text).value) && ParsedText(aton, text).value != []
  {
    LinesNeverDecrease(text);
    assert forall i | 0 <= i < |Tokens(text)| :: Tokens(text)[i] in Tokens(text);
    ParsedIsValid(aton, Datas(Tokens(text)));
  }

  /** Lexing and parsing as the program does it at its start; `None` stands for the exception. */
  method Load(file: string, aton: string -> bool) returns (contexts: Option<seq<ServerContext>>)
    ensures contexts == ParsedText(aton, file)
    ensures contexts.Some? ==> AllValid(aton, contexts.value)
  {
    var lexer := new Lexer();
    lexer.Tokenize(file);
    assert lexer.tokens == Tokens(file);
    LinesNeverDecrease(file);
    assert forall i | 0 <= i < |Tokens(file)| :: Tokens(file)[i] in Tokens(file);
    var parser := new Parser(lexer.tokens, aton);
    var r := parser.Parse();
    if r.None? { return None; }
    ParsedTextIsValid(aton, file);
    return Some(parser.contexts);
  }

  // ---------------------------------------------------------------------------------------------
  // What may be written only once

  predicate OnceInLocation(name: string) {
    name == "return" || name == "root" || name == "autoindex" || name == "index"
  }

  /** The field of a directive that may occur once has been set. */
  predicate Has(lc: LocationContext, name: string) {
    || (name == "return" && lc.redirect.0 != -1)
    || (name == "root" && lc.root != "")
    || (name == "autoindex" && lc.autoIndex != "")
    || (name == "index" && lc.index != "")
  }

  lemma ApplySets(lc: LocationContext, d: Directive)
    requires IsDirective(d) && OnceInLocation(d.name) && ApplyLocation(lc, d.name, d.args).Some?
    ensures Has(ApplyLocation(lc, d.name, d.args).value, d.name)
  {
    if d.name == "root" || d.name == "index" || d.name == "autoindex" {
      assert IsWord(d.args[0]);
    }
  }

  lemma {:induction false} SetIsRefused(lc: LocationContext, body: seq<Directive>, j: nat)
    requires j < |body| && Has(lc, body[j].name)
    ensures BodyMeaning(lc, body) == None
    decreases body
  {
    var next := ApplyLocation(lc, body[0].name, body[0].args);
    if j > 0 && next.Some? {
      SetIsRefused(next.value, body[1..], j - 1);
    }
  }

  /** A location with one of these directives twice has no meaning. */
  lemma {:induction false} RepeatedInLocation(lc: LocationContext, body: seq<Directive>, i: nat, j: nat)
    requires IsBody(body) && i < j < |body| && body[i].name == body[j].name && OnceInLocation(body[i].name)
    ensures BodyMeaning(lc, body) == None
    decreases body
  {
    var next := ApplyLocation(lc, body[0].name, body[0].args);
    if next.Some? {
      if i == 0 {
        ApplySets(lc, body[0]);
        SetIsRefused(next.value, body[1..], j - 1);
      } else {
        RepeatedInLocation(next.value, body[1..], i - 1, j - 1);
      }
    }
  }

  /** The two items may not occur in the same server. */
  predicate Clash(a: Item, b: Item) {
    match a
    case Block(key, _) => b.Block? && b.key == key
    case Plain(d) =>
      && b.Plain? && b.directive.name == d.name
      && (d.name == "listen" || d.name == "client_max_body_size" || d.name == "server_name")
  }

  /** What the item sets has been set. */
  predicate Taken(sc: ServerContext, item: Item) {
    match item
    case Block(key, _) => key in sc.locations
    case Plain(d) =>
      || (d.name == "listen" && sc.listen != ("", ""))
      || (d.name == "client_max_body_size" && sc.clientBodySize.0)
      || (d.name == "server_name" && sc.serverName != "")
  }

  lemma ItemTakes(aton: string -> bool, sc: ServerContext, a: Item, b: Item)
    requires IsItem(a) && Clash(a, b) && ItemMeaning(aton, sc, a).Some?
    ensures Taken(ItemMeaning(aton, sc, a).value, b)
  {
    if a.Plain? {
      assert IsWord(a.directive.args[0]);
      if a.directive.name == "listen" {
        assert Number("") == 0;
      }
    }
  }

  lemma {:induction false} TakenIsRefused(aton: string -> bool, sc: ServerContext, items: seq<Item>, j: nat)
    requires j < |items| && Taken(sc, items[j])
    ensures ServerMeaning(aton, sc, items) == None
    decreases items
  {
    var next := ItemMeaning(aton, sc, items[0]);
    if j > 0 && next.Some? {
      TakenStays(aton, sc, items[0], items[j]);
      TakenIsRefused(aton, next.value, items[1..], j - 1);
    }
  }

  lemma TakenStays(aton: string -> bool, sc: ServerContext, item: Item, other: Item)
    requires Taken(sc, other) && ItemMeaning(aton, sc, item).Some?
    ensures Taken(ItemMeaning(aton, sc, item).value, other)
  {
  }

  /** A server with two clashing items, a directive or a location written twice, has no meaning. */
  lemma {:induction false} RepeatedInServer(aton: string -> bool, sc: ServerContext, items: seq<Item>, i: nat, j: nat)
    requires IsServer(items) && i < j < |items| && Clash(items[i], items[j])
    ensures ServerMeaning(aton, sc, items) == None
    decreases items
  {
    var next := ItemMeaning(aton, sc, items[0]);
    if next.Some? {
      if i == 0 {
        assert IsItem(items[0]);
        ItemTakes(aton, sc, items[0], items[j]);
        TakenIsRefused(aton, next.value, items[1..], j - 1);
      } else {
        RepeatedInServer(aton, next.value, items[1..], i - 1, j - 1);
      }
    }
  }
}
