/** What a configuration means: contexts, the directives that build them, and how tokens spell directives. */
module Configuration {
  import opened Text
  import opened Lexing
  import Numbers
  import Paths

  const PORT_MIN := 1
  const PORT_MAX := 65535
  const STATUS_CODE_MIN := 300
  const STATUS_CODE_MAX := 599
  const RETURN_CODE_MAX := 999
  const METHODS: set<string> := {"DELETE", "GET", "POST"}

  datatype LocationContext = LocationContext(
    limitExcept: set<string>,
    redirect: (int, string),
    root: string,
    autoIndex: string,
    index: string,
    cgiExtension: seq<string>)

  datatype ServerContext = ServerContext(
    listen: (string, string),
    clientBodySize: (bool, int),
    serverName: string,
    errorPage: map<int, string>,
    locations: map<string, LocationContext>)

  const NO_LOCATION := LocationContext({}, (-1, ""), "", "", "", [])
  const NO_SERVER := ServerContext(("", ""), (false, 100000), "", map[], map[])

  /** A name and the words between it and its semicolon. */
  datatype Directive = Directive(name: string, args: seq<string>)

  datatype Item = Plain(directive: Directive) | Block(key: string, body: seq<Directive>)

  function Number(s: string): int {
    Numbers.StrToLong(s, Numbers.Decimal)
  }

  // ---------------------------------------------------------------------------------------------
  // What each directive does to a location context

  predicate IsMethod(s: string) {
    s == "DELETE" || s == "GET" || s == "POST"
  }

  /** The methods with one more after the other, none of which may occur twice. */
  function AddMethods(methods: set<string>, args: seq<string>): Option<set<string>>
    decreases args
  {
    if args == [] then Some(methods)
    else if IsMethod(args[0]) && args[0] !in methods then AddMethods(methods + {args[0]}, args[1..])
    else None
  }

  function LimitExcept(lc: LocationContext, args: seq<string>): Option<LocationContext> {
    if args == [] then None
    else match AddMethods(lc.limitExcept, args)
         case None => None
         case Some(methods) => Some(lc.(limitExcept := methods))
  }

  function Return(lc: LocationContext, args: seq<string>): Option<LocationContext> {
    if !(1 <= |args| <= 2) || lc.redirect.0 != -1 || !(0 <= Number(args[0]) <= RETURN_CODE_MAX) then None
    else Some(lc.(redirect := (Number(args[0]), if |args| == 2 then args[1] else lc.redirect.1)))
  }

  predicate IsFullPath(path: string) {
    path != "" && path[0] == '/'
  }

  function Root(lc: LocationContext, args: seq<string>): Option<LocationContext> {
    if |args| != 1 || !IsFullPath(args[0]) || lc.root != "" then None
    else match Paths.Normalized(args[0])
         case None => None
         case Some(normal) => Some(lc.(root := normal))
  }

  function AutoIndex(lc: LocationContext, args: seq<string>): Option<LocationContext> {
    if |args| != 1 || lc.autoIndex != "" || (args[0] != "on" && args[0] != "off") then None
    else Some(lc.(autoIndex := args[0]))
  }

  function Index(lc: LocationContext, args: seq<string>): Option<LocationContext> {
    if |args| != 1 || lc.index != "" then None else Some(lc.(index := args[0]))
  }

  /** A dot and something without a dot. */
  predicate IsExtension(s: string) {
    |s| > 1 && s[0] == '.' && forall i | 1 <= i < |s| :: s[i] != '.'
  }

  predicate AllExtensions(args: seq<string>) {
    forall i | 0 <= i < |args| :: IsExtension(args[i])
  }

  function CgiExtension(lc: LocationContext, args: seq<string>): Option<LocationContext> {
    if args == [] || !AllExtensions(args) then None
    else Some(lc.(cgiExtension := lc.cgiExtension + args))
  }

  function ApplyLocation(lc: LocationContext, name: string, args: seq<string>): Option<LocationContext> {
    if name == "limit_except" then LimitExcept(lc, args)
    else if name == "return" then Return(lc, args)
    else if name == "root" then Root(lc, args)
    else if name == "autoindex" then AutoIndex(lc, args)
    else if name == "index" then Index(lc, args)
    else if name == "cgi_extension" then CgiExtension(lc, args)
    else None
  }

  // ---------------------------------------------------------------------------------------------
  // What each directive does to a server context; `aton` says which texts `inet_aton` accepts

  /** The part before the first colon and the part behind it; without a colon there is no host. */
  function HostOf(s: string): string {
    match Colon(s) case None => "" case Some(p) => s[..p]
  }

  function PortOf(s: string): string {
    match Colon(s) case None => s case Some(p) => s[p + 1..]
  }

  function Listen(aton: string -> bool, sc: ServerContext, args: seq<string>): Option<ServerContext> {
    if |args| != 1 || sc.listen != ("", "") then None
    else if Colon(args[0]).Some? && !aton(HostOf(args[0])) then None
    else if !(PORT_MIN <= Number(PortOf(args[0])) <= PORT_MAX) then None
    else Some(sc.(listen := (HostOf(args[0]), PortOf(args[0]))))
  }

  function ClientBodySize(sc: ServerContext, args: seq<string>): Option<ServerContext> {
    if |args| != 1 || sc.clientBodySize.0 || Number(args[0]) < 0 then None
    else Some(sc.(clientBodySize := (true, Number(args[0]))))
  }

  function ServerName(sc: ServerContext, args: seq<string>): Option<ServerContext> {
    if |args| != 1 || sc.serverName != "" then None else Some(sc.(serverName := args[0]))
  }

  predicate IsStatus(code: int) {
    STATUS_CODE_MIN <= code <= STATUS_CODE_MAX
  }

  predicate AllStatuses(args: seq<string>) {
    forall i | 0 <= i < |args| :: IsStatus(Number(args[i]))
  }

  function Codes(args: seq<string>): set<int> {
    set i | 0 <= i < |args| :: Number(args[i])
  }

  /** All codes of the server get the path of the directive read last, those of earlier directives included. */
  function ErrorPage(sc: ServerContext, args: seq<string>): Option<ServerContext> {
    if |args| < 2 then None
    else
      var codes, path := args[..|args| - 1], args[|args| - 1];
      if !AllStatuses(codes) then None
      else Some(sc.(errorPage := map code | code in sc.errorPage.Keys + Codes(codes) :: path))
  }

  function ApplyServer(
    aton: string -> bool, sc: ServerContext, name: string, args: seq<string>): Option<ServerContext>
  {
    if name == "listen" then Listen(aton, sc, args)
    else if name == "client_max_body_size" then ClientBodySize(sc, args)
    else if name == "server_name" then ServerName(sc, args)
    else if name == "error_page" then ErrorPage(sc, args)
    else None
  }

  // ---------------------------------------------------------------------------------------------
  // The meaning of a whole configuration

  function BodyMeaning(lc: LocationContext, body: seq<Directive>): Option<LocationContext>
    decreases body
  {
    if body == [] then Some(lc)
    else match ApplyLocation(lc, body[0].name, body[0].args)
         case None => None
         case Some(next) => BodyMeaning(next, body[1..])
  }

  function ItemMeaning(aton: string -> bool, sc: ServerContext, item: Item): Option<ServerContext> {
    match item
    case Plain(d) => ApplyServer(aton, sc, d.name, d.args)
    case Block(key, body) =>
      if key in sc.locations then None
      else match BodyMeaning(NO_LOCATION, body)
           case None => None
           case Some(lc) => Some(sc.(locations := sc.locations[key := lc]))
  }

  function ServerMeaning(aton: string -> bool, sc: ServerContext, items: seq<Item>): Option<ServerContext>
    decreases items
  {
    if items == [] then Some(sc)
    else match ItemMeaning(aton, sc, items[0])
         case None => None
         case Some(next) => ServerMeaning(aton, next, items[1..])
  }

  function Meaning(aton: string -> bool, servers: seq<seq<Item>>): Option<seq<ServerContext>> {
    if servers == [] then Some([])
    else match ServerMeaning(aton, NO_SERVER, servers[0])
         case None => None
         case Some(sc) =>
           match Meaning(aton, servers[1..])
           case None => None
           case Some(others) => Some([sc] + others)
  }

  // ---------------------------------------------------------------------------------------------
  // How it is spelt

  predicate AllWords(args: seq<string>) {
    forall i | 0 <= i < |args| :: IsWord(args[i])
  }

  predicate IsDirective(d: Directive) {
    IsWord(d.name) && AllWords(d.args)
  }

  predicate IsBody(body: seq<Directive>) {
    forall i | 0 <= i < |body| :: IsDirective(body[i])
  }

  predicate IsItem(item: Item) {
    match item
    case Plain(d) => IsDirective(d)
    case Block(key, body) => IsWord(key) && IsBody(body)
  }

  predicate IsServer(items: seq<Item>) {
    forall i | 0 <= i < |items| :: IsItem(items[i])
  }

  predicate IsConfiguration(servers: seq<seq<Item>>) {
    forall i | 0 <= i < |servers| :: IsServer(servers[i])
  }

  function DirectiveTokens(d: Directive): seq<string> {
    [d.name] + d.args + [";"]
  }

  function BodyTokens(body: seq<Directive>): seq<string> {
    if body == [] then ["}"] else DirectiveTokens(body[0]) + BodyTokens(body[1..])
  }

  function ItemTokens(item: Item): seq<string> {
    match item
    case Plain(d) => DirectiveTokens(d)
    case Block(key, body) => ["location", key, "{"] + BodyTokens(body)
  }

  function ServerTokens(items: seq<Item>): seq<string> {
    if items == [] then ["}"] else ItemTokens(items[0]) + ServerTokens(items[1..])
  }

  function ConfigurationTokens(servers: seq<seq<Item>>): seq<string> {
    if servers == [] then [] else ["server", "{"] + ServerTokens(servers[0]) + ConfigurationTokens(servers[1..])
  }

  // ---------------------------------------------------------------------------------------------
  // Reading in one pass

  /** The words up to the next semicolon, behind those in `args`, and the tokens that follow. */
  function Arguments(args: seq<string>, rest: seq<string>): Option<(seq<string>, seq<string>)>
    decreases rest
  {
    if rest == [] || rest[0] == "{" || rest[0] == "}" then None
    else if rest[0] == ";" then Some((args, rest[1..]))
    else Arguments(args + [rest[0]], rest[1..])
  }

  lemma {:induction false} ArgumentsLeaveLess(args: seq<string>, rest: seq<string>)
    requires Arguments(args, rest).Some?
    ensures |Arguments(args, rest).value.1| < |rest|
    decreases rest
  {
    if rest[0] != ";" {
      ArgumentsLeaveLess(args + [rest[0]], rest[1..]);
    }
  }

  /** One directive of a location whose name has been read. */
  function ReadLocationDirective(lc: LocationContext, name: string, rest: seq<string>)
    : Option<(LocationContext, seq<string>)>
  {
    match Arguments([], rest)
    case None => None
    case Some((args, after)) =>
      match ApplyLocation(lc, name, args)
      case None => None
      case Some(next) => Some((next, after))
  }

  lemma LocationDirectiveLeavesLess(lc: LocationContext, name: string, rest: seq<string>)
    requires ReadLocationDirective(lc, name, rest).Some?
    ensures |ReadLocationDirective(lc, name, rest).value.1| < |rest|
  {
    ArgumentsLeaveLess([], rest);
  }

  function ReadBody(lc: LocationContext, rest: seq<string>): Option<(LocationContext, seq<string>)>
    decreases |rest|
  {
    if rest == [] then None
    else if rest[0] == "}" then Some((lc, rest[1..]))
    else match ReadLocationDirective(lc, rest[0], rest[1..])
         case None => None
         case Some((next, after)) =>
           LocationDirectiveLeavesLess(lc, rest[0], rest[1..]);
           ReadBody(next, after)
  }

  function ReadLocation(sc: ServerContext, rest: seq<string>): Option<(ServerContext, seq<string>)> {
    if |rest| < 2 || !IsWord(rest[0]) || rest[0] in sc.locations || rest[1] != "{" then None
    else match ReadBody(NO_LOCATION, rest[2..])
         case None => None
         case Some((lc, after)) => Some((sc.(locations := sc.locations[rest[0] := lc]), after))
  }

  function ReadServerDirective(aton: string -> bool, sc: ServerContext, name: string, rest: seq<string>)
    : Option<(ServerContext, seq<string>)>
  {
    match Arguments([], rest)
    case None => None
    case Some((args, after)) =>
      match ApplyServer(aton, sc, name, args)
      case None => None
      case Some(next) => Some((next, after))
  }

  function ReadItem(aton: string -> bool, sc: ServerContext, name: string, rest: seq<string>)
    : Option<(ServerContext, seq<string>)>
  {
    if name == "location" then ReadLocation(sc, rest) else ReadServerDirective(aton, sc, name, rest)
  }

  lemma {:induction false} BodyLeavesLess(lc: LocationContext, rest: seq<string>)
    requires ReadBody(lc, rest).Some?
    ensures |ReadBody(lc, rest).value.1| < |rest|
    decreases |rest|
  {
    if rest[0] != "}" {
      var (next, after) := ReadLocationDirective(lc, rest[0], rest[1..]).value;
      LocationDirectiveLeavesLess(lc, rest[0], rest[1..]);
      BodyLeavesLess(next, after);
    }
  }

  lemma ItemLeavesLess(aton: string -> bool, sc: ServerContext, name: string, rest: seq<string>)
    requires ReadItem(aton, sc, name, rest).Some?
    ensures |ReadItem(aton, sc, name, rest).value.1| < |rest|
  {
    if name == "location" {
      BodyLeavesLess(NO_LOCATION, rest[2..]);
    } else {
      ArgumentsLeaveLess([], rest);
    }
  }

  function ReadServer(aton: string -> bool, sc: ServerContext, rest: seq<string>): Option<(ServerContext, seq<string>)>
    decreases |rest|
  {
    if rest == [] then None
    else if rest[0] == "}" then Some((sc, rest[1..]))
    else match ReadItem(aton, sc, rest[0], rest[1..])
         case None => None
         case Some((next, after)) =>
           ItemLeavesLess(aton, sc, rest[0], rest[1..]);
           ReadServer(aton, next, after)
  }

  lemma {:induction false} ServerLeavesLess(aton: string -> bool, sc: ServerContext, rest: seq<string>)
    requires ReadServer(aton, sc, rest).Some?
    ensures |ReadServer(aton, sc, rest).value.1| < |rest|
    decreases |rest|
  {
    if rest[0] != "}" {
      var (next, after) := ReadItem(aton, sc, rest[0], rest[1..]).value;
      ItemLeavesLess(aton, sc, rest[0], rest[1..]);
      ServerLeavesLess(aton, next, after);
    }
  }

  function ReadServers(
    aton: string -> bool, contexts: seq<ServerContext>, rest: seq<string>): Option<seq<ServerContext>>
    decreases |rest|
  {
    if rest == [] then Some(contexts)
    else if |rest| < 2 || rest[0] != "server" || rest[1] != "{" then None
    else match ReadServer(aton, NO_SERVER, rest[2..])
         case None => None
         case Some((sc, after)) =>
           ServerLeavesLess(aton, NO_SERVER, rest[2..]);
           ReadServers(aton, contexts + [sc], after)
  }

  /** `Parser::Parse`, with `None` for the exception. */
  function Parsed(aton: string -> bool, data: seq<string>): Option<seq<ServerContext>> {
    if data == [] then None else ReadServers(aton, [], data)
  }
}
