/** The parser of the configuration language: a cursor over the tokens and one handler for each directive. */
module Parsing {
  import opened Text
  import opened Lexing
  import opened Configuration
  import opened Grammar
  import Numbers
  import Paths

  /** What a check that may throw a `ConfigErrException` comes to; a call that does so has no result. */
  datatype Check = Passed | Failed {
    predicate IsFailure() { Failed? }
    function PropagateFailure<U>(): Option<U>
      requires IsFailure()
    {
      None
    }
  }

  predicate Contains(s: string, chars: string) {
    exists i | 0 <= i < |s| :: s[i] in chars
  }

  lemma WordHasNoSeparator(s: string)
    requires IsToken(s)
    ensures Contains(s, ";{}") <==> !IsWord(s)
    ensures Contains(s, "{}") <==> s == "{" || s == "}"
    ensures Contains(s, ";") <==> s == ";"
  {
    OneCharacter(s);
    SeparatorsDiffer();
    if IsWord(s) { WordIsNoSeparator(s); }
    assert ";"[0] == ';' && "{"[0] == '{' && "}"[0] == '}';
  }

  lemma {:induction false} ArgumentsExtend(args: seq<string>, rest: seq<string>)
    requires Arguments(args, rest).Some?
    ensures args <= Arguments(args, rest).value.0
    decreases rest
  {
    if rest[0] != ";" {
      ArgumentsExtend(args + [rest[0]], rest[1..]);
    }
  }

  /** When there is one word and then a semicolon, and only then, there is one argument. */
  lemma OneArgument(rest: seq<string>)
    requires AllTokens(rest)
    ensures |rest| >= 2 && IsWord(rest[0]) && rest[1] == ";" ==>
      Arguments([], rest) == Some(([rest[0]], rest[1..][1..]))
    ensures Arguments([], rest).Some? && |Arguments([], rest).value.0| == 1 ==>
      |rest| >= 2 && IsWord(rest[0]) && rest[1] == ";"
  {
    if |rest| >= 2 && IsWord(rest[0]) && rest[1] == ";" {
      ArgumentsAreRead([], [rest[0]], rest[2..]);
      assert rest == [rest[0]] + [";"] + rest[2..] && [] + [rest[0]] == [rest[0]] && rest[1..][1..] == rest[2..];
    }
    if Arguments([], rest).Some? {
      var words := ArgumentsWereSpelt([], rest);
      assert [] + words == words;
    }
  }

  /** The one word and the semicolon that a directive with one argument asks for. */
  predicate HasOneArgument(rest: seq<string>) {
    |rest| >= 2 && IsWord(rest[0]) && rest[1] == ";"
  }

  /** `result` is the value for that one argument, with what is left behind the semicolon. */
  lemma ServerArgument(aton: string -> bool, sc: ServerContext, name: string, rest: seq<string>)
    requires AllTokens(rest) && name in {"listen", "client_max_body_size", "server_name"}
    ensures HasOneArgument(rest) ==>
      ReadServerDirective(aton, sc, name, rest) == ThenRest(ApplyServer(aton, sc, name, [rest[0]]), rest[1..][1..])
    ensures !HasOneArgument(rest) ==> ReadServerDirective(aton, sc, name, rest) == None
  {
    OneArgument(rest);
  }

  lemma LocationArgument(lc: LocationContext, name: string, rest: seq<string>)
    requires AllTokens(rest) && name in {"root", "autoindex", "index"}
    ensures HasOneArgument(rest) ==>
      ReadLocationDirective(lc, name, rest) == ThenRest(ApplyLocation(lc, name, [rest[0]]), rest[1..][1..])
    ensures !HasOneArgument(rest) ==> ReadLocationDirective(lc, name, rest) == None
  {
    OneArgument(rest);
  }

  lemma TwoArguments(rest: seq<string>)
    requires AllTokens(rest)
    ensures |rest| >= 3 && IsWord(rest[0]) && IsWord(rest[1]) && rest[2] == ";" ==>
      Arguments([], rest) == Some(([rest[0], rest[1]], rest[1..][1..][1..]))
    ensures Arguments([], rest).Some? && |Arguments([], rest).value.0| == 2 ==>
      |rest| >= 3 && IsWord(rest[0]) && IsWord(rest[1]) && rest[2] == ";"
  {
    if |rest| >= 3 && IsWord(rest[0]) && IsWord(rest[1]) && rest[2] == ";" {
      var words := [rest[0], rest[1]];
      ArgumentsAreRead([], words, rest[3..]);
      assert rest == words + [";"] + rest[3..] && [] + words == words && rest[1..][1..][1..] == rest[3..];
    }
    if Arguments([], rest).Some? {
      var words := ArgumentsWereSpelt([], rest);
      assert [] + words == words;
    }
  }

  lemma {:induction false} MethodsOfPrefix(methods: set<string>, args: seq<string>, more: seq<string>)
    requires AddMethods(methods, args) == None
    ensures AddMethods(methods, args + more) == None
    decreases args
  {
    if args != [] && IsMethod(args[0]) && args[0] !in methods {
      assert (args + more)[1..] == args[1..] + more;
      MethodsOfPrefix(methods + {args[0]}, args[1..], more);
    }
  }

  lemma {:induction false} MethodsAppend(methods: set<string>, args: seq<string>, arg: string)
    requires AddMethods(methods, args).Some?
    ensures AddMethods(methods, args + [arg])
         == if IsMethod(arg) && arg !in AddMethods(methods, args).value
            then Some(AddMethods(methods, args).value + {arg}) else None
    decreases args
  {
    if args == [] {
      assert [] + [arg] == [arg] && [arg][1..] == [];
    } else {
      assert (args + [arg])[1..] == args[1..] + [arg];
      MethodsAppend(methods + {args[0]}, args[1..], arg);
    }
  }

  lemma Inhabited(s: set<int>)
    ensures s == {} || exists x :: x in s
  {
    if forall x: int :: x !in s {
      assert s == {};
    }
  }

  class TokenManager {
    const tokens: seq<Token>
    var itr: nat

    constructor (tokens: seq<Token>)
      ensures this.tokens == tokens && itr == 0
    {
      this.tokens := tokens;
      itr := 0;
    }

    /** The cursor is at a token, and the tokens are those of a lexer. */
    ghost predicate Valid()
      reads this
    {
      itr < |tokens| && AllTokens(Datas(tokens))
    }

    /** What is behind the cursor. */
    ghost function Rest(): seq<string>
      requires itr < |tokens|
      reads this
    {
      Datas(tokens)[itr + 1..]
    }

    /** What is at the cursor and behind it. */
    ghost function Here(): seq<string>
      requires itr < |tokens|
      reads this
    {
      Datas(tokens)[itr..]
    }

    lemma HereIsCurrent()
      requires itr < |tokens|
      ensures Here() != [] && Here()[0] == Data() && Here()[1..] == Rest()
    {
    }

    lemma CurrentIsToken()
      requires Valid()
      ensures IsToken(Data())
    {
      assert IsToken(Datas(tokens)[itr]);
    }

    predicate End()
      reads this
    {
      itr == |tokens|
    }

    method Next() returns (r: Option<Token>)
      requires Valid()
      modifies this
      ensures Valid()
      ensures r.None? <==> old(Rest()) == []
      ensures r.None? ==> itr == old(itr)
      ensures r.Some? ==> r.value == tokens[itr] && itr == old(itr) + 1 && Here() == old(Rest())
      ensures r.Some? ==> r.value.data == old(Rest())[0] && IsToken(r.value.data) && Rest() == old(Rest())[1..]
    {
      itr := itr + 1;
      if itr == |tokens| {
        itr := itr - 1;
        return None;
      }
      assert IsToken(Datas(tokens)[itr]);
      return Some(tokens[itr]);
    }

    method Increment()
      requires Valid()
      modifies this
      ensures itr == old(itr) + 1
    {
      itr := itr + 1;
    }

    function Current(): Token
      requires itr < |tokens|
      reads this
    {
      tokens[itr]
    }

    function Data(): string
      requires itr < |tokens|
      reads this
    {
      Current().data
    }

    method ThrowExceptionIfMatch(chars: string) returns (r: Check)
      requires itr < |tokens|
      ensures r.Failed? <==> Contains(Data(), chars)
    {
      r := if Contains(Data(), chars) then Failed else Passed;
    }

    method ThrowExceptionIfNotMatch(chars: string) returns (r: Check)
      requires itr < |tokens|
      ensures r.Failed? <==> !Contains(Data(), chars)
    {
      r := if Contains(Data(), chars) then Passed else Failed;
    }
  }

  class Parser {
    const tkns: TokenManager
    const aton: string -> bool
    var contexts: seq<ServerContext>

    constructor (tokens: seq<Token>, aton: string -> bool)
      ensures tkns.tokens == tokens && tkns.itr == 0 && this.aton == aton && contexts == [] && fresh(tkns)
    {
      this.tkns := new TokenManager(tokens);
      this.aton := aton;
      contexts := [];
    }

    // On tokens the checks for characters are checks for separators.

    method ThrowUnlessWord() returns (r: Check)
      requires tkns.Valid()
      ensures r.Failed? <==> !IsWord(tkns.Data())
    {
      tkns.CurrentIsToken();
      WordHasNoSeparator(tkns.Data());
      r := tkns.ThrowExceptionIfMatch(";{}");
    }

    method ThrowIfBrace() returns (r: Check)
      requires tkns.Valid()
      ensures r.Failed? <==> tkns.Data() == "{" || tkns.Data() == "}"
    {
      tkns.CurrentIsToken();
      WordHasNoSeparator(tkns.Data());
      r := tkns.ThrowExceptionIfMatch("{}");
    }

    method ThrowIfSemicolon() returns (r: Check)
      requires tkns.Valid()
      ensures r.Failed? <==> tkns.Data() == ";"
    {
      tkns.CurrentIsToken();
      WordHasNoSeparator(tkns.Data());
      r := tkns.ThrowExceptionIfMatch(";");
    }

    method ThrowUnlessSemicolon() returns (r: Check)
      requires tkns.Valid()
      ensures r.Failed? <==> tkns.Data() != ";"
    {
      tkns.CurrentIsToken();
      WordHasNoSeparator(tkns.Data());
      r := tkns.ThrowExceptionIfNotMatch(";");
    }

    method ParseListen(tkn: Token) returns (r: Option<string>)
      ensures r == if PORT_MIN <= Number(PortOf(tkn.data)) <= PORT_MAX then Some(PortOf(tkn.data)) else None
    {
      var listenStr := tkn.data;
      var colonPos := Colon(listenStr);
      if colonPos.Some? {
        listenStr := listenStr[colonPos.value + 1..];
      }
      var listen := Number(listenStr);
      if PORT_MIN > listen || listen > PORT_MAX { return None; }
      return Some(listenStr);
    }

    method ParseHost(tkn: Token) returns (r: Option<string>)
      ensures r == if Colon(tkn.data).Some? && !aton(HostOf(tkn.data)) then None else Some(HostOf(tkn.data))
    {
      var host := "";
      var colonPos := Colon(tkn.data);
      if colonPos.Some? {
        host := tkn.data[..colonPos.value];
        if !aton(host) { return None; }
      }
      return Some(host);
    }

    lemma NoNumber(s: string)
      requires IsToken(s) && Number(s) != -1
      ensures IsWord(s)
    {
      if IsSeparator(s) {
        Numbers.NoDigitNoNumber(s);
      }
    }

    method StoreListen(sc: ServerContext) returns (r: Option<ServerContext>)
      requires tkns.Valid()
      modifies tkns
      ensures tkns.Valid() && tkns.itr >= old(tkns.itr)
      ensures r.Some? ==> ReadServerDirective(aton, sc, "listen", old(tkns.Rest())) == Some((r.value, tkns.Rest()))
      ensures r.None? ==> ReadServerDirective(aton, sc, "listen", old(tkns.Rest())) == None
    {
      ServerArgument(aton, sc, "listen", tkns.Rest());
      if sc.listen.0 != "" || sc.listen.1 != "" { return None; }
      var _ :- tkns.Next();
      WordHasNoSeparator(tkns.Data());
      var host :- ParseHost(tkns.Current());
      var port :- ParseListen(tkns.Current());
      PortIsWord(tkns.Data());
      var _ :- tkns.Next();
      :- ThrowUnlessSemicolon();
      return Some(sc.(listen := (host, port)));
    }

    lemma PortIsWord(s: string)
      requires IsToken(s) && Number(PortOf(s)) > 0
      ensures IsWord(s)
    {
      if IsSeparator(s) {
        assert s == [s[0]] && PortOf(s) == s;
        NoNumber(s);
      }
    }

    method StoreClientBodySize(sc: ServerContext) returns (r: Option<ServerContext>)
      requires tkns.Valid()
      modifies tkns
      ensures tkns.Valid() && tkns.itr >= old(tkns.itr)
      ensures r.Some? ==>
        ReadServerDirective(aton, sc, "client_max_body_size", old(tkns.Rest())) == Some((r.value, tkns.Rest()))
      ensures r.None? ==> ReadServerDirective(aton, sc, "client_max_body_size", old(tkns.Rest())) == None
    {
      ServerArgument(aton, sc, "client_max_body_size", tkns.Rest());
      if sc.clientBodySize.0 { return None; }
      var _ :- tkns.Next();
      var size := Number(tkns.Data());
      if size < 0 { return None; }
      NoNumber(tkns.Data());
      var _ :- tkns.Next();
      :- ThrowUnlessSemicolon();
      return Some(sc.(clientBodySize := (true, size)));
    }

    method StoreServerName(sc: ServerContext) returns (r: Option<ServerContext>)
      requires tkns.Valid()
      modifies tkns
      ensures tkns.Valid() && tkns.itr >= old(tkns.itr)
      ensures r.Some? ==> ReadServerDirective(aton, sc, "server_name", old(tkns.Rest())) == Some((r.value, tkns.Rest()))
      ensures r.None? ==> ReadServerDirective(aton, sc, "server_name", old(tkns.Rest())) == None
    {
      ServerArgument(aton, sc, "server_name", tkns.Rest());
      var _ :- tkns.Next();
      :- ThrowUnlessWord();
      if sc.serverName != "" { return None; }
      var name := tkns.Data();
      var _ :- tkns.Next();
      :- ThrowUnlessSemicolon();
      return Some(sc.(serverName := name));
    }

    method StoreRoot(lc: LocationContext) returns (r: Option<LocationContext>)
      requires tkns.Valid()
      modifies tkns
      ensures tkns.Valid() && tkns.itr >= old(tkns.itr)
      ensures r.Some? ==> ReadLocationDirective(lc, "root", old(tkns.Rest())) == Some((r.value, tkns.Rest()))
      ensures r.None? ==> ReadLocationDirective(lc, "root", old(tkns.Rest())) == None
    {
      LocationArgument(lc, "root", tkns.Rest());
      var _ :- tkns.Next();
      :- ThrowUnlessWord();
      var validPath := Paths.IsValidPath(tkns.Data());
      if !IsFullPath(tkns.Data()) || !validPath { return None; }
      if lc.root != "" { return None; }
      var normal := Paths.Normalize(tkns.Data());
      var _ :- tkns.Next();
      :- ThrowUnlessSemicolon();
      return Some(lc.(root := normal.value));
    }

    method StoreAutoIndex(lc: LocationContext) returns (r: Option<LocationContext>)
      requires tkns.Valid()
      modifies tkns
      ensures tkns.Valid() && tkns.itr >= old(tkns.itr)
      ensures r.Some? ==> ReadLocationDirective(lc, "autoindex", old(tkns.Rest())) == Some((r.value, tkns.Rest()))
      ensures r.None? ==> ReadLocationDirective(lc, "autoindex", old(tkns.Rest())) == None
    {
      LocationArgument(lc, "autoindex", tkns.Rest());
      var _ :- tkns.Next();
      if tkns.Data() != "off" && tkns.Data() != "on" { return None; }
      LongTokenIsWord(tkns.Data());
      if lc.autoIndex != "" { return None; }
      var value := tkns.Data();
      var _ :- tkns.Next();
      :- ThrowUnlessSemicolon();
      return Some(lc.(autoIndex := value));
    }

    method StoreIndex(lc: LocationContext) returns (r: Option<LocationContext>)
      requires tkns.Valid()
      modifies tkns
      ensures tkns.Valid() && tkns.itr >= old(tkns.itr)
      ensures r.Some? ==> ReadLocationDirective(lc, "index", old(tkns.Rest())) == Some((r.value, tkns.Rest()))
      ensures r.None? ==> ReadLocationDirective(lc, "index", old(tkns.Rest())) == None
    {
      LocationArgument(lc, "index", tkns.Rest());
      var _ :- tkns.Next();
      :- ThrowUnlessWord();
      if lc.index != "" { return None; }
      var value := tkns.Data();
      var _ :- tkns.Next();
      :- ThrowUnlessSemicolon();
      return Some(lc.(index := value));
    }

    lemma ReturnRead(lc: LocationContext, rest: seq<string>)
      requires AllTokens(rest)
      ensures ReadLocationDirective(lc, "return", rest).Some? ==>
        |rest| >= 2 && IsWord(rest[0]) && (rest[1] == ";" || (|rest| >= 3 && IsWord(rest[1]) && rest[2] == ";"))
    {
      OneArgument(rest);
      TwoArguments(rest);
    }

    method StoreRedirect(lc: LocationContext) returns (r: Option<LocationContext>)
      requires tkns.Valid()
      modifies tkns
      ensures tkns.Valid() && tkns.itr >= old(tkns.itr)
      ensures r.Some? ==> ReadLocationDirective(lc, "return", old(tkns.Rest())) == Some((r.value, tkns.Rest()))
      ensures r.None? ==> ReadLocationDirective(lc, "return", old(tkns.Rest())) == None
    {
      OneArgument(tkns.Rest());
      TwoArguments(tkns.Rest());
      ReturnRead(lc, tkns.Rest());
      if lc.redirect.0 != -1 { return None; }
      var _ :- tkns.Next();
      var code := Number(tkns.Data());
      if RETURN_CODE_MAX < code || code < 0 { return None; }
      NoNumber(tkns.Data());
      var _ :- tkns.Next();
      :- ThrowIfBrace();
      if tkns.Data() == ";" {
        return Some(lc.(redirect := (code, lc.redirect.1)));
      }
      OneCharacter(tkns.Data());
      var value := tkns.Data();
      var _ :- tkns.Next();
      :- ThrowUnlessSemicolon();
      return Some(lc.(redirect := (code, value)));
    }

    /** A word at the cursor becomes one more argument. */
    lemma TakeWord(taken: seq<string>)
      requires tkns.Valid() && IsWord(tkns.Data())
      ensures Arguments(taken, tkns.Here()) == Arguments(taken + [tkns.Data()], tkns.Rest())
    {
      tkns.HereIsCurrent();
      WordIsNoSeparator(tkns.Data());
    }

    lemma TakeEnd(taken: seq<string>)
      requires tkns.Valid()
      ensures tkns.Data() == ";" ==> Arguments(taken, tkns.Here()) == Some((taken, tkns.Rest()))
      ensures tkns.Data() == "{" || tkns.Data() == "}" ==> Arguments(taken, tkns.Here()) == None
    {
      tkns.HereIsCurrent();
      SeparatorsDiffer();
    }

    lemma BadMethod(lc: LocationContext, taken: seq<string>, rest: seq<string>)
      requires tkns.Valid() && Arguments([], rest) == Arguments(taken, tkns.Here())
      requires tkns.Data() == ";" ==> taken == []
      requires AddMethods(lc.limitExcept, taken + [tkns.Data()]) == None
      ensures ReadLocationDirective(lc, "limit_except", rest) == None
    {
      assert IsToken(Datas(tkns.tokens)[tkns.itr]);
      OneCharacter(tkns.Data());
      TakeEnd(taken);
      if IsWord(tkns.Data()) && Arguments([], rest).Some? {
        TakeWord(taken);
        ArgumentsExtend(taken + [tkns.Data()], tkns.Rest());
        var args := Arguments([], rest).value.0;
        var n := |taken| + 1;
        MethodsOfPrefix(lc.limitExcept, taken + [tkns.Data()], args[n..]);
        assert args == taken + [tkns.Data()] + args[n..];
      }
    }

    method StoreLimitExcept(lc: LocationContext) returns (r: Option<LocationContext>)
      requires tkns.Valid()
      modifies tkns
      ensures tkns.Valid() && tkns.itr >= old(tkns.itr)
      ensures r.Some? ==> ReadLocationDirective(lc, "limit_except", old(tkns.Rest())) == Some((r.value, tkns.Rest()))
      ensures r.None? ==> ReadLocationDirective(lc, "limit_except", old(tkns.Rest())) == None
    {
      ghost var rest := tkns.Rest();
      ghost var taken: seq<string> := [];
      var methods := lc.limitExcept;
      var tkn :- tkns.Next();
      while true
        invariant tkns.Valid() && tkns.itr >= old(tkns.itr) && tkn == tkns.Current()
        invariant Arguments([], rest) == Arguments(taken, tkns.Here())
        invariant tkn.data == ";" ==> taken == []
        invariant AddMethods(lc.limitExcept, taken) == Some(methods)
        decreases |tkns.tokens| - tkns.itr
      {
        MethodsAppend(lc.limitExcept, taken, tkn.data);
        if tkn.data == "DELETE" || tkn.data == "GET" || tkn.data == "POST" {
          if tkn.data in methods {
            BadMethod(lc, taken, rest);
            return None;
          }
          methods := methods + {tkn.data};
        } else {
          BadMethod(lc, taken, rest);
          return None;
        }
        TakeMethod(taken);
        taken := taken + [tkn.data];
        tkn :- tkns.Next();
        if tkn.data == ";" { break; }
      }
      TakeEnd(taken);
      var semicolon := ThrowUnlessSemicolon();
      return if semicolon.Failed? then None else Some(lc.(limitExcept := methods));
    }

    lemma TakeMethod(taken: seq<string>)
      requires tkns.Valid() && IsMethod(tkns.Data())
      ensures Arguments(taken, tkns.Here()) == Arguments(taken + [tkns.Data()], tkns.Rest())
    {
      assert IsWord("DELETE") && IsWord("GET") && IsWord("POST");
      TakeWord(taken);
    }

    lemma BadExtension(lc: LocationContext, taken: seq<string>, rest: seq<string>)
      requires tkns.Valid() && Arguments([], rest) == Arguments(taken, tkns.Here())
      requires tkns.Data() != ";" && !IsExtension(tkns.Data())
      ensures ReadLocationDirective(lc, "cgi_extension", rest) == None
    {
      assert IsToken(Datas(tkns.tokens)[tkns.itr]);
      OneCharacter(tkns.Data());
      TakeEnd(taken);
      if IsWord(tkns.Data()) && Arguments([], rest).Some? {
        TakeWord(taken);
        ArgumentsExtend(taken + [tkns.Data()], tkns.Rest());
        assert Arguments([], rest).value.0[|taken|] == tkns.Data();
      }
    }

    lemma NoExtension(lc: LocationContext, rest: seq<string>)
      requires AllTokens(rest) && (rest == [] || !IsWord(rest[0]))
      ensures ReadLocationDirective(lc, "cgi_extension", rest) == None
    {
      if rest != [] { OneCharacter(rest[0]); }
    }

    lemma ExtensionsEnd(lc: LocationContext, taken: seq<string>, rest: seq<string>)
      requires tkns.Valid() && Arguments([], rest) == Arguments(taken, tkns.Here())
      requires tkns.Data() == ";" && taken != [] && AllExtensions(taken)
      ensures ReadLocationDirective(lc, "cgi_extension", rest)
           == Some((lc.(cgiExtension := lc.cgiExtension + taken), tkns.Rest()))
    {
      TakeEnd(taken);
    }

    method StoreCgiExtension(lc: LocationContext) returns (r: Option<LocationContext>)
      requires tkns.Valid()
      modifies tkns
      ensures tkns.Valid() && tkns.itr >= old(tkns.itr)
      ensures r.Some? ==> ReadLocationDirective(lc, "cgi_extension", old(tkns.Rest())) == Some((r.value, tkns.Rest()))
      ensures r.None? ==> ReadLocationDirective(lc, "cgi_extension", old(tkns.Rest())) == None
    {
      ghost var rest := tkns.Rest();
      ghost var taken: seq<string> := [];
      var extensions := lc.cgiExtension;
      if rest == [] || !IsWord(rest[0]) { NoExtension(lc, rest); }
      var _ :- tkns.Next();
      :- ThrowUnlessWord();
      while tkns.Data() != ";"
        invariant tkns.Valid() && tkns.itr >= old(tkns.itr)
        invariant Arguments([], rest) == Arguments(taken, tkns.Here())
        invariant tkns.Data() == ";" ==> taken != []
        invariant AllExtensions(taken) && extensions == lc.cgiExtension + taken
        decreases |tkns.tokens| - tkns.itr
      {
        if !IsExtension(tkns.Data()) {
          BadExtension(lc, taken, rest);
          return None;
        }
        assert IsToken(Datas(tkns.tokens)[tkns.itr]);
        LongTokenIsWord(tkns.Data());
        TakeWord(taken);
        taken := taken + [tkns.Data()];
        extensions := extensions + [tkns.Data()];
        var _ :- tkns.Next();
      }
      ExtensionsEnd(lc, taken, rest);
      assert IsToken(Datas(tkns.tokens)[tkns.itr]);
      var semicolon := ThrowUnlessSemicolon();
      return if semicolon.Failed? then None else Some(lc.(cgiExtension := extensions));
    }

    /** Every code gets the page. */
    method SetPages(pages: map<int, string>, path: string) returns (r: map<int, string>)
      ensures r.Keys == pages.Keys && forall code <- r.Keys :: r[code] == path
    {
      r := pages;
      var left := pages.Keys;
      while left != {}
        invariant r.Keys == pages.Keys && left <= pages.Keys
        invariant forall code <- pages.Keys - left :: r[code] == path
        decreases |left|
      {
        Inhabited(left);
        var code :| code in left;
        r := r[code := path];
        left := left - {code};
      }
    }

    lemma SamePages(pages: map<int, string>, keys: set<int>, path: string)
      requires pages.Keys == keys && forall code <- pages.Keys :: pages[code] == path
      ensures pages == map code | code in keys :: path
    {
      var all := map code | code in keys :: path;
      assert all.Keys == pages.Keys;
      assert forall code <- pages.Keys :: all[code] == pages[code];
    }

    lemma BadCode(sc: ServerContext, codes: seq<string>, code: string, rest: seq<string>)
      requires tkns.Valid() && Arguments([], rest) == Arguments(codes + [code], tkns.Here())
      requires IsWord(tkns.Data()) && !IsStatus(Number(code))
      ensures ReadServerDirective(aton, sc, "error_page", rest) == None
    {
      if Arguments([], rest).Some? {
        TakeWord(codes + [code]);
        ArgumentsExtend(codes + [code] + [tkns.Data()], tkns.Rest());
        var args := Arguments([], rest).value.0;
        assert args[..|args| - 1][|codes|] == code;
      }
    }

    lemma NoPage(sc: ServerContext, rest: seq<string>)
      requires AllTokens(rest)
      requires rest == [] || !IsWord(rest[0]) || rest[1..] == [] || rest[1] == ";"
      ensures ReadServerDirective(aton, sc, "error_page", rest) == None
    {
      if Arguments([], rest).Some? {
        var words := ArgumentsWereSpelt([], rest);
        assert [] + words == words;
        forall i | 0 <= i < |words| ensures rest[i] == words[i] && words[i] != ";" {
          WordIsNoSeparator(words[i]);
        }
      }
    }

    lemma CodesAppend(keys: set<int>, codes: seq<string>, code: string)
      ensures keys + Codes(codes + [code]) == keys + Codes(codes) + {Number(code)}
    {
      var all := codes + [code];
      assert all[|codes|] == code && forall i | 0 <= i < |codes| :: all[i] == codes[i];
      forall n | n in Codes(codes) ensures n in Codes(all) {
        var i :| 0 <= i < |codes| && Number(codes[i]) == n;
        assert Number(all[i]) == n;
      }
    }

    lemma PagesAreSet(sc: ServerContext, codes: seq<string>, path: string)
      requires codes != [] && AllStatuses(codes)
      ensures ErrorPage(sc, codes + [path])
           == Some(sc.(errorPage := map code | code in sc.errorPage.Keys + Codes(codes) :: path))
    {
      var args := codes + [path];
      assert args[..|args| - 1] == codes && args[|args| - 1] == path;
    }

    /**
     What holds while the codes are read: `codes` have been, `current` is the next one or, in the end, the page,
     and the cursor is behind it.
     */
    ghost predicate Reading(sc: ServerContext, rest: seq<string>, codes: seq<string>, current: string)
      requires tkns.Valid()
      reads tkns
    {
      && IsToken(current) && AllStatuses(codes)
      && (if IsWord(current) then Arguments([], rest) == Arguments(codes + [current], tkns.Here())
          else codes == [] && ReadServerDirective(aton, sc, "error_page", rest) == None)
    }

    lemma StartReading(sc: ServerContext, rest: seq<string>)
      requires tkns.Valid() && AllTokens(rest) && |rest| >= 2 && rest[1..] == tkns.Here()
      ensures Reading(sc, rest, [], rest[0])
    {
      if IsWord(rest[0]) {
        WordIsNoSeparator(rest[0]);
      } else {
        NoPage(sc, rest);
      }
    }

    /** One code is checked and stored; `None` stands for the exception. */
    method StoreCode(pages: map<int, string>, current: string) returns (r: Option<map<int, string>>)
      ensures r.None? <==> !IsStatus(Number(current))
      ensures r.Some? ==> r.value.Keys == pages.Keys + {Number(current)}
    {
      var errNum := Number(current);
      if errNum < STATUS_CODE_MIN || STATUS_CODE_MAX < errNum { return None; }
      if errNum in pages { return Some(pages); }
      return Some(pages[errNum := ""]);
    }

    /** The part of the loop below that looks at `current`, the token before the cursor. */
    method StoreCodeBefore(sc: ServerContext, codesRead: map<int, string>, current: string,
                           ghost rest: seq<string>, ghost codes: seq<string>)
      returns (r: Option<map<int, string>>)
      requires tkns.Valid() && Reading(sc, rest, codes, current) && tkns.Data() != ";"
      requires codesRead.Keys == sc.errorPage.Keys + Codes(codes)
      ensures r.None? ==> ReadServerDirective(aton, sc, "error_page", rest) == None
      ensures r.Some? ==> AllStatuses(codes + [current]) && IsWord(tkns.Data())
      ensures r.Some? ==> Arguments([], rest) == Arguments(codes + [current] + [tkns.Data()], tkns.Rest())
      ensures r.Some? ==> r.value.Keys == sc.errorPage.Keys + Codes(codes + [current])
    {
      tkns.CurrentIsToken();
      OneCharacter(tkns.Data());
      if !IsWord(tkns.Data()) || !IsStatus(Number(current)) { BadNext(sc, rest, codes, current); }
      :- ThrowIfBrace();
      var pages :- StoreCode(codesRead, current);
      KeepReading(sc, rest, codes, current);
      CodesAppend(sc.errorPage.Keys, codes, current);
      return Some(pages);
    }

    lemma BadNext(sc: ServerContext, rest: seq<string>, codes: seq<string>, current: string)
      requires tkns.Valid() && Reading(sc, rest, codes, current)
      requires tkns.Data() == "{" || tkns.Data() == "}" || (IsWord(tkns.Data()) && !IsStatus(Number(current)))
      ensures ReadServerDirective(aton, sc, "error_page", rest) == None
    {
      if IsWord(current) {
        TakeEnd(codes + [current]);
        if IsWord(tkns.Data()) { BadCode(sc, codes, current, rest); }
      }
    }

    lemma KeepReading(sc: ServerContext, rest: seq<string>, codes: seq<string>, current: string)
      requires tkns.Valid() && Reading(sc, rest, codes, current)
      requires IsWord(tkns.Data()) && IsStatus(Number(current))
      ensures Arguments([], rest) == Arguments(codes + [current] + [tkns.Data()], tkns.Rest())
      ensures AllStatuses(codes + [current])
    {
      NoNumber(current);
      TakeWord(codes + [current]);
    }

    lemma StopReading(sc: ServerContext, rest: seq<string>, codes: seq<string>, current: string)
      requires tkns.Valid() && Reading(sc, rest, codes, current) && tkns.Data() == ";" && codes != []
      ensures ReadServerDirective(aton, sc, "error_page", rest)
           == Some((sc.(errorPage := map code | code in sc.errorPage.Keys + Codes(codes) :: current), tkns.Rest()))
    {
      TakeEnd(codes + [current]);
      PagesAreSet(sc, codes, current);
    }

    method StoreErrorPage(sc: ServerContext) returns (r: Option<ServerContext>)
      requires tkns.Valid()
      modifies tkns
      ensures tkns.Valid() && tkns.itr >= old(tkns.itr)
      ensures r.Some? ==> ReadServerDirective(aton, sc, "error_page", old(tkns.Rest())) == Some((r.value, tkns.Rest()))
      ensures r.None? ==> ReadServerDirective(aton, sc, "error_page", old(tkns.Rest())) == None
    {
      ghost var rest := tkns.Rest();
      if rest == [] || rest[1..] == [] || rest[1] == ";" { NoPage(sc, rest); }
      var current :- tkns.Next();
      var next :- tkns.Next();
      :- ThrowIfSemicolon();
      ghost var codes: seq<string> := [];
      StartReading(sc, rest);
      var pages := sc.errorPage;
      assert sc.errorPage.Keys + Codes(codes) == sc.errorPage.Keys;
      while next.data != ";"
        invariant tkns.Valid() && tkns.itr >= old(tkns.itr) && next == tkns.Current() && IsToken(next.data)
        invariant Reading(sc, rest, codes, current.data)
        invariant next.data == ";" ==> codes != []
        invariant pages.Keys == sc.errorPage.Keys + Codes(codes)
        decreases |tkns.tokens| - tkns.itr
      {
        pages :- StoreCodeBefore(sc, pages, current.data, rest, codes);
        codes := codes + [current.data];
        current := next;
        next :- tkns.Next();
      }
      r := EndErrorPage(sc, pages, current, rest, codes);
    }

    /** The part of `StoreErrorPage` behind its loop, with the cursor at the semicolon. */
    method EndErrorPage(sc: ServerContext, codesRead: map<int, string>, current: Token,
                        ghost rest: seq<string>, ghost codes: seq<string>)
      returns (r: Option<ServerContext>)
      requires tkns.Valid() && Reading(sc, rest, codes, current.data) && tkns.Data() == ";" && codes != []
      requires codesRead.Keys == sc.errorPage.Keys + Codes(codes)
      ensures r.Some? && ReadServerDirective(aton, sc, "error_page", rest) == Some((r.value, tkns.Rest()))
    {
      StopReading(sc, rest, codes, current.data);
      var pages := SetPages(codesRead, current.data);
      SamePages(pages, sc.errorPage.Keys + Codes(codes), current.data);
      var brace := ThrowIfBrace();
      var semicolon := ThrowUnlessSemicolon();
      return if brace.Failed? || semicolon.Failed? then None else Some(sc.(errorPage := pages));
    }

    /** `location_directive_case_` */
    method StoreLocationDirective(lc: LocationContext) returns (r: Option<LocationContext>)
      requires tkns.Valid()
      modifies tkns
      ensures tkns.Valid() && tkns.itr >= old(tkns.itr)
      ensures r.Some? ==>
        ReadLocationDirective(lc, old(tkns.Data()), old(tkns.Rest())) == Some((r.value, tkns.Rest()))
      ensures r.None? ==> ReadLocationDirective(lc, old(tkns.Data()), old(tkns.Rest())) == None
    {
      var name := tkns.Data();
      if name == "limit_except" {
        r := StoreLimitExcept(lc);
      } else if name == "return" {
        r := StoreRedirect(lc);
      } else if name == "root" {
        r := StoreRoot(lc);
      } else if name == "autoindex" {
        r := StoreAutoIndex(lc);
      } else if name == "index" {
        r := StoreIndex(lc);
      } else if name == "cgi_extension" {
        r := StoreCgiExtension(lc);
      } else {
        r := None;
      }
    }

    method MakeLocationDirectives() returns (r: Option<LocationContext>)
      requires tkns.Valid()
      modifies tkns
      ensures tkns.Valid() && tkns.itr >= old(tkns.itr)
      ensures r.Some? ==> ReadBody(NO_LOCATION, old(tkns.Rest())) == Some((r.value, tkns.Rest()))
      ensures r.None? ==> ReadBody(NO_LOCATION, old(tkns.Rest())) == None
    {
      var lc := NO_LOCATION;
      while true
        invariant tkns.Valid() && tkns.itr >= old(tkns.itr)
        invariant ReadBody(lc, tkns.Rest()) == ReadBody(NO_LOCATION, old(tkns.Rest()))
        decreases |tkns.tokens| - tkns.itr
      {
        var tkn :- tkns.Next();
        if tkn.data == "}" { break; }
        lc :- StoreLocationDirective(lc);
      }
      return Some(lc);
    }

    method StoreLocation(sc: ServerContext) returns (r: Option<ServerContext>)
      requires tkns.Valid()
      modifies tkns
      ensures tkns.Valid() && tkns.itr >= old(tkns.itr)
      ensures r.Some? ==> ReadLocation(sc, old(tkns.Rest())) == Some((r.value, tkns.Rest()))
      ensures r.None? ==> ReadLocation(sc, old(tkns.Rest())) == None
    {
      ghost var rest := tkns.Rest();
      var key :- tkns.Next();
      :- ThrowUnlessWord();
      if key.data in sc.locations { return None; }
      var _ :- tkns.Next();
      if tkns.Data() != "{" { return None; }
      assert tkns.Rest() == rest[2..];
      var lc :- MakeLocationDirectives();
      return Some(sc.(locations := sc.locations[key.data := lc]));
    }

    /** `server_directive_case_` */
    method StoreServerDirective(sc: ServerContext) returns (r: Option<ServerContext>)
      requires tkns.Valid()
      modifies tkns
      ensures tkns.Valid() && tkns.itr >= old(tkns.itr)
      ensures r.Some? ==> ReadItem(aton, sc, old(tkns.Data()), old(tkns.Rest())) == Some((r.value, tkns.Rest()))
      ensures r.None? ==> ReadItem(aton, sc, old(tkns.Data()), old(tkns.Rest())) == None
    {
      var name := tkns.Data();
      if name == "listen" {
        r := StoreListen(sc);
      } else if name == "client_max_body_size" {
        r := StoreClientBodySize(sc);
      } else if name == "server_name" {
        r := StoreServerName(sc);
      } else if name == "error_page" {
        r := StoreErrorPage(sc);
      } else if name == "location" {
        r := StoreLocation(sc);
      } else {
        r := None;
      }
    }

    method StoreServDirectives() returns (r: Option<()>)
      requires tkns.Valid()
      modifies this`contexts, tkns
      ensures tkns.Valid() && tkns.itr >= old(tkns.itr)
      ensures r.Some? ==> exists sc ::
        contexts == old(contexts) + [sc] && ReadServer(aton, NO_SERVER, old(tkns.Rest())) == Some((sc, tkns.Rest()))
      ensures r.None? ==> ReadServer(aton, NO_SERVER, old(tkns.Rest())) == None
    {
      var sc := NO_SERVER;
      while true
        invariant tkns.Valid() && tkns.itr >= old(tkns.itr) && contexts == old(contexts)
        invariant ReadServer(aton, sc, tkns.Rest()) == ReadServer(aton, NO_SERVER, old(tkns.Rest()))
        decreases |tkns.tokens| - tkns.itr
      {
        var tkn :- tkns.Next();
        if tkn.data == "}" { break; }
        sc :- StoreServerDirective(sc);
      }
      contexts := contexts + [sc];
      return Some(());
    }

    /** One turn of the loop in `Parse`, which leaves the cursor at the closing brace. */
    method ParseServer() returns (r: Option<()>)
      requires tkns.Valid()
      modifies this`contexts, tkns
      ensures tkns.Valid() && tkns.itr >= old(tkns.itr)
      ensures r.Some? ==>
        ReadServers(aton, old(contexts), old(tkns.Here())) == ReadServers(aton, contexts, tkns.Rest())
      ensures r.None? ==> ReadServers(aton, old(contexts), old(tkns.Here())) == None
    {
      ghost var here := tkns.Here();
      ghost var before := contexts;
      tkns.HereIsCurrent();
      if tkns.Data() != "server" { return None; }
      var _ :- tkns.Next();
      if tkns.Data() != "{" { return None; }
      assert here == ["server", "{"] + tkns.Rest();
      ReadServersStep(aton, before, tkns.Rest());
      var _ :- StoreServDirectives();
      return Some(());
    }

    /** All tokens are used up, or the parser throws; what it stores is what the tokens mean. */
    method Parse() returns (r: Option<()>)
      requires tkns.itr == 0 && contexts == [] && AllTokens(Datas(tkns.tokens))
      modifies this`contexts, tkns
      ensures r.Some? ==> tkns.End() && Parsed(aton, Datas(tkns.tokens)) == Some(contexts)
      ensures r.None? ==> Parsed(aton, Datas(tkns.tokens)) == None
    {
      if tkns.tokens == [] { return None; }
      ghost var data := Datas(tkns.tokens);
      assert data[0..] == data;
      while !tkns.End()
        invariant tkns.itr <= |data|
        invariant ReadServers(aton, contexts, data[tkns.itr..]) == ReadServers(aton, [], data)
        decreases |data| - tkns.itr
      {
        var _ :- ParseServer();
        tkns.Increment();
      }
      return Some(());
    }
  }
}
