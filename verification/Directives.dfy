/** What each directive accepts and changes, in plain terms. */
module Directives {
  import opened Text
  import opened Lexing
  import opened Configuration
  import Paths

  /** Blanks and separators of the language. */
  lemma SeparatorsMean(c: char)
    ensures IsBlank(c) <==> c in " \t\n"
    ensures IsSeparatorChar(c) <==> c in ";{}"
  {
  }

  // ---------------------------------------------------------------------------------------------
  // Locations

  lemma {:induction false} MethodsAdd(methods: set<string>, args: seq<string>)
    ensures AddMethods(methods, args).Some? <==>
      && (forall i | 0 <= i < |args| :: args[i] in {"GET", "POST", "DELETE"} && args[i] !in methods)
      && (forall i, j | 0 <= i < j < |args| :: args[i] != args[j])
    ensures AddMethods(methods, args).Some? ==> AddMethods(methods, args).value == methods + (set a | a in args)
    decreases args
  {
    if args != [] {
      var next := methods + {args[0]};
      MethodsAdd(next, args[1..]);
      assert forall i | 1 <= i < |args| :: args[1..][i - 1] == args[i];
      assert args == [args[0]] + args[1..];
      if AddMethods(methods, args).Some? {
        forall i | 0 <= i < |args| ensures args[i] in {"GET", "POST", "DELETE"} && args[i] !in methods {
          if i > 0 { assert args[1..][i - 1] !in next; }
        }
        forall i, j | 0 <= i < j < |args| ensures args[i] != args[j] {
          assert args[1..][j - 1] !in next;
          if i > 0 { assert args[1..][i - 1] != args[1..][j - 1]; }
        }
      }
    }
  }

  /** Methods out of three, none of them twice. */
  lemma LimitExceptMeans(lc: LocationContext, args: seq<string>)
    ensures var result := ApplyLocation(lc, "limit_except", args);
            && (result.Some? <==>
                  && args != []
                  && (forall i | 0 <= i < |args| :: args[i] in {"GET", "POST", "DELETE"} && args[i] !in lc.limitExcept)
                  && (forall i, j | 0 <= i < j < |args| :: args[i] != args[j]))
            && (result.Some? ==> result.value == lc.(limitExcept := lc.limitExcept + (set a | a in args)))
  {
    MethodsAdd(lc.limitExcept, args);
  }

  /** A code from 0 to 999 and perhaps a target, once. */
  lemma ReturnMeans(lc: LocationContext, args: seq<string>)
    ensures var result := ApplyLocation(lc, "return", args);
            && (result.Some? <==> (|args| == 1 || |args| == 2) && lc.redirect.0 == -1 && 0 <= Number(args[0]) <= 999)
            && (result.Some? ==>
                  result.value == lc.(redirect := (Number(args[0]), if |args| == 2 then args[1] else lc.redirect.1)))
  {
  }

  /** One path from the root that never leads above it, once; it is normalised. */
  lemma RootMeans(lc: LocationContext, args: seq<string>)
    ensures var result := ApplyLocation(lc, "root", args);
            && (result.Some? <==>
                  && |args| == 1 && lc.root == "" && "/" <= args[0]
                  && var segments := Paths.Split(args[0], "/");
                     forall k | 0 <= k <= |segments| :: Paths.Depth(segments[..k]) >= 0)
            && (result.Some? ==>
                  Paths.Normalized(args[0]).Some? && result.value == lc.(root := Paths.Normalized(args[0]).value))
  {
    if |args| == 1 {
      Paths.NormalizesIffWithinRoot(args[0]);
    }
  }

  lemma AutoIndexMeans(lc: LocationContext, args: seq<string>)
    ensures var result := ApplyLocation(lc, "autoindex", args);
            && (result.Some? <==> (args == ["on"] || args == ["off"]) && lc.autoIndex == "")
            && (result.Some? ==> result.value == lc.(autoIndex := args[0]))
  {
  }

  lemma IndexMeans(lc: LocationContext, args: seq<string>)
    ensures var result := ApplyLocation(lc, "index", args);
            && (result.Some? <==> |args| == 1 && lc.index == "")
            && (result.Some? ==> result.value == lc.(index := args[0]))
  {
  }

  /** A dot and, behind it, something without a dot. */
  ghost predicate IsDotted(s: string) {
    exists tail :: s == "." + tail && tail != "" && '.' !in tail
  }

  lemma ExtensionMeans(s: string)
    ensures IsExtension(s) <==> IsDotted(s)
  {
    if IsExtension(s) {
      assert s == "." + s[1..] && '.' !in s[1..];
    }
    if tail :| s == "." + tail && tail != "" && '.' !in tail {
      assert forall i | 1 <= i < |s| :: s[i] == tail[i - 1];
    }
  }

  lemma CgiExtensionMeans(lc: LocationContext, args: seq<string>)
    ensures var result := ApplyLocation(lc, "cgi_extension", args);
            && (result.Some? <==> args != [] && forall i | 0 <= i < |args| :: IsDotted(args[i]))
            && (result.Some? ==> result.value == lc.(cgiExtension := lc.cgiExtension + args))
  {
    forall i | 0 <= i < |args| ensures IsExtension(args[i]) == IsDotted(args[i]) {
      ExtensionMeans(args[i]);
    }
  }

  const LOCATION_NAMES: set<string> := {"limit_except", "return", "root", "autoindex", "index", "cgi_extension"}

  lemma NoOtherInLocation(lc: LocationContext, name: string, args: seq<string>)
    requires name !in LOCATION_NAMES
    ensures ApplyLocation(lc, name, args) == None
  {
  }

  // ---------------------------------------------------------------------------------------------
  // Servers

  /** How a server with a location is spelt: two directives, each up to its semicolon, in their braces. */
  lemma SmallServer(name: string, arg: string, key: string, inner: string, first: string, second: string)
    ensures ConfigurationTokens(
              [[Plain(Directive(name, [arg])), Block(key, [Directive(inner, [first, second])])]])
         == ["server", "{", name, arg, ";", "location", key, "{", inner, first, second, ";", "}", "}"]
  {
    var plain, block := Plain(Directive(name, [arg])), Block(key, [Directive(inner, [first, second])]);
    assert [Directive(inner, [first, second])][1..] == [];
    assert BodyTokens([Directive(inner, [first, second])]) == [inner, first, second, ";", "}"];
    assert ItemTokens(block) == ["location", key, "{", inner, first, second, ";", "}"];
    assert [plain, block][1..] == [block] && [block][1..] == [];
    assert ServerTokens([block]) == ["location", key, "{", inner, first, second, ";", "}", "}"];
    assert ServerTokens([plain, block])
        == [name, arg, ";", "location", key, "{", inner, first, second, ";", "}", "}"];
    assert [[plain, block]][1..] == [];
  }

  /** A port alone, or a host that `inet_aton` accepts and a port; the port is a number from 1 to 65535. */
  ghost predicate IsAddress(aton: string -> bool, s: string, host: string, port: string) {
    && 1 <= Number(port) <= 65535
    && ((host == "" && s == port && ':' !in s) || (':' !in host && aton(host) && s == host + ":" + port))
  }

  lemma AddressParts(aton: string -> bool, s: string, host: string, port: string)
    requires IsAddress(aton, s, host, port)
    ensures HostOf(s) == host && PortOf(s) == port && (Colon(s).Some? ==> aton(host))
  {
    if ':' in s {
      ColonBehind(host, port);
    }
  }

  lemma ListenMeans(aton: string -> bool, sc: ServerContext, args: seq<string>)
    ensures var result := ApplyServer(aton, sc, "listen", args);
            && (result.Some? <==>
                  |args| == 1 && sc.listen == ("", "") && exists host, port :: IsAddress(aton, args[0], host, port))
            && (result.Some? ==>
                  && IsAddress(aton, args[0], result.value.listen.0, result.value.listen.1)
                  && result.value == sc.(listen := result.value.listen))
  {
    if |args| == 1 {
      var s := args[0];
      if ApplyServer(aton, sc, "listen", args).Some? {
        if Colon(s).Some? {
          assert s == HostOf(s) + ":" + PortOf(s);
        }
        assert IsAddress(aton, s, HostOf(s), PortOf(s));
      }
      if host, port :| IsAddress(aton, s, host, port) {
        AddressParts(aton, s, host, port);
      }
    }
  }

  lemma ClientBodySizeMeans(aton: string -> bool, sc: ServerContext, args: seq<string>)
    ensures var result := ApplyServer(aton, sc, "client_max_body_size", args);
            && (result.Some? <==> |args| == 1 && !sc.clientBodySize.0 && Number(args[0]) >= 0)
            && (result.Some? ==> result.value == sc.(clientBodySize := (true, Number(args[0]))))
  {
  }

  lemma ServerNameMeans(aton: string -> bool, sc: ServerContext, args: seq<string>)
    ensures var result := ApplyServer(aton, sc, "server_name", args);
            && (result.Some? <==> |args| == 1 && sc.serverName == "")
            && (result.Some? ==> result.value == sc.(serverName := args[0]))
  {
  }

  /** Codes from 300 to 599 and a page; afterwards all codes of the server have this page. */
  lemma ErrorPageMeans(aton: string -> bool, sc: ServerContext, args: seq<string>)
    ensures var result := ApplyServer(aton, sc, "error_page", args);
            && (result.Some? <==> |args| >= 2 && forall i | 0 <= i < |args| - 1 :: 300 <= Number(args[i]) <= 599)
            && (result.Some? ==>
                  var pages := result.value.errorPage;
                  && result.value == sc.(errorPage := pages)
                  && (forall code :: code in pages <==>
                        code in sc.errorPage || exists i | 0 <= i < |args| - 1 :: Number(args[i]) == code)
                  && forall code <- pages :: pages[code] == args[|args| - 1])
  {
    if |args| >= 2 {
      var codes := args[..|args| - 1];
      assert forall i | 0 <= i < |codes| :: codes[i] == args[i];
      forall code ensures code in Codes(codes) <==> exists i | 0 <= i < |args| - 1 :: Number(args[i]) == code {
        if i :| 0 <= i < |args| - 1 && Number(args[i]) == code {
          assert Number(codes[i]) == code;
        }
        if code in Codes(codes) {
          var i :| 0 <= i < |codes| && Number(codes[i]) == code;
          assert Number(args[i]) == code;
        }
      }
    }
  }

  const SERVER_NAMES: set<string> := {"listen", "client_max_body_size", "server_name", "error_page"}

  lemma NoOtherInServer(aton: string -> bool, sc: ServerContext, name: string, args: seq<string>)
    requires name !in SERVER_NAMES
    ensures ApplyServer(aton, sc, name, args) == None
  {
  }

  predicate IsBodySize(item: Item) {
    item.Plain? && item.directive.name == "client_max_body_size"
  }

  lemma ItemKeepsBodySize(aton: string -> bool, sc: ServerContext, item: Item)
    requires !IsBodySize(item) && ItemMeaning(aton, sc, item).Some?
    ensures ItemMeaning(aton, sc, item).value.clientBodySize == sc.clientBodySize
  {
  }

  lemma {:induction false} BodySizeStays(aton: string -> bool, sc: ServerContext, items: seq<Item>)
    requires (forall i | 0 <= i < |items| :: !IsBodySize(items[i])) && ServerMeaning(aton, sc, items).Some?
    ensures ServerMeaning(aton, sc, items).value.clientBodySize == sc.clientBodySize
    decreases items
  {
    if items != [] {
      ItemKeepsBodySize(aton, sc, items[0]);
      BodySizeStays(aton, ItemMeaning(aton, sc, items[0]).value, items[1..]);
    }
  }

  /** A server that says nothing about the size of bodies takes up to 100000 bytes. */
  lemma DefaultBodySize(aton: string -> bool, items: seq<Item>)
    requires (forall i | 0 <= i < |items| :: !IsBodySize(items[i])) && ServerMeaning(aton, NO_SERVER, items).Some?
    ensures ServerMeaning(aton, NO_SERVER, items).value.clientBodySize == (false, 100000)
  {
    BodySizeStays(aton, NO_SERVER, items);
  }
}
