/** Reading a configuration in one pass accepts exactly the spelt ones, with the meaning of what they spell. */
module Grammar {
  import opened Text
  import opened Lexing
  import opened Configuration

  predicate AllTokens(data: seq<string>) {
    forall i | 0 <= i < |data| :: IsToken(data[i])
  }

  function ThenRest<C>(meaning: Option<C>, rest: seq<string>): Option<(C, seq<string>)> {
    match meaning case None => None case Some(c) => Some((c, rest))
  }

  lemma SeparatorsDiffer()
    ensures ";" != "{" && ";" != "}" && "{" != "}"
  {
    assert ";"[0] == ';' && "{"[0] == '{' && "}"[0] == '}';
  }

  lemma WordIsNoSeparator(s: string)
    requires IsWord(s)
    ensures s != ";" && s != "{" && s != "}"
  {
    assert s[0] != ';' && s[0] != '{' && s[0] != '}';
  }

  lemma LongTokenIsWord(s: string)
    requires IsToken(s) && |s| > 1
    ensures IsWord(s)
  {
  }

  // ---------------------------------------------------------------------------------------------
  // What is spelt is read

  lemma {:induction false} ArgumentsAreRead(args: seq<string>, words: seq<string>, rest: seq<string>)
    requires AllWords(words)
    ensures Arguments(args, words + [";"] + rest) == Some((args + words, rest))
    decreases words
  {
    var all := words + [";"] + rest;
    if words == [] {
      SeparatorsDiffer();
      assert all[1..] == rest && args + words == args;
    } else {
      WordIsNoSeparator(words[0]);
      ArgumentsAreRead(args + [words[0]], words[1..], rest);
      assert all[1..] == words[1..] + [";"] + rest && args + [words[0]] + words[1..] == args + words;
    }
  }

  lemma SplitDirective(d: Directive, rest: seq<string>)
    ensures DirectiveTokens(d) + rest == [d.name] + (d.args + [";"] + rest)
    ensures (DirectiveTokens(d) + rest)[1..] == d.args + [";"] + rest
  {
  }

  lemma {:induction false} BodyIsRead(lc: LocationContext, body: seq<Directive>, rest: seq<string>)
    requires IsBody(body)
    ensures ReadBody(lc, BodyTokens(body) + rest) == ThenRest(BodyMeaning(lc, body), rest)
    decreases body
  {
    if body == [] {
      assert (BodyTokens(body) + rest)[1..] == rest;
    } else {
      var d, others := body[0], BodyTokens(body[1..]) + rest;
      assert IsDirective(d);
      WordIsNoSeparator(d.name);
      assert BodyTokens(body) + rest == DirectiveTokens(d) + others;
      SplitDirective(d, others);
      ArgumentsAreRead([], d.args, others);
      assert [] + d.args == d.args;
      var next := ApplyLocation(lc, d.name, d.args);
      if next.Some? {
        BodyIsRead(next.value, body[1..], rest);
      }
    }
  }

  lemma LocationIsNoPlainName(sc: ServerContext, args: seq<string>, rest: seq<string>)
    requires AllWords(args)
    ensures ReadLocation(sc, args + [";"] + rest) == None
  {
    var all := args + [";"] + rest;
    SeparatorsDiffer();
    if args == [] {
      assert all[0] == ";";
    } else if |args| == 1 {
      assert all[1] == ";";
    } else {
      assert all[1] == args[1];
      WordIsNoSeparator(args[1]);
    }
  }

  lemma PlainIsRead(aton: string -> bool, sc: ServerContext, d: Directive, rest: seq<string>)
    requires IsDirective(d)
    ensures ReadItem(aton, sc, d.name, d.args + [";"] + rest) == ThenRest(ApplyServer(aton, sc, d.name, d.args), rest)
  {
    if d.name == "location" {
      LocationIsNoPlainName(sc, d.args, rest);
    } else {
      ArgumentsAreRead([], d.args, rest);
      assert [] + d.args == d.args;
    }
  }

  lemma BlockIsRead(sc: ServerContext, key: string, body: seq<Directive>, rest: seq<string>)
    requires IsWord(key) && IsBody(body)
    ensures ReadLocation(sc, [key, "{"] + (BodyTokens(body) + rest))
         == ThenRest(ItemMeaning(s => false, sc, Block(key, body)), rest)
  {
    BodyIsRead(NO_LOCATION, body, rest);
    assert ([key, "{"] + (BodyTokens(body) + rest))[2..] == BodyTokens(body) + rest;
  }

  lemma ItemIsRead(aton: string -> bool, sc: ServerContext, item: Item, rest: seq<string>)
    requires IsItem(item)
    ensures ItemTokens(item)[0] != "}"
    ensures ReadItem(aton, sc, ItemTokens(item)[0], ItemTokens(item)[1..] + rest)
         == ThenRest(ItemMeaning(aton, sc, item), rest)
  {
    match item
    case Plain(d) =>
      WordIsNoSeparator(d.name);
      assert ItemTokens(item)[1..] == d.args + [";"];
      PlainIsRead(aton, sc, d, rest);
    case Block(key, body) =>
      BlockIsRead(sc, key, body, rest);
      assert ItemTokens(item)[1..] + rest == [key, "{"] + (BodyTokens(body) + rest);
      assert |ItemTokens(item)[0]| == 8;
  }

  lemma ReadServerStep(aton: string -> bool, sc: ServerContext, name: string, rest: seq<string>)
    requires name != "}"
    ensures ReadItem(aton, sc, name, rest) == None ==> ReadServer(aton, sc, [name] + rest) == None
    ensures ReadItem(aton, sc, name, rest).Some? ==>
      ReadServer(aton, sc, [name] + rest)
      == ReadServer(aton, ReadItem(aton, sc, name, rest).value.0, ReadItem(aton, sc, name, rest).value.1)
  {
    assert ([name] + rest)[1..] == rest;
  }

  lemma Regroup<T>(a: seq<T>, b: seq<T>, c: seq<T>)
    requires a != []
    ensures (a + b) + c == [a[0]] + (a[1..] + (b + c))
  {
  }

  lemma {:induction false} ServerIsRead(aton: string -> bool, sc: ServerContext, items: seq<Item>, rest: seq<string>)
    requires IsServer(items)
    ensures ReadServer(aton, sc, ServerTokens(items) + rest) == ThenRest(ServerMeaning(aton, sc, items), rest)
    decreases items
  {
    if items == [] {
      assert (ServerTokens(items) + rest)[1..] == rest;
    } else {
      var first, others := ItemTokens(items[0]), ServerTokens(items[1..]) + rest;
      assert IsItem(items[0]);
      Regroup(first, ServerTokens(items[1..]), rest);
      ItemIsRead(aton, sc, items[0], others);
      ReadServerStep(aton, sc, first[0], first[1..] + others);
      var next := ItemMeaning(aton, sc, items[0]);
      if next.Some? {
        ServerIsRead(aton, next.value, items[1..], rest);
      }
    }
  }

  lemma ReadServersStep(aton: string -> bool, contexts: seq<ServerContext>, rest: seq<string>)
    ensures ReadServer(aton, NO_SERVER, rest) == None ==> ReadServers(aton, contexts, ["server", "{"] + rest) == None
    ensures ReadServer(aton, NO_SERVER, rest).Some? ==>
      ReadServers(aton, contexts, ["server", "{"] + rest)
      == ReadServers(aton, contexts + [ReadServer(aton, NO_SERVER, rest).value.0],
                     ReadServer(aton, NO_SERVER, rest).value.1)
  {
    assert (["server", "{"] + rest)[2..] == rest;
  }

  function Behind(contexts: seq<ServerContext>, meaning: Option<seq<ServerContext>>): Option<seq<ServerContext>> {
    match meaning case None => None case Some(others) => Some(contexts + others)
  }

  lemma {:induction false} ServersAreRead(aton: string -> bool, contexts: seq<ServerContext>, servers: seq<seq<Item>>)
    requires IsConfiguration(servers)
    ensures ReadServers(aton, contexts, ConfigurationTokens(servers)) == Behind(contexts, Meaning(aton, servers))
    decreases servers
  {
    if servers == [] {
      assert contexts + [] == contexts;
    } else {
      var rest := ConfigurationTokens(servers[1..]);
      assert IsServer(servers[0]);
      ServerIsRead(aton, NO_SERVER, servers[0], rest);
      assert ConfigurationTokens(servers) == ["server", "{"] + (ServerTokens(servers[0]) + rest);
      ReadServersStep(aton, contexts, ServerTokens(servers[0]) + rest);
      var meaning := ServerMeaning(aton, NO_SERVER, servers[0]);
      if meaning.Some? {
        ServersAreRead(aton, contexts + [meaning.value], servers[1..]);
        AppendBehind(contexts, meaning.value, Meaning(aton, servers[1..]));
      }
    }
  }

  lemma AppendBehind(contexts: seq<ServerContext>, sc: ServerContext, others: Option<seq<ServerContext>>)
    ensures Behind(contexts + [sc], others) == Behind(contexts, Behind([sc], others))
  {
    if others.Some? {
      assert contexts + [sc] + others.value == contexts + ([sc] + others.value);
    }
  }

  // ---------------------------------------------------------------------------------------------
  // What is read was spelt

  lemma {:induction false} ArgumentsWereSpelt(args: seq<string>, rest: seq<string>) returns (words: seq<string>)
    requires AllTokens(rest) && Arguments(args, rest).Some?
    ensures AllWords(words) && Arguments(args, rest).value.0 == args + words
    ensures rest == words + [";"] + Arguments(args, rest).value.1
    ensures AllTokens(Arguments(args, rest).value.1)
    decreases rest
  {
    if rest[0] == ";" {
      words := [];
    } else {
      var others := ArgumentsWereSpelt(args + [rest[0]], rest[1..]);
      words := [rest[0]] + others;
      assert IsToken(rest[0]);
      OneCharacter(rest[0]);
    }
  }

  lemma OneCharacter(s: string)
    requires IsToken(s)
    ensures IsWord(s) || s == ";" || s == "{" || s == "}"
  {
    if IsSeparator(s) {
      assert s == [s[0]];
    }
  }

  lemma {:induction false} BodyWasSpelt(lc: LocationContext, rest: seq<string>) returns (body: seq<Directive>)
    requires AllTokens(rest) && ReadBody(lc, rest).Some?
    ensures IsBody(body) && BodyMeaning(lc, body) == Some(ReadBody(lc, rest).value.0)
    ensures rest == BodyTokens(body) + ReadBody(lc, rest).value.1 && AllTokens(ReadBody(lc, rest).value.1)
    decreases |rest|
  {
    if rest[0] == "}" {
      body := [];
    } else {
      var args := ArgumentsWereSpelt([], rest[1..]);
      var (next, after) := ReadLocationDirective(lc, rest[0], rest[1..]).value;
      LocationDirectiveLeavesLess(lc, rest[0], rest[1..]);
      assert [] + args == args;
      var others := BodyWasSpelt(next, after);
      var d := Directive(rest[0], args);
      body := [d] + others;
      LocationNamesAreWords(lc, d);
      SplitHead(d, others);
      Respell(rest, rest[0], args, ";", BodyTokens(others), ReadBody(next, after).value.1);
    }
  }

  lemma SplitHead<T>(head: T, tail: seq<T>)
    ensures ([head] + tail)[0] == head && ([head] + tail)[1..] == tail
  {
  }

  lemma Respell<T>(s: seq<T>, name: T, args: seq<T>, end: T, next: seq<T>, rest: seq<T>)
    requires s != [] && s[0] == name && s[1..] == args + [end] + (next + rest)
    ensures s == [name] + args + [end] + next + rest
    ensures next == [] ==> s == [name] + args + [end] + rest
  {
    assert s == [name] + s[1..];
    assert [name] + (args + [end] + (next + rest)) == [name] + args + [end] + next + rest;
  }

  lemma LocationNamesAreWords(lc: LocationContext, d: Directive)
    requires IsToken(d.name) && ApplyLocation(lc, d.name, d.args).Some?
    ensures IsWord(d.name)
  {
    assert |d.name| > 1;
    LongTokenIsWord(d.name);
  }

  lemma ServerNamesAreWords(aton: string -> bool, sc: ServerContext, d: Directive)
    requires IsToken(d.name) && ApplyServer(aton, sc, d.name, d.args).Some?
    ensures IsWord(d.name)
  {
    assert |d.name| > 1;
    LongTokenIsWord(d.name);
  }

  lemma ItemWasSpelt(aton: string -> bool, sc: ServerContext, rest: seq<string>) returns (item: Item)
    requires rest != [] && AllTokens(rest) && ReadItem(aton, sc, rest[0], rest[1..]).Some?
    ensures IsItem(item) && ItemMeaning(aton, sc, item) == Some(ReadItem(aton, sc, rest[0], rest[1..]).value.0)
    ensures rest == ItemTokens(item) + ReadItem(aton, sc, rest[0], rest[1..]).value.1
    ensures AllTokens(ReadItem(aton, sc, rest[0], rest[1..]).value.1)
  {
    if rest[0] == "location" {
      assert rest[1..][2..] == rest[3..] && rest[1..][0] == rest[1] && rest[1..][1] == rest[2];
      var body := BodyWasSpelt(NO_LOCATION, rest[3..]);
      item := Block(rest[1], body);
      FirstThree(rest, "location", rest[1], "{", BodyTokens(body), ReadBody(NO_LOCATION, rest[3..]).value.1);
    } else {
      var args := ArgumentsWereSpelt([], rest[1..]);
      assert [] + args == args;
      var d := Directive(rest[0], args);
      ServerNamesAreWords(aton, sc, d);
      item := Plain(d);
      Respell(rest, rest[0], args, ";", [], Arguments([], rest[1..]).value.1);
    }
  }

  lemma FirstThree<T>(s: seq<T>, first: T, second: T, third: T, next: seq<T>, rest: seq<T>)
    requires |s| >= 3 && s[0] == first && s[1] == second && s[2] == third && s[3..] == next + rest
    ensures s == [first, second, third] + next + rest
  {
    assert s == [first, second, third] + s[3..];
    assert [first, second, third] + (next + rest) == [first, second, third] + next + rest;
  }

  lemma Associate<T>(a: seq<T>, b: seq<T>, c: seq<T>)
    ensures a + (b + c) == (a + b) + c
  {
  }

  lemma {:induction false} ServerWasSpelt(aton: string -> bool, sc: ServerContext, rest: seq<string>)
    returns (items: seq<Item>)
    requires AllTokens(rest) && ReadServer(aton, sc, rest).Some?
    ensures IsServer(items) && ServerMeaning(aton, sc, items) == Some(ReadServer(aton, sc, rest).value.0)
    ensures rest == ServerTokens(items) + ReadServer(aton, sc, rest).value.1
    ensures AllTokens(ReadServer(aton, sc, rest).value.1)
    decreases |rest|
  {
    if rest[0] == "}" {
      items := [];
    } else {
      var (next, after) := ReadItem(aton, sc, rest[0], rest[1..]).value;
      ItemLeavesLess(aton, sc, rest[0], rest[1..]);
      var item := ItemWasSpelt(aton, sc, rest);
      var others := ServerWasSpelt(aton, next, after);
      items := [item] + others;
      SplitHead(item, others);
      Associate(ItemTokens(item), ServerTokens(others), ReadServer(aton, next, after).value.1);
    }
  }

  lemma ServerInFront(items: seq<Item>, others: seq<seq<Item>>, rest: seq<string>)
    requires IsServer(items) && IsConfiguration(others)
    requires |rest| >= 2 && rest[0] == "server" && rest[1] == "{"
    requires rest[2..] == ServerTokens(items) + ConfigurationTokens(others)
    ensures IsConfiguration([items] + others) && ConfigurationTokens([items] + others) == rest
    ensures ([items] + others)[0] == items && ([items] + others)[1..] == others
  {
    FirstTwo(rest, "server", "{", ServerTokens(items), ConfigurationTokens(others));
    SplitHead(items, others);
  }

  lemma FirstTwo<T>(s: seq<T>, first: T, second: T, next: seq<T>, rest: seq<T>)
    requires |s| >= 2 && s[0] == first && s[1] == second && s[2..] == next + rest
    ensures s == [first, second] + next + rest
  {
    assert s == [first, second] + s[2..];
    assert [first, second] + (next + rest) == [first, second] + next + rest;
  }

  lemma {:induction false} ServersWereSpelt(aton: string -> bool, contexts: seq<ServerContext>, rest: seq<string>)
    returns (servers: seq<seq<Item>>)
    requires AllTokens(rest) && ReadServers(aton, contexts, rest).Some?
    ensures IsConfiguration(servers) && ConfigurationTokens(servers) == rest
    ensures ReadServers(aton, contexts, rest) == Behind(contexts, Meaning(aton, servers))
    decreases |rest|
  {
    if rest == [] {
      servers := [];
      assert contexts + [] == contexts;
    } else {
      var (sc, after) := ReadServer(aton, NO_SERVER, rest[2..]).value;
      ServerLeavesLess(aton, NO_SERVER, rest[2..]);
      var items := ServerWasSpelt(aton, NO_SERVER, rest[2..]);
      var others := ServersWereSpelt(aton, contexts + [sc], after);
      servers := [items] + others;
      ServerInFront(items, others, rest);
      AppendBehind(contexts, sc, Meaning(aton, others));
    }
  }

  /** `servers` spells the tokens and means the contexts. */
  ghost predicate Spells(
    aton: string -> bool, servers: seq<seq<Item>>, data: seq<string>, contexts: seq<ServerContext>)
  {
    IsConfiguration(servers) && ConfigurationTokens(servers) == data && Meaning(aton, servers) == Some(contexts)
  }

  /**
   The one pass over the tokens yields contexts exactly if the whole token list spells directives that mean
   those contexts.
   */
  lemma ParsedIffSpelt(aton: string -> bool, data: seq<string>, contexts: seq<ServerContext>)
    requires AllTokens(data)
    ensures Parsed(aton, data) == Some(contexts) <==>
      data != [] && exists servers :: Spells(aton, servers, data, contexts)
  {
    if Parsed(aton, data) == Some(contexts) {
      var servers := ServersWereSpelt(aton, [], data);
      assert forall s: seq<ServerContext> :: [] + s == s;
      assert Spells(aton, servers, data, contexts);
    }
    if data != [] && exists servers :: Spells(aton, servers, data, contexts) {
      var servers :| Spells(aton, servers, data, contexts);
      ServersAreRead(aton, [], servers);
      assert [] + contexts == contexts;
    }
  }
}
