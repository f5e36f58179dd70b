/** The lexer of the configuration language, line by line as in `Lexer.cpp`, and the scanner it refines. */
module Lexing {
  import opened Text

  datatype Token = Token(data: string, line: nat)

  predicate IsBlank(c: char) {
    c == ' ' || c == '\t' || c == '\n'
  }

  predicate IsSeparatorChar(c: char) {
    c == ';' || c == '{' || c == '}'
  }

  predicate AllBlank(s: string) {
    forall i | 0 <= i < |s| :: IsBlank(s[i])
  }

  /** Neither a blank nor a separator occurs. */
  predicate IsRun(s: string) {
    forall i | 0 <= i < |s| :: !IsBlank(s[i]) && !IsSeparatorChar(s[i])
  }

  predicate IsWord(s: string) {
    s != "" && IsRun(s)
  }

  predicate IsSeparator(s: string) {
    |s| == 1 && IsSeparatorChar(s[0])
  }

  // ---------------------------------------------------------------------------------------------
  // The one-pass scanner

  function Flushed(word: string, line: nat): seq<Token> {
    if word == "" then [] else [Token(word, line)]
  }

  /** The tokens of `text` when `word` has been read up to here, in line `line`. */
  function Scan(word: string, line: nat, text: string): seq<Token>
    decreases text
  {
    if text == "" then Flushed(word, line)
    else if IsBlank(text[0]) then
      Flushed(word, line) + Scan("", if text[0] == '\n' then line + 1 else line, text[1..])
    else if IsSeparatorChar(text[0]) then
      Flushed(word, line) + [Token([text[0]], line)] + Scan("", line, text[1..])
    else Scan(word + [text[0]], line, text[1..])
  }

  function Tokens(text: string): seq<Token> {
    Scan("", 0, text)
  }

  lemma TokensAssociate(a: seq<Token>, b: seq<Token>, c: seq<Token>)
    ensures (a + b) + c == a + (b + c)
  {
  }

  lemma {:induction false} ScanRun(word: string, line: nat, run: string, rest: string)
    requires IsRun(run)
    ensures Scan(word, line, run + rest) == Scan(word + run, line, rest)
    decreases run
  {
    if run == "" {
      assert run + rest == rest && word + run == word;
    } else {
      assert (run + rest)[1..] == run[1..] + rest && word + [run[0]] + run[1..] == word + run;
      ScanRun(word + [run[0]], line, run[1..], rest);
    }
  }

  predicate OneLine(s: string) {
    forall i | 0 <= i < |s| :: s[i] != '\n'
  }

  lemma {:induction false} ScanBlank(line: nat, blank: string, rest: string)
    requires AllBlank(blank) && OneLine(blank)
    ensures Scan("", line, blank + rest) == Scan("", line, rest)
    decreases blank
  {
    if blank == "" {
      assert blank + rest == rest;
    } else {
      assert (blank + rest)[1..] == blank[1..] + rest;
      ScanBlank(line, blank[1..], rest);
    }
  }

  predicate StartsBlank(s: string) {
    s != "" && IsBlank(s[0])
  }

  /** A blank ends what is before it. */
  lemma {:induction false} ScanBeforeBlank(word: string, line: nat, piece: string, rest: string)
    requires OneLine(piece) && StartsBlank(rest)
    ensures Scan(word, line, piece + rest) == Scan(word, line, piece) + Scan("", line, rest)
    decreases piece
  {
    if piece == "" {
      assert piece + rest == rest;
    } else {
      assert (piece + rest)[1..] == piece[1..] + rest;
      var next := if IsBlank(piece[0]) || IsSeparatorChar(piece[0]) then "" else word + [piece[0]];
      ScanBeforeBlank(next, line, piece[1..], rest);
    }
  }

  lemma ScanSeparator(line: nat, run: string, c: char, rest: string)
    requires IsRun(run) && IsSeparatorChar(c)
    ensures Scan("", line, run + [c] + rest) == Flushed(run, line) + Flushed([c], line) + Scan("", line, rest)
  {
    ScanRun("", line, run, [c] + rest);
    assert run + ([c] + rest) == run + [c] + rest;
    assert ([c] + rest)[1..] == rest && "" + run == run;
  }

  lemma ScanOnlyRun(line: nat, run: string)
    requires IsRun(run)
    ensures Scan("", line, run) == Flushed(run, line)
  {
    ScanRun("", line, run, "");
    assert run + "" == run && "" + run == run;
  }

  lemma ScanOnlyBlank(line: nat, blank: string)
    requires AllBlank(blank)
    ensures Scan("", line, blank) == []
    decreases blank
  {
    if blank != "" {
      ScanOnlyBlank(if blank[0] == '\n' then line + 1 else line, blank[1..]);
    }
  }

  // ---------------------------------------------------------------------------------------------
  // What the scanner means

  function Concatenated(tokens: seq<Token>): string {
    if tokens == [] then "" else tokens[0].data + Concatenated(tokens[1..])
  }

  function WithoutBlanks(s: string): string {
    if s == "" then "" else (if IsBlank(s[0]) then "" else [s[0]]) + WithoutBlanks(s[1..])
  }

  lemma FlushedKeepsText(word: string, line: nat, others: seq<Token>)
    ensures Concatenated(Flushed(word, line) + others) == word + Concatenated(others)
  {
    if word == "" {
      assert Flushed(word, line) + others == others;
    } else {
      assert (Flushed(word, line) + others)[1..] == others;
    }
  }

  lemma {:induction false} ScanKeepsText(word: string, line: nat, text: string)
    ensures Concatenated(Scan(word, line, text)) == word + WithoutBlanks(text)
    decreases text
  {
    if text == "" {
      FlushedKeepsText(word, line, []);
      assert Flushed(word, line) + [] == Flushed(word, line);
    } else {
      var c, kept := text[0], WithoutBlanks(text[1..]);
      if IsBlank(c) {
        var next := if c == '\n' then line + 1 else line;
        ScanKeepsText("", next, text[1..]);
        FlushedKeepsText(word, line, Scan("", next, text[1..]));
        assert "" + kept == kept;
      } else if IsSeparatorChar(c) {
        var others := [Token([c], line)] + Scan("", line, text[1..]);
        ScanKeepsText("", line, text[1..]);
        assert others[1..] == Scan("", line, text[1..]) && "" + kept == kept;
        FlushedKeepsText(word, line, others);
        TokensAssociate(Flushed(word, line), [Token([c], line)], Scan("", line, text[1..]));
      } else {
        ScanKeepsText(word + [c], line, text[1..]);
        Associative(word, [c], kept);
      }
    }
  }

  /** No character is lost, made up or moved: the tokens are the text without its blanks. */
  lemma TokensKeepText(text: string)
    ensures Concatenated(Tokens(text)) == WithoutBlanks(text)
  {
    ScanKeepsText("", 0, text);
  }

  function Newlines(s: string): nat {
    if s == "" then 0 else (if s[0] == '\n' then 1 else 0) + Newlines(s[1..])
  }

  /** What `s` has behind a word that is not to be continued: the end, a blank or a separator. */
  predicate EndsWord(s: string) {
    s == "" || IsBlank(s[0]) || IsSeparatorChar(s[0])
  }

  /**
   `tokens` is the text cut up: `skipped` blanks, then the first token, which is one separator or a word that
   goes on as far as it can and stands in the line that its number says, then the other tokens.
   */
  ghost predicate CutsAt(text: string, tokens: seq<Token>, line: nat, skipped: nat)
    requires tokens != []
    decreases |tokens|, 0
  {
    var t := tokens[0];
    var end := skipped + |t.data|;
    && end <= |text| && t.data == text[skipped..end]
    && AllBlank(text[..skipped]) && t.line == line + Newlines(text[..skipped])
    && IsTokenBefore(t.data, text[end..])
    && Cuts(text[end..], tokens[1..], t.line)
  }

  ghost predicate Cuts(text: string, tokens: seq<Token>, line: nat)
    decreases |tokens|, 1
  {
    if tokens == [] then AllBlank(text) else exists skipped: nat :: CutsAt(text, tokens, line, skipped)
  }

  lemma {:induction false} ScanBlanks(line: nat, blank: string, rest: string)
    requires AllBlank(blank)
    ensures Scan("", line, blank + rest) == Scan("", line + Newlines(blank), rest)
    decreases blank
  {
    if blank == "" {
      assert blank + rest == rest;
    } else {
      assert (blank + rest)[1..] == blank[1..] + rest;
      ScanBlanks(if blank[0] == '\n' then line + 1 else line, blank[1..], rest);
    }
  }

  predicate IsToken(s: string) {
    IsSeparator(s) || IsWord(s)
  }

  /** `data` is a token that is complete where `rest` follows. */
  predicate IsTokenBefore(data: string, rest: string) {
    IsSeparator(data) || (IsWord(data) && EndsWord(rest))
  }

  lemma ScanToken(line: nat, data: string, rest: string)
    requires IsTokenBefore(data, rest)
    ensures Scan("", line, data + rest) == [Token(data, line)] + Scan("", line, rest)
  {
    if IsSeparator(data) {
      ScanSeparator(line, "", data[0], rest);
      assert "" + [data[0]] + rest == data + rest && [data[0]] == data;
    } else {
      ScanRun("", line, data, rest);
      assert "" + data == data;
    }
  }

  /** There is only one way to cut up a text, and the scanner finds it. */
  lemma {:induction false} CutIsScan(text: string, tokens: seq<Token>, line: nat)
    requires Cuts(text, tokens, line)
    ensures tokens == Scan("", line, text)
    decreases |tokens|
  {
    if tokens == [] {
      ScanOnlyBlank(line, text);
    } else {
      var skipped: nat :| CutsAt(text, tokens, line, skipped);
      var t := tokens[0];
      var rest := text[skipped + |t.data|..];
      CutIsScan(rest, tokens[1..], t.line);
      FirstToken(line, text[..skipped], text, t.data, rest);
      assert tokens == [t] + tokens[1..];
    }
  }

  lemma FirstToken(line: nat, blank: string, text: string, data: string, rest: string)
    requires AllBlank(blank) && IsTokenBefore(data, rest) && |text| == |blank| + |data| + |rest|
    requires text[..|blank|] == blank && text[|blank|..|blank| + |data|] == data && text[|blank| + |data|..] == rest
    ensures Scan("", line, text) == [Token(data, line + Newlines(blank))] + Scan("", line + Newlines(blank), rest)
  {
    ScanBlanks(line, blank, data + rest);
    assert text == blank + (data + rest);
    ScanToken(line + Newlines(blank), data, rest);
  }

  /** The length of the longest run at the start of `s`. */
  function RunLength(s: string): (n: nat)
    ensures n <= |s| && IsRun(s[..n]) && EndsWord(s[n..])
  {
    if EndsWord(s) then 0 else 1 + RunLength(s[1..])
  }

  function TokenLength(s: string): (n: nat)
    requires s != "" && !IsBlank(s[0])
    ensures 0 < n <= |s| && IsTokenBefore(s[..n], s[n..])
  {
    if IsSeparatorChar(s[0]) then 1 else RunLength(s)
  }

  function BlankLength(s: string): (n: nat)
    ensures n <= |s| && AllBlank(s[..n]) && (n < |s| ==> !IsBlank(s[n]))
  {
    if s == "" || !IsBlank(s[0]) then 0 else 1 + BlankLength(s[1..])
  }

  lemma {:induction false} ScanCuts(text: string, line: nat)
    ensures Cuts(text, Scan("", line, text), line)
    decreases |text|
  {
    var k := BlankLength(text);
    if k == |text| {
      assert text[..k] == text;
      ScanOnlyBlank(line, text);
    } else {
      var n := TokenLength(text[k..]);
      var data, rest := text[k..][..n], text[k..][n..];
      ScanCuts(rest, line + Newlines(text[..k]));
      NextCut(text, line, k, data, rest);
    }
  }

  lemma NextCut(text: string, line: nat, skipped: nat, data: string, rest: string)
    requires skipped <= |text| && text[skipped..] == data + rest && AllBlank(text[..skipped])
    requires IsTokenBefore(data, rest)
    requires var at := line + Newlines(text[..skipped]); Cuts(rest, Scan("", at, rest), at)
    ensures Cuts(text, Scan("", line, text), line)
  {
    var at := line + Newlines(text[..skipped]);
    ScanBlanks(line, text[..skipped], text[skipped..]);
    assert text == text[..skipped] + text[skipped..];
    ScanToken(at, data, rest);
    PrependCut(text, line, skipped, data, rest, Scan("", at, rest));
  }

  lemma PrependCut(text: string, line: nat, skipped: nat, data: string, rest: string, others: seq<Token>)
    requires skipped <= |text| && text[skipped..] == data + rest && AllBlank(text[..skipped])
    requires IsTokenBefore(data, rest)
    requires Cuts(rest, others, line + Newlines(text[..skipped]))
    ensures Cuts(text, [Token(data, line + Newlines(text[..skipped]))] + others, line)
  {
    var tokens := [Token(data, line + Newlines(text[..skipped]))] + others;
    var end := skipped + |data|;
    assert |text| == skipped + |data| + |rest|;
    assert text[end..] == text[skipped..][|data|..] == rest;
    assert text[skipped..end] == text[skipped..][..|data|] == data;
    assert tokens[1..] == others;
    assert CutsAt(text, tokens, line, skipped);
  }

  /** The tokens of a text are the one way to cut it up. */
  lemma TokensCut(text: string, tokens: seq<Token>)
    ensures Cuts(text, tokens, 0) <==> tokens == Tokens(text)
  {
    ScanCuts(text, 0);
    if Cuts(text, tokens, 0) {
      CutIsScan(text, tokens, 0);
    }
  }

  lemma {:induction false} CutsInOrder(text: string, tokens: seq<Token>, line: nat)
    requires Cuts(text, tokens, line)
    ensures forall t <- tokens :: IsToken(t.data) && line <= t.line
    ensures forall i, j | 0 <= i < j < |tokens| :: tokens[i].line <= tokens[j].line
    decreases |tokens|
  {
    if tokens != [] {
      var skipped: nat :| CutsAt(text, tokens, line, skipped);
      CutsInOrder(text[skipped + |tokens[0].data|..], tokens[1..], tokens[0].line);
      assert forall i | 1 <= i < |tokens| :: tokens[i] == tokens[1..][i - 1] && tokens[1..][i - 1] in tokens[1..];
    }
  }

  lemma LinesNeverDecrease(text: string)
    ensures forall t <- Tokens(text) :: IsToken(t.data)
    ensures forall i, j | 0 <= i < j < |Tokens(text)| :: Tokens(text)[i].line <= Tokens(text)[j].line
  {
    ScanCuts(text, 0);
    CutsInOrder(text, Tokens(text), 0);
  }

  function Datas(tokens: seq<Token>): seq<string> {
    seq(|tokens|, i requires 0 <= i < |tokens| => tokens[i].data)
  }

  /** The tokens, with a gap behind each of them. */
  function Layout(data: seq<string>, gaps: seq<string>): string
    requires |data| == |gaps|
  {
    if data == [] then "" else data[0] + (gaps[0] + Layout(data[1..], gaps[1..]))
  }

  /** No two words touch. */
  predicate WordsApart(data: seq<string>, gaps: seq<string>)
    requires |data| == |gaps|
  {
    forall i | 0 <= i < |data| - 1 :: gaps[i] != "" || IsSeparator(data[i]) || IsSeparator(data[i + 1])
  }

  predicate AllTokensAndBlanks(data: seq<string>, gaps: seq<string>) {
    |data| == |gaps| && forall i | 0 <= i < |data| :: IsToken(data[i]) && AllBlank(gaps[i])
  }

  /** The first token is complete where its gap and the other tokens follow exactly if it touches no other word. */
  lemma FirstApart(data: seq<string>, gaps: seq<string>)
    requires AllTokensAndBlanks(data, gaps) && data != []
    ensures IsTokenBefore(data[0], gaps[0] + Layout(data[1..], gaps[1..])) <==>
            |data| == 1 || gaps[0] != "" || IsSeparator(data[0]) || IsSeparator(data[1])
  {
    assert IsToken(data[0]) && AllBlank(gaps[0]);
    if gaps[0] == "" && |data| > 1 {
      assert IsToken(data[1]);
      assert (gaps[0] + Layout(data[1..], gaps[1..]))[0] == data[1][0];
    }
  }

  lemma FirstIsCut(text: string, data: string, rest: string, line: nat)
    requires IsToken(data) && text == data + rest
    requires Scan("", line, text) != [] && Scan("", line, text)[0].data == data
    ensures IsTokenBefore(data, rest)
  {
    ScanCuts(text, line);
    BlankStart(text);
    var skipped: nat :| CutsAt(text, Scan("", line, text), line, skipped);
    assert skipped == 0;
    assert text[|data|..] == rest;
  }

  lemma BlankStart(text: string)
    ensures forall k: nat | 0 < k <= |text| && AllBlank(text[..k]) :: IsBlank(text[0])
  {
    forall k: nat | 0 < k <= |text| && AllBlank(text[..k]) ensures IsBlank(text[0]) {
      assert text[..k][0] == text[0];
    }
  }

  lemma FirstIsScanned(data: string, gap: string, rest: string, line: nat)
    requires IsTokenBefore(data, gap + rest) && AllBlank(gap)
    ensures Datas(Scan("", line, data + (gap + rest))) == [data] + Datas(Scan("", line + Newlines(gap), rest))
  {
    ScanToken(line, data, gap + rest);
    ScanBlanks(line, gap, rest);
  }

  lemma TailApart(data: seq<string>, gaps: seq<string>)
    requires |data| == |gaps| && data != []
    requires |data| == 1 || gaps[0] != "" || IsSeparator(data[0]) || IsSeparator(data[1])
    ensures WordsApart(data, gaps) <==> WordsApart(data[1..], gaps[1..])
  {
    if WordsApart(data[1..], gaps[1..]) {
      forall i | 0 <= i < |data| - 1 ensures gaps[i] != "" || IsSeparator(data[i]) || IsSeparator(data[i + 1]) {
        if i > 0 {
          assert gaps[1..][i - 1] != "" || IsSeparator(data[1..][i - 1]) || IsSeparator(data[1..][i]);
        }
      }
    }
    if WordsApart(data, gaps) {
      forall i | 0 <= i < |data[1..]| - 1
        ensures gaps[1..][i] != "" || IsSeparator(data[1..][i]) || IsSeparator(data[1..][i + 1])
      {
        assert gaps[i + 1] != "" || IsSeparator(data[i + 1]) || IsSeparator(data[i + 2]);
      }
    }
  }

  lemma PrependedIs(first: string, others: seq<string>, found: seq<string>, data: seq<string>)
    requires data == [first] + others
    ensures [first] + found == data <==> found == others
  {
    assert ([first] + found)[1..] == found && data[1..] == others;
  }

  /** If the first token is complete it is found, and the others matter. */
  lemma FirstIsComplete(data: seq<string>, gaps: seq<string>, line: nat)
    requires AllTokensAndBlanks(data, gaps) && data != []
    requires IsTokenBefore(data[0], gaps[0] + Layout(data[1..], gaps[1..]))
    ensures Datas(Scan("", line, Layout(data, gaps))) == data <==>
            Datas(Scan("", line + Newlines(gaps[0]), Layout(data[1..], gaps[1..]))) == data[1..]
    ensures WordsApart(data, gaps) <==> WordsApart(data[1..], gaps[1..])
  {
    var rest := Layout(data[1..], gaps[1..]);
    FirstIsScanned(data[0], gaps[0], rest, line);
    PrependedIs(data[0], data[1..], Datas(Scan("", line + Newlines(gaps[0]), rest)), data);
    FirstApart(data, gaps);
    TailApart(data, gaps);
  }

  /** If it is not, it touches the next one and is not found. */
  lemma FirstTouches(data: seq<string>, gaps: seq<string>, line: nat)
    requires AllTokensAndBlanks(data, gaps) && data != []
    requires !IsTokenBefore(data[0], gaps[0] + Layout(data[1..], gaps[1..]))
    ensures Datas(Scan("", line, Layout(data, gaps))) != data && !WordsApart(data, gaps)
  {
    FirstApart(data, gaps);
    assert IsToken(data[0]);
    var found := Scan("", line, Layout(data, gaps));
    if found != [] && found[0].data == data[0] {
      FirstIsCut(Layout(data, gaps), data[0], gaps[0] + Layout(data[1..], gaps[1..]), line);
    }
  }

  /** However tokens are laid out, they are found again exactly if no two words touch. */
  lemma {:induction false} LayoutIsScannedIff(data: seq<string>, gaps: seq<string>, line: nat)
    requires AllTokensAndBlanks(data, gaps)
    ensures Datas(Scan("", line, Layout(data, gaps))) == data <==> WordsApart(data, gaps)
    decreases |data|
  {
    if data != [] {
      if IsTokenBefore(data[0], gaps[0] + Layout(data[1..], gaps[1..])) {
        FirstIsComplete(data, gaps, line);
        LayoutIsScannedIff(data[1..], gaps[1..], line + Newlines(gaps[0]));
      } else {
        FirstTouches(data, gaps, line);
      }
    }
  }

  // ---------------------------------------------------------------------------------------------
  // The two-stage lexer

  /** `File::StoreFileLinesInVec`: the lines of a text, the last one only if it is not empty. */
  function Lines(text: string): seq<string>
    decreases text
  {
    match FindFirst(text, c => c == '\n', 0)
    case None => if text == "" then [] else [text]
    case Some(p) => [text[..p]] + Lines(text[p + 1..])
  }

  function ScanLines(lines: seq<string>, line: nat): seq<Token> {
    if lines == [] then [] else Scan("", line, lines[0] + "\n") + ScanLines(lines[1..], line + 1)
  }

  lemma ScanFullLine(s: string, rest: string, line: nat)
    requires OneLine(s)
    ensures Scan("", line, s + "\n" + rest) == Scan("", line, s + "\n") + Scan("", line + 1, rest)
  {
    ScanBeforeBlank("", line, s, "\n" + rest);
    ScanBeforeBlank("", line, s, "\n");
    assert s + ("\n" + rest) == s + "\n" + rest;
    assert ("\n" + rest)[1..] == rest && "\n"[1..] == "";
  }

  /** Scanning line by line is scanning the whole text. */
  lemma {:induction false} ScanByLines(text: string, line: nat)
    ensures ScanLines(Lines(text), line) == Scan("", line, text)
    decreases text
  {
    match FindFirst(text, c => c == '\n', 0)
    case None =>
      if text != "" {
        ScanBeforeBlank("", line, text, "\n");
        assert "\n"[1..] == "" && Lines(text)[1..] == [];
      }
    case Some(p) =>
      ScanByLines(text[p + 1..], line + 1);
      ScanFullLine(text[..p], text[p + 1..], line);
      assert text == text[..p] + "\n" + text[p + 1..];
      assert Lines(text)[1..] == Lines(text[p + 1..]);
  }

  lemma {:induction false} LinesHaveNoNewline(text: string)
    ensures forall s <- Lines(text) :: OneLine(s)
    decreases text
  {
    match FindFirst(text, c => c == '\n', 0)
    case None =>
    case Some(p) => LinesHaveNoNewline(text[p + 1..]);
  }

  lemma {:induction false} ScanLinesAppend(lines: seq<string>, s: string, line: nat)
    ensures ScanLines(lines + [s], line) == ScanLines(lines, line) + Scan("", line + |lines|, s + "\n")
    decreases lines
  {
    if lines == [] {
      assert (lines + [s])[1..] == [];
    } else {
      assert (lines + [s])[1..] == lines[1..] + [s];
      ScanLinesAppend(lines[1..], s, line + 1);
    }
  }

  class Lexer {
    var tokens: seq<Token>

    constructor ()
      ensures tokens == []
    {
      tokens := [];
    }

    /** `file` is what the configuration file contains. */
    method Tokenize(file: string)
      modifies this
      ensures tokens == old(tokens) + Tokens(file)
    {
      var lines := Lines(file);
      ScanByLines(file, 0);
      LinesHaveNoNewline(file);
      for i := 0 to |lines|
        invariant tokens == old(tokens) + ScanLines(lines[..i], 0)
      {
        assert OneLine(lines[i]);
        DecomposeAndStoreLineWithDelimiters(lines[i] + "\n", i);
        ScanLinesAppend(lines[..i], lines[i], 0);
        assert lines[..i + 1] == lines[..i] + [lines[i]];
      }
      assert lines[..|lines|] == lines;
    }

    method DecomposeAndStoreLineWithDelimiters(text: string, lineNum: nat)
      requires text != "" && text[|text| - 1] == '\n' && forall i | 0 <= i < |text| - 1 :: text[i] != '\n'
      modifies this
      ensures tokens == old(tokens) + Scan("", lineNum, text)
    {
      var line := text;
      while true
        invariant line != "" && line[|line| - 1] == '\n' && forall i | 0 <= i < |line| - 1 :: line[i] != '\n'
        invariant tokens + Scan("", lineNum, line) == old(tokens) + Scan("", lineNum, text)
        decreases |line|
      {
        var spacePos := FindFirst(line, c => !IsBlank(c), 0);
        if spacePos.None? {
          ScanOnlyBlank(lineNum, line);
          break;
        }
        var findFirstPos := FindFirst(line, IsBlank, spacePos.value);
        assert IsBlank(line[|line| - 1]);
        var piece := line[spacePos.value..findFirstPos.value];
        StoredPiece(line, lineNum, spacePos.value, findFirstPos.value);
        TokensAssociate(tokens, Scan("", lineNum, piece), Scan("", lineNum, line[findFirstPos.value..]));
        SeparateAndStoreDelimiterCharacters(piece, lineNum);
        line := line[findFirstPos.value..];
      }
    }

    lemma StoredPiece(line: string, lineNum: nat, start: nat, end: nat)
      requires start < end < |line| && IsBlank(line[end])
      requires AllBlank(line[..start]) && OneLine(line[..end])
      ensures Scan("", lineNum, line) == Scan("", lineNum, line[start..end]) + Scan("", lineNum, line[end..])
    {
      ThreeParts(line, start, end);
      ScanBlank(lineNum, line[..start], line[start..end] + line[end..]);
      ScanBeforeBlank("", lineNum, line[start..end], line[end..]);
    }

    lemma ThreeParts(line: string, start: nat, end: nat)
      requires start <= end <= |line|
      ensures line == line[..start] + (line[start..end] + line[end..])
    {
    }

    lemma StoredRun(stored: seq<Token>, piece: string, lineNum: nat, p: nat)
      requires p < |piece| && IsRun(piece[..p]) && IsSeparatorChar(piece[p])
      ensures stored + Scan("", lineNum, piece)
           == stored + Flushed(piece[..p], lineNum) + Flushed([piece[p]], lineNum) + Scan("", lineNum, piece[p + 1..])
    {
      ScanSeparator(lineNum, piece[..p], piece[p], piece[p + 1..]);
      assert piece == piece[..p] + [piece[p]] + piece[p + 1..];
      var found := Flushed(piece[..p], lineNum) + Flushed([piece[p]], lineNum);
      TokensAssociate(stored, found, Scan("", lineNum, piece[p + 1..]));
      TokensAssociate(stored, Flushed(piece[..p], lineNum), Flushed([piece[p]], lineNum));
    }

    method SeparateAndStoreDelimiterCharacters(text: string, lineNum: nat)
      requires forall i | 0 <= i < |text| :: !IsBlank(text[i])
      modifies this
      ensures tokens == old(tokens) + Scan("", lineNum, text)
    {
      var piece := text;
      while true
        invariant forall i | 0 <= i < |piece| :: !IsBlank(piece[i])
        invariant tokens + Scan("", lineNum, piece) == old(tokens) + Scan("", lineNum, text)
        decreases |piece|
      {
        var sepPos := FindFirst(piece, IsSeparatorChar, 0);
        if sepPos.None? {
          ScanOnlyRun(lineNum, piece);
          break;
        }
        var p := sepPos.value;
        ghost var stored := tokens;
        StoreIfNotEmpty(piece[..p], lineNum);
        StoreIfNotEmpty([piece[p]], lineNum);
        assert tokens == stored + Flushed(piece[..p], lineNum) + Flushed([piece[p]], lineNum);
        StoredRun(stored, piece, lineNum, p);
        piece := piece[p + 1..];
      }
      StoreIfNotEmpty(piece, lineNum);
    }

    method StoreIfNotEmpty(str: string, lineNum: nat)
      modifies this
      ensures tokens == old(tokens) + Flushed(str, lineNum)
    {
      if str == "" { return; }
      tokens := tokens + [Token(str, lineNum)];
    }
  }
}
