/** The parts of `std::string` and the C library that the parsers rest on; a `char` stands for a byte. */
module Text {

  datatype Option<+T> = None | Some(value: T) {
    predicate IsFailure() { None? }
    function PropagateFailure<U>(): Option<U>
      requires IsFailure()
    {
      None
    }
    function Extract(): T
      requires !IsFailure()
    {
      value
    }
  }

  const NL := "\r\n"

  /** `NL` stands at `i`. */
  predicate AtNL(s: string, i: nat) {
    i + 1 < |s| && s[i] == '\r' && s[i + 1] == '\n'
  }

  /** `s.find(NL, from)`, with `None` for `npos`. */
  function FindNL(s: string, from: nat): (r: Option<nat>)
    ensures r.Some? ==> from <= r.value && r.value + 1 < |s|
    decreases |s| - from
  {
    if from >= |s| then None
    else if AtNL(s, from) then Some(from)
    else FindNL(s, from + 1)
  }

  /** `p` is the first place from `from` on where `NL` stands. */
  ghost predicate IsFirstNL(s: string, from: nat, p: nat) {
    from <= p && AtNL(s, p) && forall i | from <= i < p :: !AtNL(s, i)
  }

  lemma {:induction false} FindNLFinds(s: string, from: nat)
    ensures match FindNL(s, from)
            case Some(p) => IsFirstNL(s, from, p)
            case None => forall i | from <= i :: !AtNL(s, i)
    decreases |s| - from
  {
    if from < |s| && !AtNL(s, from) {
      FindNLFinds(s, from + 1);
    }
  }

  lemma FindNLIsAt(s: string, from: nat, p: nat)
    requires IsFirstNL(s, from, p)
    ensures FindNL(s, from) == Some(p)
  {
    FindNLFinds(s, from);
  }

  lemma FindNLFails(s: string, from: nat)
    requires forall i | from <= i :: !AtNL(s, i)
    ensures FindNL(s, from) == None
  {
    FindNLFinds(s, from);
  }

  /** What is found in a piece of text is found there in every longer text as well. */
  lemma FindNLExtends(a: string, b: string, from: nat)
    requires FindNL(a, from).Some?
    ensures FindNL(a + b, from) == FindNL(a, from)
  {
    FindNLFinds(a, from);
    var p := FindNL(a, from).value;
    forall i | from <= i < p ensures !AtNL(a + b, i) {
      assert !AtNL(a, i);
    }
    FindNLIsAt(a + b, from, p);
  }

  /** `x` occurs in `s` at `i`. */
  ghost predicate Occurs(s: string, x: string, i: nat) {
    i + |x| <= |s| && s[i..i + |x|] == x
  }

  lemma OccursConcat(s: string, x: string, y: string, i: nat)
    requires Occurs(s, x + y, i)
    ensures Occurs(s, x, i) && Occurs(s, y, i + |x|)
  {
    assert s[i..i + |x|] == (x + y)[..|x|] == x;
    assert s[i + |x|..i + |x| + |y|] == (x + y)[|x|..] == y;
  }

  /** `s.substr(from, count)`, which stops at the end of `s`. */
  function Substr(s: string, from: nat, count: nat): string
    requires from <= |s|
  {
    if from + count <= |s| then s[from..from + count] else s[from..]
  }

  lemma SubstrExtends(a: string, b: string, from: nat, count: nat)
    requires from + count <= |a|
    ensures Substr(a + b, from, count) == Substr(a, from, count)
  {
  }

  lemma Associative<T>(a: seq<T>, b: seq<T>, c: seq<T>)
    ensures a + (b + c) == (a + b) + c
  {
  }

  /** `s.find_first_of(chars, from)` for the characters for which `p` holds, with `None` for `npos`. */
  function FindFirst(s: string, p: char -> bool, from: nat): (r: Option<nat>)
    ensures r.Some? ==> from <= r.value < |s| && p(s[r.value]) && forall i | from <= i < r.value :: !p(s[i])
    ensures r.None? ==> forall i | from <= i < |s| :: !p(s[i])
    decreases |s| - from
  {
    if from >= |s| then None else if p(s[from]) then Some(from) else FindFirst(s, p, from + 1)
  }

  /** Where the first colon stands. */
  function Colon(s: string): Option<nat> {
    FindFirst(s, c => c == ':', 0)
  }

  lemma ColonBehind(name: string, rest: string)
    requires ':' !in name
    ensures Colon(name + ":" + rest) == Some(|name|)
    ensures (name + ":" + rest)[..|name|] == name && (name + ":" + rest)[|name| + 1..] == rest
  {
    var s := name + ":" + rest;
    assert s[|name|] == ':' && forall i | 0 <= i < |name| :: s[i] == name[i];
  }

  function Concat(pieces: seq<string>): string {
    if pieces == [] then "" else pieces[0] + Concat(pieces[1..])
  }

  predicate AllNonEmpty(pieces: seq<string>) {
    forall i | 0 <= i < |pieces| :: pieces[i] != ""
  }

  lemma ConcatOne(a: string)
    ensures Concat([a]) == a
  {
    assert |[a][1..]| == 0 && a + "" == a;
  }

  lemma ConcatTwo(a: string, b: string)
    ensures Concat([a, b]) == a + b
  {
    assert [a, b][1..] == [b];
    ConcatOne(b);
  }

  lemma {:induction false} ConcatAppend(a: seq<string>, b: seq<string>)
    ensures Concat(a + b) == Concat(a) + Concat(b)
  {
    if a == [] {
      assert a + b == b;
    } else {
      ConcatAppend(a[1..], b);
      assert (a + b)[0] == a[0] && (a + b)[1..] == a[1..] + b;
      Associative(a[0], Concat(a[1..]), Concat(b));
    }
  }

  /** `isspace` in the C locale. */
  predicate IsSpace(c: char) {
    c == ' ' || '\t' <= c <= '\r'
  }

  function SkipSpace(s: string): string {
    if s != "" && IsSpace(s[0]) then SkipSpace(s[1..]) else s
  }

  function TrimRight(s: string): string {
    if s != "" && IsSpace(s[|s| - 1]) then TrimRight(s[..|s| - 1]) else s
  }

  function Trim(s: string): string {
    TrimRight(SkipSpace(s))
  }

  predicate IsTrimmed(s: string) {
    s != "" && !IsSpace(s[0]) && !IsSpace(s[|s| - 1])
  }

  lemma {:induction false} SkipSpaceIsSuffix(s: string)
    ensures |SkipSpace(s)| <= |s| && SkipSpace(s) == s[|s| - |SkipSpace(s)|..]
    ensures SkipSpace(s) != "" ==> !IsSpace(SkipSpace(s)[0])
  {
    if s != "" && IsSpace(s[0]) {
      SkipSpaceIsSuffix(s[1..]);
    }
  }

  lemma {:induction false} TrimRightIsPrefix(s: string)
    ensures |TrimRight(s)| <= |s| && TrimRight(s) == s[..|TrimRight(s)|]
    ensures TrimRight(s) != "" ==> !IsSpace(TrimRight(s)[|TrimRight(s)| - 1])
  {
    if s != "" && IsSpace(s[|s| - 1]) {
      TrimRightIsPrefix(s[..|s| - 1]);
    }
  }

  lemma {:induction false} TrimRightOff(value: string, after: string)
    requires (value == "" || !IsSpace(value[|value| - 1])) && forall i | 0 <= i < |after| :: IsSpace(after[i])
    ensures TrimRight(value + after) == value
  {
    if after == "" {
      assert value + after == value;
    } else {
      var n := |after| - 1;
      assert (value + after)[..|value| + n] == value + after[..n] && (value + after)[|value| + n] == after[n];
      TrimRightOff(value, after[..n]);
    }
  }

  lemma {:induction false} SkipSpaceOff(before: string, t: string)
    requires (t == "" || !IsSpace(t[0])) && forall i | 0 <= i < |before| :: IsSpace(before[i])
    ensures SkipSpace(before + t) == t
  {
    if before == "" {
      assert before + t == t;
    } else {
      assert (before + t)[0] == before[0] && (before + t)[1..] == before[1..] + t;
      SkipSpaceOff(before[1..], t);
    }
  }

  /** Trimming takes off exactly the white space at both ends. */
  lemma TrimOff(before: string, value: string, after: string)
    requires value == "" || IsTrimmed(value)
    requires (forall i | 0 <= i < |before| :: IsSpace(before[i])) && forall i | 0 <= i < |after| :: IsSpace(after[i])
    ensures Trim(before + value + after) == value
  {
    if value == "" {
      var space := before + after;
      SkipSpaceOff(space, "");
      assert before + value + after == space == space + "";
      assert SkipSpace(space) == "";
    } else {
      assert before + value + after == before + (value + after);
      SkipSpaceOff(before, value + after);
      TrimRightOff(value, after);
    }
  }

  predicate IsDigit(c: char) {
    '0' <= c <= '9'
  }

  predicate IsAlpha(c: char) {
    'a' <= c <= 'z' || 'A' <= c <= 'Z'
  }

  function ToLower(c: char): char {
    if 'A' <= c <= 'Z' then c + 32 as char else c
  }

  function ToUpper(c: char): char {
    if 'a' <= c <= 'z' then c - 32 as char else c
  }

  const UPPER_CASE := "ABCDEFGHIJKLMNOPQRSTUVWXYZ"
  const LOWER_CASE := "abcdefghijklmnopqrstuvwxyz"

  lemma LetterAt(i: nat)
    requires i < 26
    ensures UPPER_CASE[i] == 'A' + i as char && LOWER_CASE[i] == 'a' + i as char
  {
  }

  lemma LettersMean(c: char)
    ensures c in UPPER_CASE <==> 'A' <= c <= 'Z'
    ensures c in LOWER_CASE <==> 'a' <= c <= 'z'
  {
    if 'A' <= c <= 'Z' {
      LetterAt((c - 'A') as int);
      assert UPPER_CASE[(c - 'A') as int] == c;
    } else if 'a' <= c <= 'z' {
      LetterAt((c - 'a') as int);
      assert LOWER_CASE[(c - 'a') as int] == c;
    }
    forall i: nat | i < 26 ensures 'A' <= UPPER_CASE[i] <= 'Z' && 'a' <= LOWER_CASE[i] <= 'z' {
      LetterAt(i);
    }
  }

  /** `isdigit`, `isspace`, `isalpha`, `tolower` and `toupper` in the C locale. */
  lemma CharactersMean(c: char)
    ensures IsDigit(c) <==> c in "0123456789"
    ensures IsSpace(c) <==> c as int in {9, 10, 11, 12, 13, 32}
    ensures IsAlpha(c) <==> c in UPPER_CASE || c in LOWER_CASE
    ensures c !in UPPER_CASE ==> ToLower(c) == c
    ensures c !in LOWER_CASE ==> ToUpper(c) == c
  {
    LettersMean(c);
    assert IsDigit(c) ==> c == "0123456789"[(c - '0') as int];
  }

  lemma LettersConvert(i: nat)
    requires i < 26
    ensures ToLower(UPPER_CASE[i]) == LOWER_CASE[i] && ToUpper(LOWER_CASE[i]) == UPPER_CASE[i]
  {
    LetterAt(i);
  }
}
