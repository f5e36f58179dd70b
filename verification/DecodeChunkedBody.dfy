/** The chunked transfer coding of section 7.1 of RFC 9112: frames, and the incremental decoder. */
module ChunkedDecoding {
  import opened Text
  import opened Numbers
  import opened Iteration

  const LAST_CHUNK := "0\r\n\r\n"

  /** One chunk as it goes over the wire: a size line, a line end, the data, and a line end. */
  function FrameAs(line: string, data: string): string {
    line + NL + data + NL
  }

  /** Chunks with their size lines. */
  function Frames(lines: seq<string>, chunks: seq<string>): string
    requires |lines| == |chunks|
  {
    if chunks == [] then "" else FrameAs(lines[0], chunks[0]) + Frames(lines[1..], chunks[1..])
  }

  /** Each line is some way to write the size of its chunk in base 16. */
  ghost predicate Spell(lines: seq<string>, chunks: seq<string>) {
    |lines| == |chunks| && forall i | 0 <= i < |lines| :: IsSpelling(lines[i], |chunks[i]|)
  }

  /** A chunk as it is sent. */
  function Frame(data: string): string {
    FrameAs(Print(|data|, Hex), data)
  }

  function FrameAll(chunks: seq<string>): string {
    if chunks == [] then "" else Frame(chunks[0]) + FrameAll(chunks[1..])
  }

  function Printed(chunks: seq<string>): seq<string> {
    seq(|chunks|, i requires 0 <= i < |chunks| => Print(|chunks[i]|, Hex))
  }

  lemma {:induction false} PrintedSpell(chunks: seq<string>)
    ensures Spell(Printed(chunks), chunks) && Frames(Printed(chunks), chunks) == FrameAll(chunks)
  {
    forall i | 0 <= i < |chunks| ensures IsSpelling(Printed(chunks)[i], |chunks[i]|) {
      PrintIsSpelling(|chunks[i]|);
    }
    if chunks != [] {
      PrintedSpell(chunks[1..]);
      assert Printed(chunks)[1..] == Printed(chunks[1..]);
    }
  }

  lemma {:induction false} FrameAllAppend(a: seq<string>, b: seq<string>)
    ensures FrameAll(a + b) == FrameAll(a) + FrameAll(b)
  {
    if a == [] {
      assert a + b == b;
    } else {
      FrameAllAppend(a[1..], b);
      assert (a + b)[0] == a[0] && (a + b)[1..] == a[1..] + b;
      Associative(Frame(a[0]), FrameAll(a[1..]), FrameAll(b));
    }
  }

  datatype DecodeStat = WaitSize | ChunkError | WaitChunkedBody | DecodeComplete

  /** How a call ends: by returning its status, by an exception, or not at all. */
  datatype Outcome =
    | Returned(stat: DecodeStat, head: nat, decoded: string)
    | PayloadTooLarge                          // the error response 413
    | OutOfRange(head: nat, decoded: string)   // std::out_of_range, and what the object then holds
    | Forever                                  // the loop has no end

  datatype SizeLine = Incomplete | Malformed | Sized(data: nat, size: int)

  /** The size line at `head`, and where the data begin. A sign is accepted; only -1 counts as malformed. */
  function ReadSizeLine(buf: string, head: nat): (line: SizeLine)
    requires head <= |buf|
    ensures line.Sized? ==> head + 2 <= line.data <= |buf| && LONG_MIN <= line.size <= LONG_MAX
  {
    match FindNL(buf, head)
    case None => Incomplete
    case Some(pos) =>
      var size := StrToLong(buf[head..pos], Hex);
      if size == -1 then Malformed else Sized(pos + 2, size)
  }

  predicate EndsBody(buf: string, line: SizeLine) {
    line.Sized? && line.size == 0 && AtNL(buf, line.data)
  }

  /** `buf.substr(data, size)`: a negative size, converted to `size_t`, asks for all that is left. */
  function Taken(buf: string, data: nat, size: int): string
    requires data <= |buf|
  {
    if size < 0 then buf[data..] else Substr(buf, data, size)
  }

  /** `data + size` as a `size_t`; no string is so long that the sum could overflow. */
  function DataEnd(data: nat, size: int): nat
    requires LONG_MIN <= size
  {
    if data + size < 0 then data + size + SIZE_T else data + size
  }

  /** One round of the decoder's loop: it ends the call, or goes on at another size line. */
  datatype Round = Done(outcome: Outcome) | More(head: nat, decoded: string)

  function DataRound(buf: string, data: nat, size: int, decoded: string, max: nat): (r: Round)
    requires data <= |buf| && LONG_MIN <= size
    ensures r.More? ==> r.head <= |buf|
  {
    var decoded' := decoded + Taken(buf, data, size);
    var end := DataEnd(data, size);
    if |decoded'| > max then Done(PayloadTooLarge)
    else if end > |buf| + 2 then Done(Returned(ChunkError, end, decoded'))
    else if end > |buf| then Done(OutOfRange(end, decoded'))
    else if AtNL(buf, end) then More(end + 2, decoded')
    else Done(Returned(ChunkError, end, decoded'))
  }

  function NextRound(buf: string, head: nat, decoded: string, max: nat): (r: Round)
    requires head <= |buf|
    ensures r.More? ==> r.head <= |buf|
  {
    var line := ReadSizeLine(buf, head);
    match line
    case Incomplete => Done(Returned(WaitSize, head, decoded))
    case Malformed => Done(Returned(ChunkError, head, decoded))
    case Sized(data, size) =>
      if EndsBody(buf, line) then Done(Returned(DecodeComplete, data, decoded))
      else DataRound(buf, data, size, decoded, max)
  }

  /** A round as a step that stays where it has ended. */
  function StepOf(buf: string, max: nat): Round -> Round {
    (r: Round) => if r.More? && r.head <= |buf| then NextRound(buf, r.head, r.decoded, max) else r
  }

  lemma StepIs(buf: string, head: nat, decoded: string, max: nat)
    requires head <= |buf|
    ensures StepOf(buf, max)(More(head, decoded)) == NextRound(buf, head, decoded, max)
  {
  }

  /** Where `n` more rounds lead from `r`. */
  ghost function After(buf: string, max: nat, r: Round, n: nat): Round {
    Iterate(StepOf(buf, max), r, n)
  }

  /** The outcome that rounds from `r` on come to, if they come to any. */
  ghost function Result(buf: string, max: nat, r: Round): Outcome {
    if exists n: nat :: After(buf, max, r, n).Done? then
      var n: nat :| After(buf, max, r, n).Done?;
      After(buf, max, r, n).outcome
    else Forever
  }

  /** What the decoder makes of `buf` from the size line at `head` on, with `decoded` decoded so far. */
  ghost function Decode(buf: string, head: nat, decoded: string, max: nat): Outcome {
    Result(buf, max, More(head, decoded))
  }

  /** It does not matter how many rounds are granted once they are enough. */
  lemma ResultIs(buf: string, max: nat, r: Round, n: nat)
    requires After(buf, max, r, n).Done?
    ensures Result(buf, max, r) == After(buf, max, r, n).outcome
  {
    forall m: nat | After(buf, max, r, m).Done? ensures After(buf, max, r, m) == After(buf, max, r, n) {
      SameEnd(StepOf(buf, max), r, m, n);
    }
  }

  /** Rounds lead to the same result from wherever they have led. */
  lemma ResultAfter(buf: string, max: nat, r: Round, m: nat)
    ensures Result(buf, max, After(buf, max, r, m)) == Result(buf, max, r)
  {
    var f, r' := StepOf(buf, max), After(buf, max, r, m);
    forall n: nat | After(buf, max, r, n).Done? ensures After(buf, max, r', n).Done? {
      IterateMore(f, r, m, n);
      IterateMore(f, r, n, m);
      IterateFixed(f, After(buf, max, r, n), m);
    }
    if n: nat :| After(buf, max, r', n).Done? {
      IterateMore(f, r, m, n);
      ResultIs(buf, max, r', n);
      ResultIs(buf, max, r, m + n);
    }
  }

  lemma OneRound(buf: string, head: nat, decoded: string, max: nat)
    requires head <= |buf|
    ensures After(buf, max, More(head, decoded), 1) == NextRound(buf, head, decoded, max)
  {
    StepIs(buf, head, decoded, max);
    OneStep(StepOf(buf, max), More(head, decoded));
  }

  lemma DecodeGoesOn(buf: string, head: nat, decoded: string, max: nat, head': nat, decoded': string)
    requires head <= |buf| && NextRound(buf, head, decoded, max) == More(head', decoded')
    ensures Decode(buf, head, decoded, max) == Decode(buf, head', decoded', max)
  {
    OneRound(buf, head, decoded, max);
    ResultAfter(buf, max, More(head, decoded), 1);
  }

  lemma DecodeEnds(buf: string, head: nat, decoded: string, max: nat, o: Outcome)
    requires head <= |buf| && NextRound(buf, head, decoded, max) == Done(o)
    ensures Decode(buf, head, decoded, max) == o
  {
    OneRound(buf, head, decoded, max);
    ResultIs(buf, max, More(head, decoded), 1);
  }

  /** `n` rounds are enough, and lead to `o`. */
  ghost predicate EndsWithin(buf: string, head: nat, decoded: string, max: nat, n: nat, o: Outcome) {
    After(buf, max, More(head, decoded), n) == Done(o)
  }

  lemma RoundsOf(buf: string, head: nat, decoded: string, max: nat) returns (n: nat)
    requires Decode(buf, head, decoded, max) != Forever
    ensures EndsWithin(buf, head, decoded, max, n, Decode(buf, head, decoded, max))
  {
    n :| After(buf, max, More(head, decoded), n).Done?;
    ResultIs(buf, max, More(head, decoded), n);
  }

  /** A call that has not ended needs fewer rounds after each. */
  lemma RoundsLeft(buf: string, head: nat, decoded: string, max: nat, n: nat, o: Outcome)
    requires head <= |buf| && EndsWithin(buf, head, decoded, max, n, o)
    ensures n > 0
    ensures match NextRound(buf, head, decoded, max)
            case Done(o') => o' == o
            case More(h, d) => EndsWithin(buf, h, d, max, n - 1, o)
  {
    StepIs(buf, head, decoded, max);
    var r := NextRound(buf, head, decoded, max);
    if r.Done? {
      IterateFixed(StepOf(buf, max), r, n - 1);
    }
  }

  /** What holds of a return: for a waiting, a complete and a failed decoder. */
  predicate NormalOutcome(buf: string, start: string, max: nat, o: Outcome) {
    o.Returned? ==>
      && start <= o.decoded && |o.decoded| <= max
      && o.stat != WaitChunkedBody
      && (o.stat == WaitSize ==> o.head <= |buf| && FindNL(buf, o.head) == None)
      && (o.stat == DecodeComplete ==> AtNL(buf, o.head))
      && (o.stat == ChunkError ==> !AtNL(buf, o.head))
  }

  predicate NormalRound(buf: string, start: string, max: nat, r: Round) {
    match r
    case More(h, d) => h <= |buf| && start <= d && |d| <= max
    case Done(o) => NormalOutcome(buf, start, max, o)
  }

  lemma MalformedIsNoLineEnd(buf: string, head: nat)
    requires head <= |buf| && ReadSizeLine(buf, head).Malformed?
    ensures !AtNL(buf, head)
  {
    assert buf[head..head] == "";
  }

  lemma DataRoundIsNormal(buf: string, start: string, max: nat, data: nat, size: int, decoded: string)
    requires data <= |buf| && LONG_MIN <= size && start <= decoded
    ensures NormalRound(buf, start, max, DataRound(buf, data, size, decoded, max))
  {
    assert start <= decoded + Taken(buf, data, size);
  }

  lemma RoundIsNormal(buf: string, start: string, max: nat, head: nat, decoded: string)
    requires NormalRound(buf, start, max, More(head, decoded))
    ensures NormalRound(buf, start, max, NextRound(buf, head, decoded, max))
  {
    match ReadSizeLine(buf, head)
    case Incomplete =>
    case Malformed => MalformedIsNoLineEnd(buf, head);
    case Sized(data, size) => DataRoundIsNormal(buf, start, max, data, size, decoded);
  }

  lemma AfterIsNormal(buf: string, head: nat, decoded: string, max: nat, n: nat)
    requires head <= |buf| && |decoded| <= max
    ensures NormalRound(buf, decoded, max, After(buf, max, More(head, decoded), n))
  {
    var normal := (r: Round) => NormalRound(buf, decoded, max, r);
    forall r | normal(r) ensures normal(StepOf(buf, max)(r)) {
      if r.More? { RoundIsNormal(buf, decoded, max, r.head, r.decoded); }
    }
    IterateKeeps(StepOf(buf, max), normal, More(head, decoded), n);
  }

  /**
   What a normal return leaves: a decoded body that begins with what there was and keeps within the limit, and
   a head with no line end behind it (waiting), at the final one (complete), or where one is missing (error).
   */
  lemma NormalReturn(buf: string, head: nat, decoded: string, max: nat)
    requires head <= |buf| && |decoded| <= max
    ensures NormalOutcome(buf, decoded, max, Decode(buf, head, decoded, max))
  {
    if Decode(buf, head, decoded, max) != Forever {
      var n := RoundsOf(buf, head, decoded, max);
      AfterIsNormal(buf, head, decoded, max, n);
    }
  }

  // ---------------------------------------------------------------------------------------------
  // When the loop has no end

  /** A last size line that sends the head back to its own beginning. */
  predicate Trap(buf: string, head: nat) {
    && 2 <= head && AtNL(buf, head - 2)
    && head + 2 <= |buf| && FindNL(buf, head) == Some(|buf| - 2)
    && StrToLong(buf[head..|buf| - 2], Hex) == head - 2 - |buf|
  }

  lemma TrapRound(buf: string, head: nat, decoded: string, max: nat)
    requires Trap(buf, head) && |decoded| <= max
    ensures NextRound(buf, head, decoded, max) == More(head, decoded)
  {
    assert decoded + buf[|buf|..] == decoded;
  }

  /** Falls with every round that decodes nothing. */
  function Rank(buf: string, head: nat): nat
    requires head <= |buf|
  {
    if head == |buf| then 0 else if head > 0 && AtNL(buf, head - 1) then head + 3 else head + 1
  }

  /** A last size line that goes back and decodes nothing leads to a lower rank, unless it is a trap. */
  lemma LastLineDescends(buf: string, head: nat, size: int)
    requires head + 2 <= |buf| && FindNL(buf, head) == Some(|buf| - 2) && size < 0 && |buf| + size >= 0
    requires StrToLong(buf[head..|buf| - 2], Hex) == size && AtNL(buf, |buf| + size)
    ensures |buf| + size + 2 <= |buf|
    ensures Rank(buf, |buf| + size + 2) < Rank(buf, head) || (Trap(buf, head) && |buf| + size + 2 == head)
  {
    FindNLFinds(buf, head);
    assert |buf| + size < |buf| - 2 ==> |buf| + size < head;
  }

  /** A round of any other kind decodes something, or moves the head to a lower rank. */
  lemma RoundDescends(buf: string, head: nat, decoded: string, max: nat)
    requires head <= |buf| && NextRound(buf, head, decoded, max).More?
    ensures var r := NextRound(buf, head, decoded, max);
            && |decoded| <= |r.decoded| <= max
            && (|r.decoded| == |decoded| ==> Rank(buf, r.head) < Rank(buf, head) || (Trap(buf, head) && r.head == head))
  {
    var line, r := ReadSizeLine(buf, head), NextRound(buf, head, decoded, max);
    if |r.decoded| == |decoded| {
      assert Taken(buf, line.data, line.size) == "";
      assert line.size < 0 && line.data == |buf|;
      LastLineDescends(buf, head, line.size);
    }
  }

  /** Every call ends, or comes to a trap. */
  lemma {:induction false} EndsOrTraps(buf: string, head: nat, decoded: string, max: nat) returns (n: nat)
    requires head <= |buf| && |decoded| <= max
    ensures var r := After(buf, max, More(head, decoded), n); r.Done? || Trap(buf, r.head)
    decreases max - |decoded|, Rank(buf, head)
  {
    var r := NextRound(buf, head, decoded, max);
    if r.Done? {
      OneRound(buf, head, decoded, max);
      n := 1;
    } else if Trap(buf, head) {
      n := 0;
    } else {
      RoundDescends(buf, head, decoded, max);
      n := EndsOrTraps(buf, r.head, r.decoded, max);
      OneRound(buf, head, decoded, max);
      IterateMore(StepOf(buf, max), More(head, decoded), 1, n);
      n := n + 1;
    }
  }

  /** A call does not end exactly if it comes to a trap. */
  lemma ForeverIff(buf: string, head: nat, decoded: string, max: nat)
    requires head <= |buf| && |decoded| <= max
    ensures Decode(buf, head, decoded, max) == Forever <==>
      exists n :: var r := After(buf, max, More(head, decoded), n); r.More? && Trap(buf, r.head)
  {
    var start := More(head, decoded);
    if n: nat :| After(buf, max, start, n).More? && Trap(buf, After(buf, max, start, n).head) {
      AfterIsNormal(buf, head, decoded, max, n);
      TrappedForever(buf, max, start, n);
    } else {
      var n := EndsOrTraps(buf, head, decoded, max);
      ResultIs(buf, max, start, n);
      NeverForever(buf, max, head, decoded, n);
    }
  }

  lemma TrappedForever(buf: string, max: nat, r: Round, n: nat)
    requires var r' := After(buf, max, r, n); r'.More? && Trap(buf, r'.head) && |r'.decoded| <= max
    ensures Result(buf, max, r) == Forever
  {
    var f, r' := StepOf(buf, max), After(buf, max, r, n);
    StepIs(buf, r'.head, r'.decoded, max);
    TrapRound(buf, r'.head, r'.decoded, max);
    forall m: nat ensures After(buf, max, r, m).More? {
      if After(buf, max, r, m).Done? {
        SameEnd(f, r, m, n);
      }
    }
  }

  /** No round reports that there will be none. */
  lemma NeverForever(buf: string, max: nat, head: nat, decoded: string, n: nat)
    ensures After(buf, max, More(head, decoded), n) != Done(Forever)
  {
    var other := (r: Round) => r != Done(Forever);
    forall r | other(r) ensures other(StepOf(buf, max)(r)) {}
    IterateKeeps(StepOf(buf, max), other, More(head, decoded), n);
  }

  const SPINNING := "1\r\na\r\n-6\r\n"

  /** Such input is short: one chunk, and a size line that leads back to itself. */
  lemma SpinningBody(max: nat)
    requires max > 0
    ensures Decode(SPINNING, 0, "", max) == Forever
  {
    var buf := SPINNING;
    assert |buf| == 10 && AtNL(buf, 1) && AtNL(buf, 4) && AtNL(buf, 8);
    FindNLIsAt(buf, 0, 1);
    FindNLIsAt(buf, 6, 8);
    OneDigit('1');
    MinusOneDigit('6');
    assert buf[0..1] == "1" && buf[6..8] == "-6";
    assert Substr(buf, 3, 1) == "a" && "" + "a" == "a";
    assert NextRound(buf, 0, "", max) == More(6, "a");
    OneRound(buf, 0, "", max);
    assert Trap(buf, 6);
    TrappedForever(buf, max, More(0, ""), 1);
  }

  lemma OneDigit(c: char)
    requires IsDigit(c)
    ensures StrToLong([c], Hex) == DigitValue(c)
  {
    var s := [c];
    assert SkipSpace(s) == s && Unsigned(s) == s && s[..0] == "";
    assert Value("", Hex) == 0;
  }

  lemma MinusOneDigit(c: char)
    requires IsDigit(c)
    ensures StrToLong(['-', c], Hex) == -(DigitValue(c) as int)
  {
    var s := ['-', c];
    assert SkipSpace(s) == s && Unsigned(s) == [c] && [c][..0] == "";
    assert Value("", Hex) == 0;
  }

  // ---------------------------------------------------------------------------------------------
  // When the decoder looks behind the end of its buffer

  /** At the size line at `head`: the data fit the limit, but end one or two bytes behind the buffer. */
  predicate Overshoots(buf: string, head: nat, decoded: string, max: nat) {
    && head <= |buf| && ReadSizeLine(buf, head).Sized? && !EndsBody(buf, ReadSizeLine(buf, head))
    && var (data, size) := (ReadSizeLine(buf, head).data, ReadSizeLine(buf, head).size);
       |decoded + Taken(buf, data, size)| <= max && |buf| < DataEnd(data, size) <= |buf| + 2
  }

  lemma OvershootRound(buf: string, head: nat, decoded: string, max: nat)
    requires head <= |buf|
    ensures var r := NextRound(buf, head, decoded, max);
            r.Done? && r.outcome.OutOfRange? <==> Overshoots(buf, head, decoded, max)
  {
  }

  /** The round that ends a call. */
  lemma LastRound(buf: string, max: nat, r: Round, n: nat) returns (m: nat)
    requires r.More? && After(buf, max, r, n).Done?
    ensures var last := After(buf, max, r, m);
            && last.More? && last.head <= |buf|
            && NextRound(buf, last.head, last.decoded, max) == After(buf, max, r, n)
  {
    m := LastStep(StepOf(buf, max), (r': Round) => r'.Done?, r, n);
  }

  /** A call throws `std::out_of_range` exactly if it comes to such a size line. */
  lemma OutOfRangeIff(buf: string, head: nat, decoded: string, max: nat)
    ensures Decode(buf, head, decoded, max).OutOfRange? <==>
      exists n :: var r := After(buf, max, More(head, decoded), n);
        r.More? && Overshoots(buf, r.head, r.decoded, max)
  {
    var start := More(head, decoded);
    if Decode(buf, head, decoded, max).OutOfRange? {
      var n := RoundsOf(buf, head, decoded, max);
      var m := LastRound(buf, max, start, n);
      var last := After(buf, max, start, m);
      OvershootRound(buf, last.head, last.decoded, max);
    }
    if n: nat :| var r := After(buf, max, start, n); r.More? && Overshoots(buf, r.head, r.decoded, max) {
      var r := After(buf, max, start, n);
      OvershootRound(buf, r.head, r.decoded, max);
      DecodeEnds(buf, r.head, r.decoded, max, NextRound(buf, r.head, r.decoded, max).outcome);
      ResultAfter(buf, max, start, n);
    }
  }

  lemma SubstrIsAt(buf: string, i: nat)
    requires i <= |buf|
    ensures Substr(buf, i, 2) == NL <==> AtNL(buf, i)
  {
    if AtNL(buf, i) {
      assert buf[i..i + 2] == NL;
    }
  }

  lemma NLOccurs(buf: string, i: nat)
    requires Occurs(buf, NL, i)
    ensures AtNL(buf, i)
  {
    assert buf[i] == buf[i..i + 2][0] && buf[i + 1] == buf[i..i + 2][1];
  }

  class ChunkedBody {
    var stat: DecodeStat
    var buf: string
    var decodedBody: string
    var strHead: nat
    var nextSize: int
    var maxBodySize: nat

    /** The maximal size is set later. */
    constructor ()
      ensures stat == WaitSize && buf == "" && decodedBody == "" && strHead == 0
    {
      stat, buf, decodedBody, strHead, nextSize, maxBodySize := WaitSize, "", "", 0, 0, *;
    }

    method SetMaxSize(size: nat)
      modifies this`maxBodySize
      ensures maxBodySize == size
    {
      maxBodySize := size;
    }

    /** What a call that appends `requestBuf` to the buffer makes of it. */
    ghost function Expected(requestBuf: string): Outcome
      requires strHead <= |buf|
      reads this
    {
      Decode(buf + requestBuf, strHead, decodedBody, maxBodySize)
    }

    /** The object holds what an outcome says that it holds. */
    ghost predicate Holds(o: Outcome)
      reads this
    {
      match o
      case Returned(s, h, d) => stat == s && strHead == h && decodedBody == d
      case OutOfRange(h, d) => strHead == h && decodedBody == d
      case _ => true
    }

    /**
     A call is only made while the decoder still waits for a size line, and a call that would not end (see
     `ForeverIff`) is not one that a method could be proved to make.
     */
    method DecodeChunkedBody(requestBuf: string) returns (outcome: Outcome)
      requires stat == WaitSize && strHead <= |buf|
      requires Expected(requestBuf) != Forever
      modifies this
      ensures outcome == old(Expected(requestBuf)) && Holds(outcome)
      ensures buf == old(buf) + requestBuf && maxBodySize == old(maxBodySize)
    {
      buf := buf + requestBuf;
      ghost var rounds := RoundsOf(buf, strHead, decodedBody, maxBodySize);
      outcome := Loop(rounds, Decode(buf, strHead, decodedBody, maxBodySize));
    }

    /** The loop, which leads to the outcome `goal` within so many rounds. */
    method Loop(ghost rounds: nat, ghost goal: Outcome) returns (outcome: Outcome)
      requires stat == WaitSize && strHead <= |buf|
      requires EndsWithin(buf, strHead, decodedBody, maxBodySize, rounds, goal)
      modifies this`stat, this`strHead, this`nextSize, this`decodedBody
      ensures outcome == goal && Holds(outcome)
    {
      ghost var left := rounds;
      while true
        invariant stat == WaitSize && strHead <= |buf|
        invariant EndsWithin(buf, strHead, decodedBody, maxBodySize, left, goal)
        decreases left
      {
        var done := TakeRound(left, goal);
        left := left - 1;
        if done.Some? { return done.value; }
      }
    }

    /** The body of the loop, with so many rounds left at most; an outcome means that it is left. */
    method TakeRound(ghost left: nat, ghost goal: Outcome) returns (done: Option<Outcome>)
      requires stat == WaitSize && strHead <= |buf|
      requires EndsWithin(buf, strHead, decodedBody, maxBodySize, left, goal)
      modifies this`stat, this`strHead, this`nextSize, this`decodedBody
      ensures left > 0
      ensures done.Some? ==> done.value == goal && Holds(goal)
      ensures done.None? ==>
        stat == WaitSize && strHead <= |buf| && EndsWithin(buf, strHead, decodedBody, maxBodySize, left - 1, goal)
    {
      RoundsLeft(buf, strHead, decodedBody, maxBodySize, left, goal);
      var more := TakeSizeLine();
      if !more {
        return Some(Returned(stat, strHead, decodedBody));
      }
      SubstrIsAt(buf, strHead);
      if nextSize == 0 && |buf| >= strHead + 2 && Substr(buf, strHead, 2) == NL {
        stat := DecodeComplete;
        return Some(Returned(stat, strHead, decodedBody));
      }
      done := TakeData();
      if done == None && stat == ChunkError {
        return Some(Returned(stat, strHead, decodedBody));
      }
    }

    /** The first half of the loop body: moves the head past a complete size line. */
    method TakeSizeLine() returns (more: bool)
      requires stat == WaitSize && strHead <= |buf|
      modifies this`stat, this`strHead, this`nextSize
      ensures var line := old(ReadSizeLine(buf, strHead));
              && more == line.Sized?
              && stat == (if line.Sized? then WaitChunkedBody else if line.Malformed? then ChunkError else WaitSize)
              && strHead == (if line.Sized? then line.data else old(strHead))
              && (line.Sized? ==> nextSize == line.size)
    {
      var pos := FindNL(buf, strHead);
      if pos.None? {
        return false;
      }
      nextSize := StrToLong(buf[strHead..pos.value], Hex);
      if nextSize == -1 {
        stat := ChunkError;
        return false;
      }
      stat := WaitChunkedBody;
      strHead := pos.value + 2;
      return true;
    }

    /** The second half of the loop body: takes the data of a chunk that is not the last one. */
    method TakeData() returns (failure: Option<Outcome>)
      requires stat == WaitChunkedBody && strHead <= |buf| && LONG_MIN <= nextSize
      modifies this`stat, this`strHead, this`decodedBody
      ensures match old(DataRound(buf, strHead, nextSize, decodedBody, maxBodySize))
              case More(head, decoded) =>
                failure == None && stat == WaitSize && strHead == head && decodedBody == decoded
              case Done(o) =>
                if o.Returned? then failure == None && stat == ChunkError && o == Returned(stat, strHead, decodedBody)
                else failure == Some(o) && Holds(o)
    {
      decodedBody := decodedBody + Taken(buf, strHead, nextSize);
      if |decodedBody| > maxBodySize {
        return Some(PayloadTooLarge);
      }
      strHead := DataEnd(strHead, nextSize);
      stat := WaitSize;
      if |buf| + 2 >= strHead {
        if strHead > |buf| {
          return Some(OutOfRange(strHead, decodedBody));
        }
        SubstrIsAt(buf, strHead);
        if Substr(buf, strHead, 2) == NL {
          strHead := strHead + 2;
          return None;
        }
      }
      stat := ChunkError;
      return None;
    }
  }

  // ---------------------------------------------------------------------------------------------
  // What later input changes

  /** How a call comes to its end, as far as the buffer shows. */
  datatype Ending =
    | Over                                     // with the body complete, too large or wrong, whatever follows
    | InSizeLine(head: nat, decoded: string)   // in a size line that has no end yet
    | InData                                   // in the data of a chunk
    | InLineEnd(end: nat)                      // behind the data of a chunk, where less than CRLF has come
    | Backwards                                // after a negative size line, which takes all there is for data

  function EndingAt(buf: string, data: nat, size: nat, decoded: string, max: nat): Ending
    requires data <= |buf|
  {
    var end := data + size;
    if |decoded + Substr(buf, data, size)| > max then Over
    else if end > |buf| then InData
    else if end + 2 > |buf| then InLineEnd(end)
    else Over
  }

  /** Where the call is when it has gone over all of `buf`. */
  function EndingOf(buf: string, head: nat, decoded: string, max: nat): Ending
    requires head <= |buf|
    decreases |buf| - head
  {
    match ReadSizeLine(buf, head)
    case Incomplete => InSizeLine(head, decoded)
    case Malformed => Over
    case Sized(data, size) =>
      if size < 0 then Backwards
      else
        match NextRound(buf, head, decoded, max)
        case More(h, d) => GoesForward(buf, head, decoded, max); EndingOf(buf, h, d, max)
        case Done(_) => if EndsBody(buf, Sized(data, size)) then Over else EndingAt(buf, data, size, decoded, max)
  }

  lemma GoesForward(buf: string, head: nat, decoded: string, max: nat)
    requires head <= |buf| && ReadSizeLine(buf, head).Sized? && ReadSizeLine(buf, head).size >= 0
    ensures var r := NextRound(buf, head, decoded, max); r.More? ==> head < r.head
  {
  }

  lemma SizeLineExtends(a: string, b: string, head: nat)
    requires head <= |a| && !ReadSizeLine(a, head).Incomplete?
    ensures ReadSizeLine(a + b, head) == ReadSizeLine(a, head)
  {
    FindNLExtends(a, b, head);
    var pos := FindNL(a, head).value;
    assert (a + b)[head..pos] == a[head..pos];
  }

  /** A round that goes forward is not changed by what follows. */
  lemma RoundExtends(a: string, b: string, head: nat, decoded: string, max: nat)
    requires head <= |a| && NextRound(a, head, decoded, max).More? && ReadSizeLine(a, head).size >= 0
    ensures NextRound(a + b, head, decoded, max) == NextRound(a, head, decoded, max)
  {
    SizeLineExtends(a, b, head);
    var line := ReadSizeLine(a, head);
    SubstrExtends(a, b, line.data, line.size);
  }

  /** A decoder that has come to an incomplete size line waits there ... */
  lemma {:induction false} InSizeLineWaits(buf: string, head: nat, decoded: string, max: nat)
    requires head <= |buf| && EndingOf(buf, head, decoded, max).InSizeLine?
    ensures var e := EndingOf(buf, head, decoded, max);
            e.head <= |buf| && FindNL(buf, e.head) == None
            && Decode(buf, head, decoded, max) == Returned(WaitSize, e.head, e.decoded)
    decreases |buf| - head
  {
    if ReadSizeLine(buf, head).Incomplete? {
      DecodeEnds(buf, head, decoded, max, Returned(WaitSize, head, decoded));
    } else {
      var r := NextRound(buf, head, decoded, max);
      GoesForward(buf, head, decoded, max);
      InSizeLineWaits(buf, r.head, r.decoded, max);
      DecodeGoesOn(buf, head, decoded, max, r.head, r.decoded);
    }
  }

  /** ... and has lost nothing: more bytes give what one longer call gives. */
  lemma {:induction false} DecodeResumes(a: string, b: string, head: nat, decoded: string, max: nat)
    requires head <= |a| && EndingOf(a, head, decoded, max).InSizeLine?
    ensures var e := EndingOf(a, head, decoded, max);
            Decode(a + b, head, decoded, max) == Decode(a + b, e.head, e.decoded, max)
    decreases |a| - head
  {
    if !ReadSizeLine(a, head).Incomplete? {
      var r := NextRound(a, head, decoded, max);
      GoesForward(a, head, decoded, max);
      RoundExtends(a, b, head, decoded, max);
      DecodeResumes(a, b, r.head, r.decoded, max);
      DecodeGoesOn(a + b, head, decoded, max, r.head, r.decoded);
    }
  }

  predicate Waits(o: Outcome) {
    o.Returned? && o.stat == WaitSize
  }

  // A negative size line takes everything for data, so with more input more is decoded.

  function Size(o: Outcome): nat
    requires o.Returned? || o.OutOfRange?
  {
    |o.decoded|
  }

  /** The second round has decoded more than the first, or too much. */
  predicate Outgrown(first: Round, second: Round) {
    || second == Done(PayloadTooLarge)
    || match first
       case More(h, d) => second.More? && second.head == h && |second.decoded| > |d|
       case Done(o) =>
         && (o.Returned? || o.OutOfRange?)
         && (second.More? ==> |second.decoded| > Size(o))
         && (second.Done? && (second.outcome.Returned? || second.outcome.OutOfRange?) ==>
               Size(second.outcome) > Size(o))
  }

  lemma TakenGrows(a: string, b: string, data: nat, size: int)
    requires data <= |a|
    ensures |Taken(a + b, data, size)| >= |Taken(a, data, size)|
    ensures size < 0 ==> |Taken(a + b, data, size)| == |Taken(a, data, size)| + |b|
  {
  }

  lemma DataRoundOutgrows(a: string, b: string, data: nat, size: int, d: string, d': string, max: nat)
    requires data <= |a| && LONG_MIN <= size
    requires |d| < |d'| || (d == d' && size < 0 && b != "")
    ensures Outgrown(DataRound(a, data, size, d, max), DataRound(a + b, data, size, d', max))
  {
    TakenGrows(a, b, data, size);
  }

  /** A round never takes back what has been decoded. */
  lemma RoundGrows(buf: string, head: nat, d: string, max: nat)
    requires head <= |buf|
    ensures var r := NextRound(buf, head, d, max);
            && (r.More? ==> |r.decoded| >= |d|)
            && (r.Done? && (r.outcome.Returned? || r.outcome.OutOfRange?) ==> Size(r.outcome) >= |d|)
  {
  }

  lemma RoundOutgrows(a: string, b: string, head: nat, d: string, d': string, max: nat)
    requires head <= |a| && |d| <= max
    requires |d| < |d'| || (d == d' && ReadSizeLine(a, head).Sized? && ReadSizeLine(a, head).size < 0 && b != "")
    ensures Outgrown(NextRound(a, head, d, max), NextRound(a + b, head, d', max))
  {
    match ReadSizeLine(a, head)
    case Incomplete => RoundGrows(a + b, head, d', max);
    case Malformed => SizeLineExtends(a, b, head);
    case Sized(data, size) =>
      SizeLineExtends(a, b, head);
      RoundGrows(a + b, head, d', max);
      DataRoundOutgrows(a, b, data, size, d, d', max);
  }

  lemma ResultGrows(buf: string, r: Round, max: nat)
    requires r.More?
    ensures var o := Result(buf, max, r); o.Returned? || o.OutOfRange? ==> Size(o) >= |r.decoded|
  {
    var grown := (r': Round) => match r'
      case More(h, d) => |d| >= |r.decoded|
      case Done(o) => o.Returned? || o.OutOfRange? ==> Size(o) >= |r.decoded|;
    if n: nat :| After(buf, max, r, n).Done? {
      forall r' | grown(r') ensures grown(StepOf(buf, max)(r')) {
        if r'.More? && r'.head <= |buf| { RoundGrows(buf, r'.head, r'.decoded, max); }
      }
      IterateKeeps(StepOf(buf, max), grown, r, n);
      ResultIs(buf, max, r, n);
    }
  }

  lemma ResultOfDone(buf: string, max: nat, o: Outcome)
    ensures Result(buf, max, Done(o)) == o
  {
    assert After(buf, max, Done(o), 0) == Done(o);
    ResultIs(buf, max, Done(o), 0);
  }

  lemma NextResult(buf: string, max: nat, head: nat, decoded: string)
    requires head <= |buf|
    ensures Result(buf, max, More(head, decoded)) == Result(buf, max, NextRound(buf, head, decoded, max))
  {
    OneRound(buf, head, decoded, max);
    ResultAfter(buf, max, More(head, decoded), 1);
  }

  predicate InRange(buf: string, r: Round, max: nat) {
    r.More? ==> r.head <= |buf| && |r.decoded| <= max
  }

  lemma StepInRange(buf: string, head: nat, decoded: string, max: nat)
    requires head <= |buf|
    ensures InRange(buf, NextRound(buf, head, decoded, max), max)
  {
  }

  /** One round of each. */
  lemma BothStep(a: string, b: string, first: Round, second: Round, max: nat, n: nat)
    returns (first': Round, second': Round)
    requires InRange(a, first, max) && Outgrown(first, second) && first.More? && second.More? && n > 0
    ensures After(a, max, first, n) == After(a, max, first', n - 1)
    ensures InRange(a, first', max) && Outgrown(first', second')
    ensures first'.Done? && Waits(first'.outcome) ==>
      first.head == first'.outcome.head && first.decoded == first'.outcome.decoded
    ensures Result(a + b, max, second) == Result(a + b, max, second')
  {
    first', second' := NextRound(a, first.head, first.decoded, max), NextRound(a + b, second.head, second.decoded, max);
    StepIs(a, first.head, first.decoded, max);
    StepInRange(a, first.head, first.decoded, max);
    RoundOutgrows(a, b, first.head, first.decoded, second.decoded, max);
    NextResult(a + b, max, second.head, second.decoded);
  }

  lemma AfterDone(buf: string, max: nat, o: Outcome, n: nat)
    ensures After(buf, max, Done(o), n) == Done(o)
  {
    IterateFixed(StepOf(buf, max), Done(o), n);
  }

  /** The two calls come to different ends, unless the first finds too much; then so does the second. */
  lemma {:induction false} OutgrownDiffers(a: string, b: string, first: Round, second: Round, max: nat, n: nat)
    requires InRange(a, first, max) && Outgrown(first, second) && After(a, max, first, n).Done?
    ensures var o := After(a, max, first, n).outcome;
            Result(a + b, max, second) == o <==> o == PayloadTooLarge
    decreases n
  {
    var o := After(a, max, first, n).outcome;
    if second == Done(PayloadTooLarge) {
      ResultOfDone(a + b, max, PayloadTooLarge);
    } else if first.Done? {
      AfterDone(a, max, first.outcome, n);
      if second.Done? {
        ResultOfDone(a + b, max, second.outcome);
      } else {
        ResultGrows(a + b, second, max);
      }
    } else {
      var first', second' := BothStep(a, b, first, second, max, n);
      OutgrownDiffers(a, b, first', second', max, n - 1);
    }
  }

  lemma TrapTakesMore(a: string, b: string, head: nat, d: string, max: nat)
    requires Trap(a, head)
    ensures |d + b| > max ==> NextRound(a + b, head, d, max) == Done(PayloadTooLarge)
    ensures |d + b| <= max ==> NextRound(a + b, head, d, max) == More(head, d + b)
  {
    SizeLineExtends(a, b, head);
    assert (a + b)[|a|..] == b;
    assert AtNL(a + b, head - 2);
  }

  /** What was a trap is one no more: each time round, the new input is decoded again. */
  lemma {:induction false} TrapOpens(a: string, b: string, head: nat, d: string, max: nat)
    requires Trap(a, head) && b != ""
    ensures Result(a + b, max, More(head, d)) == PayloadTooLarge
    decreases if |d| > max then 0 else max - |d| + 1
  {
    TrapTakesMore(a, b, head, d, max);
    NextResult(a + b, max, head, d);
    if |d + b| > max {
      ResultOfDone(a + b, max, PayloadTooLarge);
    } else {
      TrapOpens(a, b, head, d + b, max);
    }
  }

  /** A trap the second call may run into is open. */
  ghost predicate Opens(T: nat -> bool, buf: string, max: nat) {
    forall h: nat, d | T(h) :: Result(buf, max, More(h, d)) == PayloadTooLarge
  }

  lemma TrapsOpen(a: string, b: string, max: nat)
    requires b != ""
    ensures Opens((h: nat) => Trap(a, h), a + b, max)
  {
    forall h: nat, d | Trap(a, h) ensures Result(a + b, max, More(h, d)) == PayloadTooLarge {
      TrapOpens(a, b, h, d, max);
    }
  }

  lemma {:induction false} OutgrownEnds(
    T: nat -> bool, a: string, b: string, first: Round, second: Round, max: nat, n: nat)
    requires InRange(a, first, max) && Outgrown(first, second) && Opens(T, a + b, max)
    requires After(a, max, first, n).More? && T(After(a, max, first, n).head)
    ensures Result(a + b, max, second) != Forever
    decreases n
  {
    if second == Done(PayloadTooLarge) {
      ResultOfDone(a + b, max, PayloadTooLarge);
    } else if first.Done? {
      AfterDone(a, max, first.outcome, n);
    } else if n > 0 {
      var first', second' := BothStep(a, b, first, second, max, n);
      OutgrownEnds(T, a, b, first', second', max, n - 1);
    }
  }

  /** Behind a negative size line, later input makes no difference only if there is too much already. */
  lemma BackwardsIff(a: string, b: string, head: nat, decoded: string, max: nat)
    requires head <= |a| && |decoded| <= max && b != ""
    requires ReadSizeLine(a, head).Sized? && ReadSizeLine(a, head).size < 0
    ensures Decode(a, head, decoded, max) == Decode(a + b, head, decoded, max)
       <==> Decode(a, head, decoded, max) == PayloadTooLarge
  {
    var first, second := NextRound(a, head, decoded, max), NextRound(a + b, head, decoded, max);
    RoundOutgrows(a, b, head, decoded, decoded, max);
    StepInRange(a, head, decoded, max);
    NextResult(a, max, head, decoded);
    NextResult(a + b, max, head, decoded);
    OutgrownResult(a, b, first, second, max);
  }

  lemma OutgrownResult(a: string, b: string, first: Round, second: Round, max: nat)
    requires InRange(a, first, max) && Outgrown(first, second) && b != ""
    ensures Result(a, max, first) == Result(a + b, max, second) <==> Result(a, max, first) == PayloadTooLarge
  {
    assert After(a, max, first, 0) == first;
    if n: nat :| After(a, max, first, n).Done? {
      ResultIs(a, max, first, n);
      OutgrownDiffers(a, b, first, second, max, n);
    } else {
      var T, n := TrapReached(a, b, first.head, first.decoded, max);
      OutgrownEnds(T, a, b, first, second, max, n);
    }
  }

  lemma TrapReached(a: string, b: string, head: nat, decoded: string, max: nat) returns (T: nat -> bool, n: nat)
    requires head <= |a| && |decoded| <= max && b != "" && Decode(a, head, decoded, max) == Forever
    ensures Opens(T, a + b, max)
    ensures After(a, max, More(head, decoded), n).More? && T(After(a, max, More(head, decoded), n).head)
  {
    TrapsOpen(a, b, max);
    ForeverIff(a, head, decoded, max);
    T := (h: nat) => Trap(a, h);
    n :| After(a, max, More(head, decoded), n).More? && Trap(a, After(a, max, More(head, decoded), n).head);
  }

  /** Whether the bytes `b` behind `a` leave the outcome of a call what it is. */
  ghost predicate Indifferent(a: string, b: string, ending: Ending, outcome: Outcome) {
    match ending
    case Over => true
    case InSizeLine(h, _) => FindNL(a + b, h) == None
    case InData => false
    case InLineEnd(end) => !AtNL(a + b, end)
    case Backwards => outcome == PayloadTooLarge
  }

  lemma SizeLineIff(a: string, b: string, head: nat, decoded: string, max: nat)
    requires head <= |a| && |decoded| <= max && FindNL(a, head) == None
    ensures Decode(a, head, decoded, max) == Decode(a + b, head, decoded, max) <==> FindNL(a + b, head) == None
  {
    var o := Returned(WaitSize, head, decoded);
    DecodeEnds(a, head, decoded, max, o);
    if FindNL(a + b, head) == None {
      DecodeEnds(a + b, head, decoded, max, o);
    } else {
      NormalReturn(a + b, head, decoded, max);
    }
  }

  lemma LineEndIff(a: string, b: string, head: nat, decoded: string, max: nat, end: nat)
    requires head <= |a| && |decoded| <= max && ReadSizeLine(a, head).Sized? && ReadSizeLine(a, head).size >= 0
    requires NextRound(a, head, decoded, max).Done?
    requires EndingOf(a, head, decoded, max) == InLineEnd(end)
    ensures Decode(a, head, decoded, max) == Decode(a + b, head, decoded, max) <==> !AtNL(a + b, end)
  {
    var data, size := ReadSizeLine(a, head).data, ReadSizeLine(a, head).size;
    var o := Returned(ChunkError, end, decoded + Substr(a, data, size));
    SizeLineExtends(a, b, head);
    SubstrExtends(a, b, data, size);
    DecodeEnds(a, head, decoded, max, o);
    if AtNL(a + b, end) {
      NormalReturn(a + b, head, decoded, max);
    } else {
      DecodeEnds(a + b, head, decoded, max, o);
    }
  }

  lemma InDataDiffers(a: string, b: string, head: nat, decoded: string, max: nat)
    requires head <= |a| && |decoded| <= max && ReadSizeLine(a, head).Sized? && ReadSizeLine(a, head).size >= 0
    requires NextRound(a, head, decoded, max).Done? && EndingOf(a, head, decoded, max) == InData && b != ""
    ensures Decode(a, head, decoded, max) != Decode(a + b, head, decoded, max)
  {
    var data, size := ReadSizeLine(a, head).data, ReadSizeLine(a, head).size;
    SizeLineExtends(a, b, head);
    assert |Substr(a + b, data, size)| > |Substr(a, data, size)|;
    var first, second := NextRound(a, head, decoded, max), NextRound(a + b, head, decoded, max);
    DecodeEnds(a, head, decoded, max, first.outcome);
    NextResult(a + b, max, head, decoded);
    assert Outgrown(first, second);
    assert After(a, max, first, 0) == first;
    OutgrownDiffers(a, b, first, second, max, 0);
  }

  lemma OverStays(a: string, b: string, head: nat, decoded: string, max: nat)
    requires head <= |a| && |decoded| <= max
    requires NextRound(a, head, decoded, max).Done? && EndingOf(a, head, decoded, max) == Over
    ensures NextRound(a + b, head, decoded, max) == NextRound(a, head, decoded, max)
  {
    SizeLineExtends(a, b, head);
    if ReadSizeLine(a, head).Sized? {
      var data, size := ReadSizeLine(a, head).data, ReadSizeLine(a, head).size;
      TakenGrows(a, b, data, size);
      if data + size <= |a| { SubstrExtends(a, b, data, size); }
    }
  }

  /**
   What comes behind `a` changes the outcome of a call exactly as the place allows in which `a` ends: not behind
   the end, always in the data of a chunk, and in a size line or a line end when it completes it.
   */
  lemma {:induction false} LaterInputIff(a: string, b: string, head: nat, decoded: string, max: nat)
    requires head <= |a| && |decoded| <= max && b != ""
    ensures Decode(a, head, decoded, max) == Decode(a + b, head, decoded, max)
       <==> Indifferent(a, b, EndingOf(a, head, decoded, max), Decode(a, head, decoded, max))
    decreases |a| - head
  {
    var line, r := ReadSizeLine(a, head), NextRound(a, head, decoded, max);
    var ending := EndingOf(a, head, decoded, max);
    if line.Incomplete? {
      SizeLineIff(a, b, head, decoded, max);
    } else if line.Sized? && line.size < 0 {
      BackwardsIff(a, b, head, decoded, max);
    } else if r.More? {
      GoesForward(a, head, decoded, max);
      RoundExtends(a, b, head, decoded, max);
      DecodeGoesOn(a, head, decoded, max, r.head, r.decoded);
      DecodeGoesOn(a + b, head, decoded, max, r.head, r.decoded);
      LaterInputIff(a, b, r.head, r.decoded, max);
    } else if ending.InData? {
      InDataDiffers(a, b, head, decoded, max);
    } else if ending.InLineEnd? {
      LineEndIff(a, b, head, decoded, max, ending.end);
    } else {
      OverStays(a, b, head, decoded, max);
      DecodeEnds(a, head, decoded, max, r.outcome);
      DecodeEnds(a + b, head, decoded, max, r.outcome);
    }
  }

  /** With more decoded at the same place, the outcome is another. */
  ghost predicate NoneLonger(buf: string, max: nat, head: nat, d: string, o: Outcome) {
    o != PayloadTooLarge && forall d' | |d'| > |d| :: Result(buf, max, More(head, d')) != o
  }

  /** After `n` rounds the first call waits, and the second is further on with the same buffer. */
  lemma {:induction false} OutgrownResumes(
    a: string, b: string, first: Round, second: Round, max: nat, n: nat, hw: nat, dw: string, o: Outcome)
    requires InRange(a, first, max) && first.More? && Outgrown(first, second)
    requires After(a, max, first, n) == Done(Returned(WaitSize, hw, dw))
    requires NoneLonger(a + b, max, hw, dw, o)
    ensures Result(a + b, max, second) != o
    decreases n
  {
    if second == Done(PayloadTooLarge) {
      ResultOfDone(a + b, max, PayloadTooLarge);
    } else {
      var first', second' := BothStep(a, b, first, second, max, n);
      if first'.Done? {
        AfterDone(a, max, first'.outcome, n - 1);
      } else {
        OutgrownResumes(a, b, first', second', max, n - 1, hw, dw, o);
      }
    }
  }

  lemma LongerDiffers(buf: string, head: nat, d: string, d': string, max: nat)
    requires head <= |buf| && |d| < |d'| && |d| <= max && Result(buf, max, More(head, d)).Returned?
    ensures Result(buf, max, More(head, d)) != Result(buf, max, More(head, d'))
  {
    var n := RoundsOf(buf, head, d, max);
    assert buf + "" == buf && Outgrown(More(head, d), More(head, d'));
    OutgrownDiffers(buf, "", More(head, d), More(head, d'), max, n);
  }

  /**
   A call that waits is resumed as if all had been there from the start exactly if it has met no negative size
   line on the way (as far as the resumed call returns).
   */
  lemma ResumesIff(a: string, b: string, head: nat, decoded: string, max: nat)
    requires head <= |a| && |decoded| <= max && b != "" && Waits(Decode(a, head, decoded, max))
    requires var o := Decode(a, head, decoded, max); Decode(a + b, o.head, o.decoded, max).Returned?
    ensures var o := Decode(a, head, decoded, max);
            Decode(a + b, head, decoded, max) == Decode(a + b, o.head, o.decoded, max)
            <==> EndingOf(a, head, decoded, max).InSizeLine?
  {
    if EndingOf(a, head, decoded, max).InSizeLine? {
      InSizeLineWaits(a, head, decoded, max);
      DecodeResumes(a, b, head, decoded, max);
    } else {
      BackwardsDiffers(a, b, head, decoded, max);
    }
  }

  lemma {:induction false} BackwardsDiffers(a: string, b: string, head: nat, decoded: string, max: nat)
    requires head <= |a| && |decoded| <= max && b != "" && Waits(Decode(a, head, decoded, max))
    requires !EndingOf(a, head, decoded, max).InSizeLine?
    requires var o := Decode(a, head, decoded, max); Decode(a + b, o.head, o.decoded, max).Returned?
    ensures var o := Decode(a, head, decoded, max);
            Decode(a + b, head, decoded, max) != Decode(a + b, o.head, o.decoded, max)
    decreases |a| - head
  {
    var line, r := ReadSizeLine(a, head), NextRound(a, head, decoded, max);
    if r.Done? {
      DecodeEnds(a, head, decoded, max, r.outcome);
    } else {
      DecodeGoesOn(a, head, decoded, max, r.head, r.decoded);
      if line.size < 0 {
        var o := Decode(a, head, decoded, max);
        var n := RoundsOf(a, r.head, r.decoded, max);
        RoundOutgrows(a, b, head, decoded, decoded, max);
        NextResult(a + b, max, head, decoded);
        NormalReturn(a, head, decoded, max);
        StepInRange(a, head, decoded, max);
        var resumed := Decode(a + b, o.head, o.decoded, max);
        forall d' | |d'| > |o.decoded| ensures Result(a + b, max, More(o.head, d')) != resumed {
          LongerDiffers(a + b, o.head, o.decoded, d', max);
        }
        OutgrownResumes(a, b, r, NextRound(a + b, head, decoded, max), max, n, o.head, o.decoded, resumed);
      } else {
        GoesForward(a, head, decoded, max);
        RoundExtends(a, b, head, decoded, max);
        DecodeGoesOn(a + b, head, decoded, max, r.head, r.decoded);
        BackwardsDiffers(a, b, r.head, r.decoded, max);
      }
    }
  }

  // ---------------------------------------------------------------------------------------------
  // Several calls

  /**
   The outcome of the last of several calls of one decoder; `None` if an earlier call ended otherwise
   than by waiting, after which there must not be another one.
   */
  ghost function DecodePieces(buf: string, head: nat, decoded: string, pieces: seq<string>, max: nat): Option<Outcome>
    requires pieces != []
    decreases pieces
  {
    var o := Decode(buf + pieces[0], head, decoded, max);
    if |pieces| == 1 then Some(o)
    else if Waits(o) then DecodePieces(buf + pieces[0], o.head, o.decoded, pieces[1..], max)
    else None
  }

  lemma SplitFirstPiece(buf: string, pieces: seq<string>, k: nat)
    requires k < |pieces|
    ensures buf + Concat(pieces[..k + 1]) == (buf + pieces[0]) + Concat(pieces[1..][..k])
  {
    assert pieces[..k + 1][0] == pieces[0] && pieces[..k + 1][1..] == pieces[1..][..k];
    Associative(buf, pieces[0], Concat(pieces[1..][..k]));
  }

  /** What is cut in two lines is cut in the second for a call that is resumed behind the first. */
  lemma {:induction false} EndingResumes(a: string, b: string, head: nat, decoded: string, max: nat)
    requires head <= |a| && EndingOf(a, head, decoded, max).InSizeLine?
    ensures var e := EndingOf(a, head, decoded, max);
            e.head <= |a| && EndingOf(a + b, head, decoded, max) == EndingOf(a + b, e.head, e.decoded, max)
    decreases |a| - head
  {
    if !ReadSizeLine(a, head).Incomplete? {
      var r := NextRound(a, head, decoded, max);
      GoesForward(a, head, decoded, max);
      RoundExtends(a, b, head, decoded, max);
      SizeLineExtends(a, b, head);
      EndingResumes(a, b, r.head, r.decoded, max);
    }
  }

  /** The pieces behind the first end in a size line as well. */
  lemma LaterPieces(buf: string, head: nat, decoded: string, pieces: seq<string>, max: nat, e: Ending)
    requires head <= |buf| && |pieces| > 1 && e == EndingOf(buf + pieces[0], head, decoded, max) && e.InSizeLine?
    requires forall k | 0 < k < |pieces| :: EndingOf(buf + Concat(pieces[..k]), head, decoded, max).InSizeLine?
    ensures e.head <= |buf + pieces[0]|
    ensures forall k | 0 < k < |pieces| - 1 ::
      EndingOf(buf + pieces[0] + Concat(pieces[1..][..k]), e.head, e.decoded, max).InSizeLine?
  {
    InSizeLineWaits(buf + pieces[0], head, decoded, max);
    forall k | 0 < k < |pieces| - 1
      ensures EndingOf(buf + pieces[0] + Concat(pieces[1..][..k]), e.head, e.decoded, max).InSizeLine?
    {
      SplitFirstPiece(buf, pieces, k);
      assert EndingOf(buf + Concat(pieces[..k + 1]), head, decoded, max).InSizeLine?;
      EndingResumes(buf + pieces[0], Concat(pieces[1..][..k]), head, decoded, max);
    }
  }

  lemma FirstAndOthers(buf: string, pieces: seq<string>)
    requires pieces != []
    ensures buf + Concat(pieces) == buf + pieces[0] + Concat(pieces[1..])
    ensures |pieces| == 1 ==> buf + Concat(pieces) == buf + pieces[0]
    ensures |pieces| > 1 ==> buf + Concat(pieces[..1]) == buf + pieces[0]
  {
    Associative(buf, pieces[0], Concat(pieces[1..]));
    if |pieces| > 1 {
      assert pieces[..1][1..] == [] && Concat(pieces[..1]) == pieces[0] + "";
    }
  }

  /** Cut as it may be, input whose earlier pieces all end in a size line is decoded like one piece. */
  lemma {:induction false} PiecesDecodeAsOne(buf: string, head: nat, decoded: string, pieces: seq<string>, max: nat)
    requires head <= |buf| && pieces != []
    requires forall k | 0 < k < |pieces| :: EndingOf(buf + Concat(pieces[..k]), head, decoded, max).InSizeLine?
    ensures DecodePieces(buf, head, decoded, pieces, max) == Some(Decode(buf + Concat(pieces), head, decoded, max))
    decreases pieces
  {
    FirstAndOthers(buf, pieces);
    if |pieces| > 1 {
      var e := EndingOf(buf + pieces[0], head, decoded, max);
      assert EndingOf(buf + Concat(pieces[..1]), head, decoded, max).InSizeLine?;
      InSizeLineWaits(buf + pieces[0], head, decoded, max);
      LaterPieces(buf, head, decoded, pieces, max, e);
      DecodeResumes(buf + pieces[0], Concat(pieces[1..]), head, decoded, max);
      PiecesDecodeAsOne(buf + pieces[0], e.head, e.decoded, pieces[1..], max);
    }
  }

  // ---------------------------------------------------------------------------------------------
  // Decoding what was framed

  /** A frame is its size, a line end, the data, and a line end. */
  ghost predicate HasParts(buf: string, head: nat, digits: string, data: string) {
    && Occurs(buf, digits, head) && AtNL(buf, head + |digits|)
    && Occurs(buf, data, head + |digits| + 2) && AtNL(buf, head + |digits| + 2 + |data|)
  }

  /** Digits and data that make a frame at `head`, which the limit has room for. */
  ghost predicate PartsFit(buf: string, head: nat, digits: string, data: string, decoded: string, max: nat) {
    && AllDigits(digits, Hex) && StrToLong(digits, Hex) == |data| && data != ""
    && HasParts(buf, head, digits, data) && |decoded + data| <= max
  }

  lemma LineParts(buf: string, head: nat, digits: string, data: string)
    requires Occurs(buf, digits + NL + data + NL, head)
    ensures HasParts(buf, head, digits, data)
  {
    OccursConcat(buf, digits + NL + data, NL, head);
    OccursConcat(buf, digits + NL, data, head);
    OccursConcat(buf, digits, NL, head);
    NLOccurs(buf, head + |digits|);
    NLOccurs(buf, head + |digits| + 2 + |data|);
  }

  lemma DigitsLine(buf: string, head: nat, digits: string, size: nat)
    requires AllDigits(digits, Hex) && StrToLong(digits, Hex) == size
    requires Occurs(buf, digits, head) && AtNL(buf, head + |digits|)
    ensures ReadSizeLine(buf, head) == Sized(head + |digits| + 2, size)
  {
    var pos := head + |digits|;
    forall i | head <= i < pos ensures !AtNL(buf, i) {
      assert buf[i] == buf[head..pos][i - head] == digits[i - head] && IsDigitOf(digits[i - head], Hex);
    }
    FindNLIsAt(buf, head, pos);
  }

  lemma ChunkRound(buf: string, head: nat, from: nat, data: string, decoded: string, max: nat)
    requires head <= |buf| && ReadSizeLine(buf, head) == Sized(from, |data|) && data != ""
    requires Occurs(buf, data, from) && AtNL(buf, from + |data|)
    ensures |decoded + data| <= max ==> NextRound(buf, head, decoded, max) == More(from + |data| + 2, decoded + data)
    ensures |decoded + data| > max ==> NextRound(buf, head, decoded, max) == Done(PayloadTooLarge)
  {
  }

  lemma PartsRound(buf: string, head: nat, digits: string, data: string, decoded: string, max: nat)
    requires AllDigits(digits, Hex) && StrToLong(digits, Hex) == |data| && data != ""
    requires HasParts(buf, head, digits, data)
    ensures head <= |buf| && ReadSizeLine(buf, head) == Sized(head + |digits| + 2, |data|)
    ensures |decoded + data| <= max ==>
      NextRound(buf, head, decoded, max) == More(head + |digits| + |data| + 4, decoded + data)
    ensures |decoded + data| > max ==> NextRound(buf, head, decoded, max) == Done(PayloadTooLarge)
  {
    DigitsLine(buf, head, digits, |data|);
    ChunkRound(buf, head, head + |digits| + 2, data, decoded, max);
  }

  lemma SpellingIsRead(line: string, n: nat)
    requires IsSpelling(line, n) && n <= LONG_MAX
    ensures AllDigits(line, Hex) && StrToLong(line, Hex) == n
  {
    StrToLongOfDigits(line, Hex);
  }

  /** The first of several frames ... */
  lemma FirstFrame(buf: string, head: nat, lines: seq<string>, chunks: seq<string>)
    requires Spell(lines, chunks) && Occurs(buf, Frames(lines, chunks), head)
    requires chunks != [] && |chunks[0]| <= LONG_MAX
    ensures HasParts(buf, head, lines[0], chunks[0])
    ensures AllDigits(lines[0], Hex) && StrToLong(lines[0], Hex) == |chunks[0]|
  {
    assert IsSpelling(lines[0], |chunks[0]|);
    SpellingIsRead(lines[0], |chunks[0]|);
    OccursConcat(buf, FrameAs(lines[0], chunks[0]), Frames(lines[1..], chunks[1..]), head);
    LineParts(buf, head, lines[0], chunks[0]);
  }

  /** ... and the others behind it. */
  lemma OtherFrames(buf: string, head: nat, lines: seq<string>, chunks: seq<string>)
    requires Spell(lines, chunks) && Occurs(buf, Frames(lines, chunks), head) && chunks != []
    ensures Spell(lines[1..], chunks[1..])
    ensures Occurs(buf, Frames(lines[1..], chunks[1..]), head + |lines[0]| + |chunks[0]| + 4)
    ensures |Frames(lines, chunks)| == |lines[0]| + |chunks[0]| + 4 + |Frames(lines[1..], chunks[1..])|
  {
    OccursConcat(buf, FrameAs(lines[0], chunks[0]), Frames(lines[1..], chunks[1..]), head);
    forall i | 0 <= i < |lines| - 1 ensures IsSpelling(lines[1..][i], |chunks[1..][i]|) {
      assert IsSpelling(lines[i + 1], |chunks[i + 1]|);
    }
  }

  lemma FirstChunk(decoded: string, chunks: seq<string>)
    requires chunks != []
    ensures decoded + Concat(chunks) == (decoded + chunks[0]) + Concat(chunks[1..])
    ensures |chunks[0]| <= |Concat(chunks)| && |Concat(chunks[1..])| <= |Concat(chunks)|
  {
    Associative(decoded, chunks[0], Concat(chunks[1..]));
  }

  /** One frame leaves `D` as it is. */
  ghost predicate KeptByParts<X(!new)>(D: (nat, string) -> X, buf: string, max: nat) {
    forall h: nat, n, c, d {:trigger PartsFit(buf, h, n, c, d, max)} |
      PartsFit(buf, h, n, c, d, max) :: D(h, d) == D(h + |n| + |c| + 4, d + c)
  }

  /** A round that takes a chunk leads from one size line to another. */
  ghost predicate Advances(buf: string, head: nat, decoded: string, max: nat, head': nat, decoded': string) {
    && head <= |buf| && ReadSizeLine(buf, head).Sized? && ReadSizeLine(buf, head).size >= 0
    && NextRound(buf, head, decoded, max) == More(head', decoded')
  }

  ghost predicate KeptByRounds<X(!new)>(D: (nat, string) -> X, buf: string, max: nat) {
    forall h: nat, d, h': nat, d' | Advances(buf, h, d, max, h', d') :: D(h, d) == D(h', d')
  }

  lemma PartsAreRounds<X(!new)>(D: (nat, string) -> X, buf: string, max: nat)
    requires KeptByRounds(D, buf, max)
    ensures KeptByParts(D, buf, max)
  {
    forall h: nat, n, c, d | PartsFit(buf, h, n, c, d, max) ensures D(h, d) == D(h + |n| + |c| + 4, d + c) {
      PartsRound(buf, h, n, c, d, max);
      assert Advances(buf, h, d, max, h + |n| + |c| + 4, d + c);
    }
  }

  lemma AlongFirst<X(!new)>(D: (nat, string) -> X, buf: string, head: nat, lines: seq<string>,
                            chunks: seq<string>, decoded: string, max: nat)
    requires Spell(lines, chunks) && Occurs(buf, Frames(lines, chunks), head)
    requires chunks != [] && chunks[0] != "" && |chunks[0]| <= LONG_MAX && |decoded + chunks[0]| <= max
    requires KeptByParts(D, buf, max)
    ensures D(head, decoded) == D(head + |lines[0]| + |chunks[0]| + 4, decoded + chunks[0])
  {
    FirstFrame(buf, head, lines, chunks);
    assert PartsFit(buf, head, lines[0], chunks[0], decoded, max);
  }

  /** So all frames do. */
  lemma {:induction false} AlongFrames<X(!new)>(D: (nat, string) -> X, buf: string, head: nat, lines: seq<string>,
                                                chunks: seq<string>, decoded: string, max: nat)
    requires Spell(lines, chunks) && Occurs(buf, Frames(lines, chunks), head)
    requires AllNonEmpty(chunks) && |Concat(chunks)| <= LONG_MAX && |decoded + Concat(chunks)| <= max
    requires KeptByParts(D, buf, max)
    ensures D(head, decoded) == D(head + |Frames(lines, chunks)|, decoded + Concat(chunks))
    decreases chunks
  {
    if chunks == [] {
      assert decoded + "" == decoded;
    } else {
      FirstChunk(decoded, chunks);
      OtherFrames(buf, head, lines, chunks);
      AlongFirst(D, buf, head, lines, chunks, decoded, max);
      AlongFrames(D, buf, head + |lines[0]| + |chunks[0]| + 4, lines[1..], chunks[1..], decoded + chunks[0], max);
    }
  }

  /** Digits and data that make a frame at `head`, which the limit has no room for. */
  ghost predicate PartsOverflow(buf: string, head: nat, digits: string, data: string, decoded: string, max: nat) {
    && AllDigits(digits, Hex) && StrToLong(digits, Hex) == |data| && data != ""
    && HasParts(buf, head, digits, data) && |decoded + data| > max
  }

  /** One frame that is too large makes `D` what `x` is. */
  ghost predicate EndedByParts<X(!new)>(D: (nat, string) -> X, x: X, buf: string, max: nat) {
    forall h: nat, n, c, d {:trigger PartsOverflow(buf, h, n, c, d, max)} |
      PartsOverflow(buf, h, n, c, d, max) :: D(h, d) == x
  }

  lemma {:induction false} AlongTooMany<X(!new)>(D: (nat, string) -> X, x: X, buf: string, head: nat,
                                                 lines: seq<string>, chunks: seq<string>, decoded: string, max: nat)
    requires Spell(lines, chunks) && Occurs(buf, Frames(lines, chunks), head)
    requires AllNonEmpty(chunks) && |Concat(chunks)| <= LONG_MAX && |decoded| <= max < |decoded + Concat(chunks)|
    requires KeptByParts(D, buf, max) && EndedByParts(D, x, buf, max)
    ensures D(head, decoded) == x
    decreases chunks
  {
    FirstChunk(decoded, chunks);
    if |decoded + chunks[0]| > max {
      FirstFrame(buf, head, lines, chunks);
      assert PartsOverflow(buf, head, lines[0], chunks[0], decoded, max);
    } else {
      OtherFrames(buf, head, lines, chunks);
      AlongFirst(D, buf, head, lines, chunks, decoded, max);
      AlongTooMany(D, x, buf, head + |lines[0]| + |chunks[0]| + 4, lines[1..], chunks[1..], decoded + chunks[0], max);
    }
  }

  ghost function DecodeOf(buf: string, max: nat): (nat, string) -> Outcome {
    (h: nat, d: string) => Decode(buf, h, d, max)
  }

  lemma DecodeOfIs(buf: string, max: nat, head: nat, decoded: string)
    ensures DecodeOf(buf, max)(head, decoded) == Decode(buf, head, decoded, max)
  {
  }

  function EndingFrom(buf: string, head: nat, decoded: string, max: nat): Ending {
    if head <= |buf| then EndingOf(buf, head, decoded, max) else Over
  }

  ghost function EndingFromOf(buf: string, max: nat): (nat, string) -> Ending {
    (h: nat, d: string) => EndingFrom(buf, h, d, max)
  }

  lemma EndingFromOfIs(buf: string, max: nat, head: nat, decoded: string)
    ensures EndingFromOf(buf, max)(head, decoded) == EndingFrom(buf, head, decoded, max)
  {
  }

  lemma GoesOn(buf: string, head: nat, decoded: string, max: nat, head': nat, decoded': string)
    requires Advances(buf, head, decoded, max, head', decoded')
    ensures DecodeOf(buf, max)(head, decoded) == DecodeOf(buf, max)(head', decoded')
    ensures EndingFromOf(buf, max)(head, decoded) == EndingFromOf(buf, max)(head', decoded')
  {
    DecodeGoesOn(buf, head, decoded, max, head', decoded');
  }

  lemma RoundsKeep(buf: string, max: nat)
    ensures KeptByRounds(DecodeOf(buf, max), buf, max) && KeptByRounds(EndingFromOf(buf, max), buf, max)
  {
    forall h: nat, d, h': nat, d' | Advances(buf, h, d, max, h', d')
      ensures DecodeOf(buf, max)(h, d) == DecodeOf(buf, max)(h', d')
      ensures EndingFromOf(buf, max)(h, d) == EndingFromOf(buf, max)(h', d')
    {
      GoesOn(buf, h, d, max, h', d');
    }
  }

  lemma PartsKeep(buf: string, max: nat)
    ensures KeptByParts(DecodeOf(buf, max), buf, max) && KeptByParts(EndingFromOf(buf, max), buf, max)
  {
    RoundsKeep(buf, max);
    PartsAreRounds(DecodeOf(buf, max), buf, max);
    PartsAreRounds(EndingFromOf(buf, max), buf, max);
  }

  lemma SameDecode(buf: string, max: nat, h: nat, d: string, h': nat, d': string)
    requires DecodeOf(buf, max)(h, d) == DecodeOf(buf, max)(h', d')
    ensures Decode(buf, h, d, max) == Decode(buf, h', d', max)
  {
    DecodeOfIs(buf, max, h, d);
    DecodeOfIs(buf, max, h', d');
  }

  /** Chunks are decoded to their concatenation, however their sizes are spelt, if it fits the maximal body size ... */
  lemma DecodeFrames(buf: string, head: nat, lines: seq<string>, chunks: seq<string>, decoded: string, max: nat)
    requires Spell(lines, chunks) && Occurs(buf, Frames(lines, chunks), head)
    requires AllNonEmpty(chunks) && |Concat(chunks)| <= LONG_MAX && |decoded + Concat(chunks)| <= max
    ensures Decode(buf, head, decoded, max)
         == Decode(buf, head + |Frames(lines, chunks)|, decoded + Concat(chunks), max)
  {
    PartsKeep(buf, max);
    AlongFrames(DecodeOf(buf, max), buf, head, lines, chunks, decoded, max);
    SameDecode(buf, max, head, decoded, head + |Frames(lines, chunks)|, decoded + Concat(chunks));
  }

  lemma SameEnding(buf: string, max: nat, h: nat, d: string, h': nat, d': string)
    requires EndingFromOf(buf, max)(h, d) == EndingFromOf(buf, max)(h', d')
    ensures EndingFrom(buf, h, d, max) == EndingFrom(buf, h', d', max)
  {
    EndingFromOfIs(buf, max, h, d);
    EndingFromOfIs(buf, max, h', d');
  }

  lemma OverflowEnds(buf: string, max: nat)
    ensures EndedByParts(DecodeOf(buf, max), PayloadTooLarge, buf, max)
  {
    forall h: nat, n, c, d | PartsOverflow(buf, h, n, c, d, max)
      ensures DecodeOf(buf, max)(h, d) == PayloadTooLarge
    {
      PartsRound(buf, h, n, c, d, max);
      DecodeEnds(buf, h, d, max, PayloadTooLarge);
    }
  }

  /** ... and are found too large otherwise. */
  lemma DecodeTooManyFrames(buf: string, head: nat, lines: seq<string>, chunks: seq<string>, decoded: string, max: nat)
    requires Spell(lines, chunks) && Occurs(buf, Frames(lines, chunks), head)
    requires AllNonEmpty(chunks) && |Concat(chunks)| <= LONG_MAX && |decoded| <= max < |decoded + Concat(chunks)|
    ensures Decode(buf, head, decoded, max) == PayloadTooLarge
  {
    PartsKeep(buf, max);
    OverflowEnds(buf, max);
    AlongTooMany(DecodeOf(buf, max), PayloadTooLarge, buf, head, lines, chunks, decoded, max);
    DecodeOfIs(buf, max, head, decoded);
  }

  lemma {:induction false} PrefixOfConcat(chunks: seq<string>, i: nat)
    requires i <= |chunks|
    ensures |Concat(chunks[..i])| <= |Concat(chunks)|
  {
    assert chunks == chunks[..i] + chunks[i..];
    ConcatAppend(chunks[..i], chunks[i..]);
  }

  /** The last chunk, for a line of zeros. */
  function LastChunk(zeros: string): string {
    zeros + NL + NL
  }

  /** What the decoder makes of the first `last` bytes of the last chunk, whose line has `n` zeros. */
  function LastChunkStat(n: nat, last: nat): DecodeStat {
    if last < n + 2 then WaitSize else if last < n + 4 then ChunkError else DecodeComplete
  }

  ghost predicate StartOfLastChunk(buf: string, head: nat, zeros: string, last: nat) {
    && IsSpelling(zeros, 0) && last <= |zeros| + 4 && head + last == |buf|
    && Occurs(buf, LastChunk(zeros)[..last], head)
  }

  lemma CharAt(buf: string, head: nat, zeros: string, last: nat, i: nat)
    requires StartOfLastChunk(buf, head, zeros, last) && i < last
    ensures buf[head + i] == if i < |zeros| then zeros[i] else NL[(i - |zeros|) % 2]
  {
    assert buf[head + i] == buf[head..head + last][i] == LastChunk(zeros)[i];
  }

  lemma LastChunkIsAwaited(buf: string, head: nat, zeros: string, last: nat)
    requires StartOfLastChunk(buf, head, zeros, last) && last < |zeros| + 2
    ensures ReadSizeLine(buf, head) == Incomplete
  {
    forall i | head <= i ensures !AtNL(buf, i) {
      if i + 1 < |buf| {
        CharAt(buf, head, zeros, last, i - head);
        CharAt(buf, head, zeros, last, i - head + 1);
        assert IsDigitOf(zeros[i - head], Hex);
      }
    }
    FindNLFails(buf, head);
  }

  lemma ZerosOccur(buf: string, head: nat, zeros: string, last: nat)
    requires StartOfLastChunk(buf, head, zeros, last) && last >= |zeros|
    ensures Occurs(buf, zeros, head)
  {
    forall i | 0 <= i < |zeros| ensures buf[head + i] == zeros[i] {
      CharAt(buf, head, zeros, last, i);
    }
  }

  lemma LineEndAt(buf: string, head: nat, zeros: string, last: nat, i: nat)
    requires StartOfLastChunk(buf, head, zeros, last) && (i == |zeros| || i == |zeros| + 2)
    ensures AtNL(buf, head + i) <==> i + 1 < last
  {
    if i + 1 < last {
      CharAt(buf, head, zeros, last, i);
      CharAt(buf, head, zeros, last, i + 1);
    }
  }

  lemma LastChunkSizeLine(buf: string, head: nat, zeros: string, last: nat)
    requires StartOfLastChunk(buf, head, zeros, last) && last >= |zeros| + 2
    ensures ReadSizeLine(buf, head) == Sized(head + |zeros| + 2, 0)
    ensures AtNL(buf, head + |zeros| + 2) <==> last == |zeros| + 4
  {
    SpellingIsRead(zeros, 0);
    ZerosOccur(buf, head, zeros, last);
    LineEndAt(buf, head, zeros, last, |zeros|);
    LineEndAt(buf, head, zeros, last, |zeros| + 2);
    DigitsLine(buf, head, zeros, 0);
  }

  lemma DecodeLastChunk(buf: string, head: nat, zeros: string, last: nat, decoded: string, max: nat)
    requires StartOfLastChunk(buf, head, zeros, last) && |decoded| <= max
    ensures Decode(buf, head, decoded, max) == Returned(
              LastChunkStat(|zeros|, last), if last < |zeros| + 2 then head else head + |zeros| + 2, decoded)
  {
    var n := |zeros|;
    if last < n + 2 {
      LastChunkIsAwaited(buf, head, zeros, last);
    } else {
      LastChunkSizeLine(buf, head, zeros, last);
      if last < n + 4 {
        assert decoded + Substr(buf, head + n + 2, 0) == decoded;
        assert NextRound(buf, head, decoded, max) == Done(Returned(ChunkError, head + n + 2, decoded));
      }
    }
    DecodeEnds(buf, head, decoded, max,
               Returned(LastChunkStat(n, last), if last < n + 2 then head else head + n + 2, decoded));
  }

  /** Frames of a body, however their sizes are spelt, and the first `last` bytes of the last chunk, in one call. */
  lemma DecodeSpelt(lines: seq<string>, chunks: seq<string>, zeros: string, last: nat, max: nat)
    requires Spell(lines, chunks) && IsSpelling(zeros, 0) && last <= |zeros| + 4
    requires AllNonEmpty(chunks) && |Concat(chunks)| <= LONG_MAX && |Concat(chunks)| <= max
    ensures var o := Decode(Frames(lines, chunks) + LastChunk(zeros)[..last], 0, "", max);
            o.Returned? && o.decoded == Concat(chunks) && o.stat == LastChunkStat(|zeros|, last)
  {
    var frames := Frames(lines, chunks);
    DecodeFramesBefore(lines, chunks, LastChunk(zeros)[..last], max);
    OccursBehind(frames, LastChunk(zeros)[..last]);
    DecodeLastChunk(frames + LastChunk(zeros)[..last], |frames|, zeros, last, Concat(chunks), max);
  }

  lemma LastChunkIsSpelt()
    ensures LastChunk("0") == LAST_CHUNK && IsSpelling("0", 0)
  {
    assert "0"[..0] == "" && Value("", Hex) == 0;
  }

  /** What the sender makes of them. */
  lemma DecodeEmitted(chunks: seq<string>, last: nat, max: nat)
    requires AllNonEmpty(chunks) && last <= |LAST_CHUNK| && |Concat(chunks)| <= LONG_MAX && |Concat(chunks)| <= max
    ensures var o := Decode(FrameAll(chunks) + LAST_CHUNK[..last], 0, "", max);
            o.Returned? && o.decoded == Concat(chunks) && o.stat == LastChunkStat(1, last)
  {
    PrintedSpell(chunks);
    LastChunkIsSpelt();
    DecodeSpelt(Printed(chunks), chunks, "0", last, max);
  }

  lemma DecodeFramesBefore(lines: seq<string>, chunks: seq<string>, t: string, max: nat)
    requires Spell(lines, chunks) && AllNonEmpty(chunks) && |Concat(chunks)| <= LONG_MAX && |Concat(chunks)| <= max
    ensures Decode(Frames(lines, chunks) + t, 0, "", max)
         == Decode(Frames(lines, chunks) + t, |Frames(lines, chunks)|, Concat(chunks), max)
  {
    FramesInFront(Frames(lines, chunks), t);
    FromNothing(Concat(chunks));
    DecodeFrames(Frames(lines, chunks) + t, 0, lines, chunks, "", max);
  }

  /** The beginning of a frame, without the last `missing` bytes of its data and all behind them. */
  ghost function CutFrame(line: string, data: string, missing: nat): string
    requires missing <= |data|
  {
    line + NL + data[..|data| - missing]
  }

  lemma LineAndPart(buf: string, head: nat, digits: string, size: nat, part: string)
    requires AllDigits(digits, Hex) && StrToLong(digits, Hex) == size
    requires Occurs(buf, digits + NL + part, head)
    ensures ReadSizeLine(buf, head) == Sized(head + |digits| + 2, size)
    ensures Occurs(buf, part, head + |digits| + 2)
  {
    OccursConcat(buf, digits + NL, part, head);
    OccursConcat(buf, digits, NL, head);
    NLOccurs(buf, head + |digits|);
    DigitsLine(buf, head, digits, size);
  }

  lemma CutRound(buf: string, head: nat, data: nat, size: nat, part: string, missing: nat, decoded: string, max: nat)
    requires head <= |buf| && ReadSizeLine(buf, head) == Sized(data, size) && 0 < missing && size == |part| + missing
    requires Occurs(buf, part, data) && data + |part| == |buf| && |decoded + part| <= max
    ensures NextRound(buf, head, decoded, max) == Done(
              if missing <= 2 then OutOfRange(|buf| + missing, decoded + part)
              else Returned(ChunkError, |buf| + missing, decoded + part))
  {
    assert Taken(buf, data, size) == part;
  }

  /**
   A body that has come to somewhere inside the data of a chunk: with one or two bytes of the data missing the
   decoder throws `std::out_of_range`, with more it reports an error.
   */
  lemma CutInData(lines: seq<string>, chunks: seq<string>, line: string, data: string, missing: nat, max: nat)
    requires Spell(lines, chunks) && IsSpelling(line, |data|)
    requires AllNonEmpty(chunks) && 0 < missing <= |data| && |Concat(chunks)| + |data| <= LONG_MAX
    requires |Concat(chunks)| + |data| - missing <= max
    ensures var buf := Frames(lines, chunks) + CutFrame(line, data, missing);
            var decoded := Concat(chunks) + data[..|data| - missing];
            Decode(buf, 0, "", max) == if missing <= 2 then OutOfRange(|buf| + missing, decoded)
                                       else Returned(ChunkError, |buf| + missing, decoded)
  {
    var frames := Frames(lines, chunks);
    DecodeFramesBefore(lines, chunks, CutFrame(line, data, missing), max);
    OccursBehind(frames, CutFrame(line, data, missing));
    SpellingIsRead(line, |data|);
    DecodeCut(frames + CutFrame(line, data, missing), |frames|, line, data[..|data| - missing], missing,
              Concat(chunks), max);
  }

  lemma DecodeCut(buf: string, head: nat, digits: string, part: string, missing: nat, decoded: string, max: nat)
    requires AllDigits(digits, Hex) && StrToLong(digits, Hex) == |part| + missing && 0 < missing
    requires Occurs(buf, digits + NL + part, head) && head + |digits + NL + part| == |buf| && |decoded + part| <= max
    ensures Decode(buf, head, decoded, max) == if missing <= 2 then OutOfRange(|buf| + missing, decoded + part)
                                               else Returned(ChunkError, |buf| + missing, decoded + part)
  {
    LineAndPart(buf, head, digits, |part| + missing, part);
    CutRound(buf, head, head + |digits| + 2, |part| + missing, part, missing, decoded, max);
    DecodeEnds(buf, head, decoded, max, if missing <= 2 then OutOfRange(|buf| + missing, decoded + part)
                                        else Returned(ChunkError, |buf| + missing, decoded + part));
  }

  lemma LineAt(buf: string, head: nat, line: string, rest: string)
    requires Occurs(buf, line + NL + rest, head) && head + |line| + 2 + |rest| == |buf|
    requires forall i :: 0 <= i ==> !AtNL(line, i)
    ensures var from, size := head + |line| + 2, StrToLong(line, Hex);
            ReadSizeLine(buf, head) == (if size == -1 then Malformed else Sized(from, size)) && buf[from..] == rest
  {
    OccursConcat(buf, line + NL, rest, head);
    OccursConcat(buf, line, NL, head);
    NLOccurs(buf, head + |line|);
    forall i | head <= i < head + |line| ensures !AtNL(buf, i) {
      NoNLInside(buf, head, line, i);
    }
    FindNLIsAt(buf, head, head + |line|);
  }

  lemma NoNLInside(buf: string, head: nat, line: string, i: nat)
    requires Occurs(buf, line, head) && head <= i < head + |line| && AtNL(buf, head + |line|) && !AtNL(line, i - head)
    ensures !AtNL(buf, i)
  {
    assert forall k | 0 <= k < |line| :: buf[head + k] == buf[head..head + |line|][k] == line[k];
  }

  lemma MalformedRound(buf: string, head: nat, decoded: string, max: nat)
    requires head <= |buf| && ReadSizeLine(buf, head) == Malformed
    ensures Decode(buf, head, decoded, max) == Returned(ChunkError, head, decoded)
  {
    DecodeEnds(buf, head, decoded, max, Returned(ChunkError, head, decoded));
  }

  lemma WrongEndRound(buf: string, head: nat, from: nat, data: string, decoded: string, max: nat)
    requires head <= |buf| && ReadSizeLine(buf, head) == Sized(from, |data|) && from + |data| <= |buf|
    requires Substr(buf, from, |data|) == data && !AtNL(buf, from + |data|) && |decoded + data| <= max
    ensures Decode(buf, head, decoded, max) == Returned(ChunkError, from + |data|, decoded + data)
  {
    DecodeEnds(buf, head, decoded, max, Returned(ChunkError, from + |data|, decoded + data));
  }

  lemma WrapsRound(buf: string, head: nat, from: nat, size: int, decoded: string, max: nat)
    requires head <= |buf| <= LONG_MAX && ReadSizeLine(buf, head) == Sized(from, size) && from + size < 0
    requires |decoded + buf[from..]| <= max
    ensures Decode(buf, head, decoded, max)
         == Returned(ChunkError, from + size + 0x1_0000_0000_0000_0000, decoded + buf[from..])
  {
    DecodeEnds(buf, head, decoded, max, Returned(ChunkError, from + size + SIZE_T, decoded + buf[from..]));
  }

  /** Behind any frames, a line that is no number, or that says -1, is an error. */
  lemma MalformedLineIsError(lines: seq<string>, chunks: seq<string>, line: string, rest: string, max: nat)
    requires Spell(lines, chunks) && AllNonEmpty(chunks) && |Concat(chunks)| <= LONG_MAX && |Concat(chunks)| <= max
    requires (forall i :: 0 <= i ==> !AtNL(line, i)) && StrToLong(line, Hex) == -1
    ensures Decode(Frames(lines, chunks) + (line + NL + rest), 0, "", max)
         == Returned(ChunkError, |Frames(lines, chunks)|, Concat(chunks))
  {
    var frames := Frames(lines, chunks);
    DecodeFramesBefore(lines, chunks, line + NL + rest, max);
    OccursBehind(frames, line + NL + rest);
    LineAt(frames + (line + NL + rest), |frames|, line, rest);
    MalformedRound(frames + (line + NL + rest), |frames|, Concat(chunks), max);
  }

  /** So is data, empty or not, with another end than CRLF. */
  lemma WrongLineEndIsError(
    lines: seq<string>, chunks: seq<string>, line: string, data: string, tail: string, max: nat)
    requires Spell(lines, chunks) && AllNonEmpty(chunks) && IsSpelling(line, |data|)
    requires |Concat(chunks)| + |data| <= LONG_MAX && |Concat(chunks)| + |data| <= max && !AtNL(tail, 0)
    ensures var frames := Frames(lines, chunks);
            Decode(frames + (line + NL + (data + tail)), 0, "", max)
            == Returned(ChunkError, |frames| + |line| + 2 + |data|, Concat(chunks) + data)
  {
    var frames := Frames(lines, chunks);
    var buf, from := frames + (line + NL + (data + tail)), |frames| + |line| + 2;
    DecodeFramesBefore(lines, chunks, line + NL + (data + tail), max);
    DigitsHaveNoNL(line);
    SpellingIsRead(line, |data|);
    OccursBehind(frames, line + NL + (data + tail));
    LineAt(buf, |frames|, line, data + tail);
    EndIsWrong(buf, from, data, tail);
    WrongEndRound(buf, |frames|, from, data, Concat(chunks), max);
  }

  lemma DigitsHaveNoNL(line: string)
    requires AllDigits(line, Hex)
    ensures forall i :: 0 <= i ==> !AtNL(line, i)
  {
    forall i | 0 <= i < |line| ensures line[i] != '\r' {
      assert IsDigitOf(line[i], Hex);
    }
  }

  lemma EndIsWrong(buf: string, from: nat, data: string, tail: string)
    requires from <= |buf| && buf[from..] == data + tail && !AtNL(tail, 0)
    ensures from + |data| <= |buf| && Substr(buf, from, |data|) == data && !AtNL(buf, from + |data|)
  {
    assert buf[from..][..|data|] == data && buf[from..][|data|..] == tail;
    assert forall i | 0 <= i < |tail| :: buf[from + |data| + i] == tail[i];
  }

  /** A negative size that leads in front of the buffer wraps around: all that is left is data, and an error. */
  lemma WrapsAround(lines: seq<string>, chunks: seq<string>, line: string, rest: string, max: nat)
    requires Spell(lines, chunks) && AllNonEmpty(chunks) && |Concat(chunks)| <= LONG_MAX
    requires |Concat(chunks) + rest| <= max && forall i :: 0 <= i ==> !AtNL(line, i)
    requires |Frames(lines, chunks) + (line + NL + rest)| <= LONG_MAX
    requires |Frames(lines, chunks)| + |line| + 2 + StrToLong(line, Hex) < 0
    ensures var from := |Frames(lines, chunks)| + |line| + 2;
            Decode(Frames(lines, chunks) + (line + NL + rest), 0, "", max)
            == Returned(ChunkError, from + StrToLong(line, Hex) + 0x1_0000_0000_0000_0000, Concat(chunks) + rest)
  {
    var frames := Frames(lines, chunks);
    var buf := frames + (line + NL + rest);
    DecodeFramesBefore(lines, chunks, line + NL + rest, max);
    OccursBehind(frames, line + NL + rest);
    LineAt(buf, |frames|, line, rest);
    WrapsRound(buf, |frames|, |frames| + |line| + 2, StrToLong(line, Hex), Concat(chunks), max);
  }

  lemma OccursBehind(frames: string, t: string)
    ensures Occurs(frames + t, t, |frames|)
  {
  }

  /** The shortest such input: three bytes of five. */
  lemma ShortBody(max: nat)
    requires max >= 3
    ensures Decode("5\r\nhel", 0, "", max) == OutOfRange(8, "hel")
  {
    assert "5"[..0] == "" && Value("", Hex) == 0 && IsSpelling("5", 5);
    assert CutFrame("5", "hello", 2) == "5\r\nhel";
    CutInData([], [], "5", "hello", 2, max);
    assert Frames([], []) + "5\r\nhel" == "5\r\nhel" && Concat([]) + "hel" == "hel";
  }

  lemma FramesBefore<X(!new)>(
    D: (nat, string) -> X, lines: seq<string>, chunks: seq<string>, t: string, max: nat)
    requires Spell(lines, chunks) && AllNonEmpty(chunks) && |Concat(chunks)| <= LONG_MAX && |Concat(chunks)| <= max
    requires KeptByParts(D, Frames(lines, chunks) + t, max)
    ensures D(0, "") == D(|Frames(lines, chunks)|, Concat(chunks))
  {
    FramesInFront(Frames(lines, chunks), t);
    FromNothing(Concat(chunks));
    AlongFrames(D, Frames(lines, chunks) + t, 0, lines, chunks, "", max);
  }

  lemma EndingFramesBefore(lines: seq<string>, chunks: seq<string>, t: string, max: nat)
    requires Spell(lines, chunks) && AllNonEmpty(chunks) && |Concat(chunks)| <= LONG_MAX && |Concat(chunks)| <= max
    ensures EndingFrom(Frames(lines, chunks) + t, 0, "", max)
         == EndingFrom(Frames(lines, chunks) + t, |Frames(lines, chunks)|, Concat(chunks), max)
  {
    var buf := Frames(lines, chunks) + t;
    PartsKeep(buf, max);
    FramesBefore(EndingFromOf(buf, max), lines, chunks, t, max);
    SameEnding(buf, max, 0, "", |Frames(lines, chunks)|, Concat(chunks));
  }

  lemma FromNothing(s: string)
    ensures "" + s == s
  {
  }

  lemma FramesInFront(frames: string, t: string)
    ensures Occurs(frames + t, frames, 0)
  {
  }

  /** `cut` ends inside the size line that follows the first `i` frames: the one of another chunk or of the last. */
  ghost predicate CutInSizeLine(lines: seq<string>, chunks: seq<string>, cut: string, i: nat, t: string)
    requires |lines| == |chunks|
  {
    i <= |chunks| && cut == Frames(lines[..i], chunks[..i]) + t && forall k | 0 <= k :: !AtNL(t, k)
  }

  lemma NoNLBehind(pre: string, t: string)
    requires forall k | 0 <= k :: !AtNL(t, k)
    ensures FindNL(pre + t, |pre|) == None
  {
    forall k | |pre| <= k ensures !AtNL(pre + t, k) {
      assert !AtNL(t, k - |pre|);
    }
    FindNLFails(pre + t, |pre|);
  }

  lemma FramesAndSizeLine(lines: seq<string>, chunks: seq<string>, t: string, max: nat)
    requires Spell(lines, chunks) && AllNonEmpty(chunks) && |Concat(chunks)| <= LONG_MAX && |Concat(chunks)| <= max
    requires forall k | 0 <= k :: !AtNL(t, k)
    ensures EndingOf(Frames(lines, chunks) + t, 0, "", max) == InSizeLine(|Frames(lines, chunks)|, Concat(chunks))
  {
    EndingFramesBefore(lines, chunks, t, max);
    NoNLBehind(Frames(lines, chunks), t);
    EndsInSizeLine(Frames(lines, chunks) + t, |Frames(lines, chunks)|, Concat(chunks), max);
  }

  lemma EndsInSizeLine(buf: string, head: nat, decoded: string, max: nat)
    requires head <= |buf| && FindNL(buf, head) == None
    ensures EndingFrom(buf, head, decoded, max) == InSizeLine(head, decoded)
  {
  }

  lemma FirstSpellings(lines: seq<string>, chunks: seq<string>, i: nat)
    requires Spell(lines, chunks) && i <= |chunks|
    ensures Spell(lines[..i], chunks[..i])
  {
    forall k | 0 <= k < i ensures IsSpelling(lines[..i][k], |chunks[..i][k]|) {
      assert IsSpelling(lines[k], |chunks[k]|);
    }
  }

  lemma CutInSizeLineWaits(lines: seq<string>, chunks: seq<string>, cut: string, i: nat, t: string, max: nat)
    requires Spell(lines, chunks) && AllNonEmpty(chunks) && |Concat(chunks)| <= LONG_MAX && |Concat(chunks)| <= max
    requires CutInSizeLine(lines, chunks, cut, i, t)
    ensures EndingOf(cut, 0, "", max) == InSizeLine(|cut| - |t|, Concat(chunks[..i]))
    ensures Decode(cut, 0, "", max) == Returned(WaitSize, |cut| - |t|, Concat(chunks[..i]))
  {
    PrefixOfConcat(chunks, i);
    FirstSpellings(lines, chunks, i);
    FramesAndSizeLine(lines[..i], chunks[..i], t, max);
    InSizeLineWaits(cut, 0, "", max);
  }

  lemma CutEndsInSizeLine(lines: seq<string>, chunks: seq<string>, cut: string, max: nat)
    requires Spell(lines, chunks) && AllNonEmpty(chunks) && |Concat(chunks)| <= LONG_MAX && |Concat(chunks)| <= max
    requires exists i, t :: CutInSizeLine(lines, chunks, cut, i, t)
    ensures EndingOf("" + cut, 0, "", max).InSizeLine?
  {
    var i, t :| CutInSizeLine(lines, chunks, cut, i, t);
    CutInSizeLineWaits(lines, chunks, cut, i, t, max);
    FromNothing(cut);
  }

  lemma DecodeWhole(lines: seq<string>, chunks: seq<string>, zeros: string, max: nat)
    requires Spell(lines, chunks) && IsSpelling(zeros, 0)
    requires AllNonEmpty(chunks) && |Concat(chunks)| <= LONG_MAX && |Concat(chunks)| <= max
    ensures var o := Decode(Frames(lines, chunks) + LastChunk(zeros), 0, "", max);
            o.Returned? && o.stat == DecodeComplete && o.decoded == Concat(chunks)
  {
    var n := |zeros| + 4;
    assert LastChunk(zeros)[..n] == LastChunk(zeros);
    DecodeSpelt(lines, chunks, zeros, n, max);
  }

  /** A well-formed chunked body in several calls, each earlier one ending in a size line, gives what one call gives. */
  lemma FramedPiecesDecode(lines: seq<string>, chunks: seq<string>, zeros: string, pieces: seq<string>, max: nat)
    requires Spell(lines, chunks) && IsSpelling(zeros, 0)
    requires AllNonEmpty(chunks) && |Concat(chunks)| <= LONG_MAX && |Concat(chunks)| <= max
    requires pieces != [] && Concat(pieces) == Frames(lines, chunks) + LastChunk(zeros)
    requires forall k | 0 < k < |pieces| :: exists i, t :: CutInSizeLine(lines, chunks, Concat(pieces[..k]), i, t)
    ensures DecodePieces("", 0, "", pieces, max) == Some(Decode(Concat(pieces), 0, "", max))
    ensures var o := Decode(Concat(pieces), 0, "", max);
            o.Returned? && o.stat == DecodeComplete && o.decoded == Concat(chunks)
  {
    forall k | 0 < k < |pieces| ensures EndingOf("" + Concat(pieces[..k]), 0, "", max).InSizeLine? {
      CutEndsInSizeLine(lines, chunks, Concat(pieces[..k]), max);
    }
    PiecesDecodeAsOne("", 0, "", pieces, max);
    FromNothing(Concat(pieces));
    DecodeWhole(lines, chunks, zeros, max);
  }
}
