/** Paths: splitting, normalisation, validity, and the choice of a location. */
module Paths {
  import opened Text

  // ---------------------------------------------------------------------------------------------
  // utils::SplitWithMultipleSpecifier

  /** The pieces finished and the piece begun after all of `s`. */
  function SplitState(s: string, seps: string): (seq<string>, string) {
    if s == "" then ([], "")
    else
      var (elements, item) := SplitState(s[..|s| - 1], seps);
      var c := s[|s| - 1];
      if c in seps then (Finished(elements, item), "") else (elements, item + [c])
  }

  function Finished(elements: seq<string>, item: string): seq<string> {
    if item == "" then elements else elements + [item]
  }

  /** The non-empty pieces of `s` between separators. */
  function Split(s: string, seps: string): seq<string> {
    var (elements, item) := SplitState(s, seps);
    Finished(elements, item)
  }

  method SplitWithMultipleSpecifier(s: string, seps: string) returns (elements: seq<string>)
    ensures elements == Split(s, seps)
  {
    elements := [];
    var item := "";
    for i := 0 to |s|
      invariant (elements, item) == SplitState(s[..i], seps)
    {
      assert s[..i + 1][..i] == s[..i];
      if s[i] in seps {
        if item != "" {
          elements := elements + [item];
        }
        item := "";
      } else {
        item := item + [s[i]];
      }
    }
    assert s[..|s|] == s;
    if item != "" {
      elements := elements + [item];
    }
  }

  lemma FinishedAppend(a: seq<string>, elements: seq<string>, item: string)
    ensures Finished(a + elements, item) == a + Finished(elements, item)
  {
  }

  lemma {:induction false} SplitStateAfter(a: string, c: char, b: string, seps: string)
    requires c in seps
    ensures SplitState(a + [c] + b, seps) == (Split(a, seps) + SplitState(b, seps).0, SplitState(b, seps).1)
  {
    var s := a + [c] + b;
    if b == "" {
      assert s[..|s| - 1] == a && s[|s| - 1] == c;
      assert Split(a, seps) + [] == Split(a, seps);
    } else {
      SplitStateAfter(a, c, b[..|b| - 1], seps);
      assert s[..|s| - 1] == a + [c] + b[..|b| - 1] && s[|s| - 1] == b[|b| - 1];
      var (elements, item) := SplitState(b[..|b| - 1], seps);
      FinishedAppend(Split(a, seps), elements, item);
    }
  }

  /** A separator splits what is before it from what is behind it. */
  lemma SplitAtSeparator(a: string, c: char, b: string, seps: string)
    requires c in seps
    ensures Split(a + [c] + b, seps) == Split(a, seps) + Split(b, seps)
  {
    SplitStateAfter(a, c, b, seps);
    FinishedAppend(Split(a, seps), SplitState(b, seps).0, SplitState(b, seps).1);
  }

  predicate NoneOf(s: string, seps: string) {
    forall i | 0 <= i < |s| :: s[i] !in seps
  }

  lemma {:induction false} SplitStateOfPiece(s: string, seps: string)
    requires NoneOf(s, seps)
    ensures SplitState(s, seps) == ([], s)
  {
    if s != "" {
      SplitStateOfPiece(s[..|s| - 1], seps);
      assert s == s[..|s| - 1] + [s[|s| - 1]];
    }
  }

  /** Pieces are not empty and contain no separator. */
  lemma {:induction false} PiecesAreClean(s: string, seps: string)
    ensures forall p <- Split(s, seps) :: p != "" && NoneOf(p, seps)
    ensures forall p <- SplitState(s, seps).0 :: p != "" && NoneOf(p, seps)
    ensures NoneOf(SplitState(s, seps).1, seps)
  {
    if s != "" {
      PiecesAreClean(s[..|s| - 1], seps);
    }
  }

  // ---------------------------------------------------------------------------------------------
  // Resolving "." and ".."

  /** The stack after the segments, or `None` if some ".." finds it empty. */
  function Resolve(stack: seq<string>, segments: seq<string>): Option<seq<string>>
    decreases segments
  {
    if segments == [] then Some(stack)
    else if segments[0] == "." then Resolve(stack, segments[1..])
    else if segments[0] == ".." then
      if stack == [] then None else Resolve(stack[..|stack| - 1], segments[1..])
    else Resolve(stack + [segments[0]], segments[1..])
  }

  lemma {:induction false} ResolveConcat(stack: seq<string>, a: seq<string>, b: seq<string>)
    ensures Resolve(stack, a + b) == match Resolve(stack, a) case None => None case Some(t) => Resolve(t, b)
    decreases a
  {
    if a == [] {
      assert a + b == b;
    } else {
      assert (a + b)[0] == a[0] && (a + b)[1..] == a[1..] + b;
      if a[0] == "." {
        ResolveConcat(stack, a[1..], b);
      } else if a[0] != ".." {
        ResolveConcat(stack + [a[0]], a[1..], b);
      } else if stack != [] {
        ResolveConcat(stack[..|stack| - 1], a[1..], b);
      }
    }
  }

  predicate IsPlain(segment: string) {
    segment != "" && NoneOf(segment, "/") && segment != "." && segment != ".."
  }

  predicate AllPlain(segments: seq<string>) {
    forall i | 0 <= i < |segments| :: IsPlain(segments[i])
  }

  lemma {:induction false} ResolvePlain(stack: seq<string>, segments: seq<string>)
    requires AllPlain(segments)
    ensures Resolve(stack, segments) == Some(stack + segments)
    decreases segments
  {
    if segments == [] {
      assert stack + segments == stack;
    } else {
      assert IsPlain(segments[0]);
      assert stack + segments == stack + [segments[0]] + segments[1..];
      ResolvePlain(stack + [segments[0]], segments[1..]);
    }
  }

  lemma {:induction false} ResolvedIsPlain(stack: seq<string>, segments: seq<string>)
    requires AllPlain(stack) && forall p <- segments :: p != "" && NoneOf(p, "/")
    ensures Resolve(stack, segments).Some? ==> AllPlain(Resolve(stack, segments).value)
    decreases segments
  {
    if segments != [] {
      assert segments[0] in segments && forall p <- segments[1..] :: p in segments;
      if segments[0] == "." {
        ResolvedIsPlain(stack, segments[1..]);
      } else if segments[0] != ".." {
        ResolvedIsPlain(stack + [segments[0]], segments[1..]);
      } else if stack != [] {
        ResolvedIsPlain(stack[..|stack| - 1], segments[1..]);
      }
    }
  }

  /** How deep the segments lead, counting ".." as a step up. */
  function Depth(segments: seq<string>): int {
    if segments == [] then 0
    else
      var last := segments[|segments| - 1];
      Depth(segments[..|segments| - 1]) + if last == "." then 0 else if last == ".." then -1 else 1
  }

  /** Segments can be resolved exactly if they never lead above where they start. */
  lemma {:induction false} ResolvableByDepth(segments: seq<string>)
    ensures Resolve([], segments).Some? <==> forall k | 0 <= k <= |segments| :: Depth(segments[..k]) >= 0
    ensures Resolve([], segments).Some? ==> |Resolve([], segments).value| == Depth(segments)
  {
    assert segments[..|segments|] == segments;
    if segments != [] {
      var n := |segments| - 1;
      ResolvableByDepth(segments[..n]);
      ResolveConcat([], segments[..n], [segments[n]]);
      assert segments == segments[..n] + [segments[n]];
      assert [segments[n]][1..] == [];
      assert forall k | 0 <= k <= n :: segments[..n][..k] == segments[..k];
    }
  }

  /** The depths along the way. */
  ghost function Depths(segments: seq<string>): seq<int> {
    seq(|segments| + 1, k requires 0 <= k <= |segments| => Depth(segments[..k]))
  }

  lemma FrontOfFront(segments: seq<string>, k: nat)
    requires k < |segments|
    ensures segments[..|segments| - 1][..k] == segments[..k]
  {
  }

  lemma SameSeq<T>(a: seq<T>, b: seq<T>)
    requires |a| == |b| && forall k | 0 <= k < |a| :: a[k] == b[k]
    ensures a == b
  {
  }

  lemma DepthsInFront(segments: seq<string>)
    requires segments != []
    ensures Depths(segments) == Depths(segments[..|segments| - 1]) + [Depth(segments)]
  {
    var n := |segments| - 1;
    var a, b := Depths(segments), Depths(segments[..n]) + [Depth(segments)];
    forall k | 0 <= k < |a| ensures a[k] == b[k] {
      if k <= n {
        FrontOfFront(segments, k);
      } else {
        assert segments[..k] == segments;
      }
    }
    SameSeq(a, b);
  }

  /** All values behind the `i`-th are greater. */
  ghost predicate StaysAbove(depths: seq<int>, i: nat) {
    i < |depths| && forall k | i < k < |depths| :: depths[k] > depths[i]
  }

  lemma OneMoreAbove(depths: seq<int>, i: nat, d: int)
    requires i < |depths|
    ensures StaysAbove(depths + [d], i) <==> StaysAbove(depths, i) && d > depths[i]
  {
    var longer := depths + [d];
    assert longer[|depths|] == d && forall k | 0 <= k < |depths| :: longer[k] == depths[k];
  }

  /** The segment `i` is a plain one, and from there on the segments never lead back to where it stands. */
  ghost predicate Lasts(segments: seq<string>, i: nat) {
    i < |segments| && segments[i] != "." && segments[i] != ".." && StaysAbove(Depths(segments), i)
  }

  predicate Increasing(s: seq<nat>) {
    |s| <= 1 || (s[|s| - 2] < s[|s| - 1] && Increasing(s[..|s| - 1]))
  }

  lemma IncreasesStill(s: seq<nat>, n: nat)
    requires Increasing(s)
    ensures s != [] ==> Increasing(s[..|s| - 1])
    ensures s == [] || s[|s| - 1] < n ==> Increasing(s + [n])
  {
    assert (s + [n])[..|s|] == s;
  }

  /** `left` are the places of all segments that last, in order, each as deep as there are others in front of it. */
  ghost predicate AllThatLast(segments: seq<string>, left: seq<nat>) {
    && (forall i :: i in left <==> Lasts(segments, i))
    && Increasing(left)
    && (forall j | 0 <= j < |left| :: left[j] < |segments| && Depth(segments[..left[j]]) == j)
  }

  ghost function At(segments: seq<string>, left: seq<nat>): seq<string>
    requires forall j | 0 <= j < |left| :: left[j] < |segments|
  {
    seq(|left|, j requires 0 <= j < |left| => segments[left[j]])
  }

  /** What is left of resolvable segments: those that last, in their order. */
  lemma {:induction false} WhatIsLeft(segments: seq<string>) returns (left: seq<nat>)
    requires Resolve([], segments).Some?
    ensures AllThatLast(segments, left) && Resolve([], segments) == Some(At(segments, left))
  {
    if segments == [] {
      left := [];
      assert At(segments, left) == [];
    } else {
      var n := |segments| - 1;
      var front, last := segments[..n], segments[n];
      assert segments == front + [last];
      ResolveConcat([], front, [last]);
      var before := WhatIsLeft(front);
      ResolvableByDepth(front);
      ResolveOne(At(front, before), last);
      left := if last == "." then before else if last == ".." then before[..|before| - 1] else before + [n];
      StepLasts(segments, before, left);
      StackStep(segments, before, left);
    }
  }

  lemma ResolveOne(stack: seq<string>, x: string)
    ensures Resolve(stack, [x]) ==
            if x == "." then Some(stack)
            else if x == ".." then (if stack == [] then None else Some(stack[..|stack| - 1]))
            else Some(stack + [x])
  {
    assert [x][1..] == [];
  }

  lemma StackStep(segments: seq<string>, before: seq<nat>, left: seq<nat>)
    requires segments != [] && forall j | 0 <= j < |before| :: before[j] < |segments| - 1
    requires forall j | 0 <= j < |left| :: left[j] < |segments|
    ensures var stack := At(segments[..|segments| - 1], before);
            && (left == before ==> At(segments, left) == stack)
            && (forall m | 0 <= m <= |before| && left == before[..m] :: At(segments, left) == stack[..m])
            && (left == before + [|segments| - 1] ==> At(segments, left) == stack + [segments[|segments| - 1]])
  {
  }

  /** What one segment more does to the places of those that last. */
  ghost predicate IsStep(segments: seq<string>, before: seq<nat>, left: seq<nat>) {
    && segments != [] && AllThatLast(segments[..|segments| - 1], before)
    && Depth(segments[..|segments| - 1]) == |before| && (segments[|segments| - 1] == ".." ==> before != [])
    && left == if segments[|segments| - 1] == "." then before
               else if segments[|segments| - 1] == ".." then before[..if before == [] then 0 else |before| - 1]
               else before + [|segments| - 1]
  }

  lemma PlaceInFront(segments: seq<string>, before: seq<nat>, left: seq<nat>, j: nat)
    requires IsStep(segments, before, left) && j < |before|
    ensures before[j] < |segments| - 1 && Lasts(segments[..|segments| - 1], before[j])
    ensures Depth(segments[..before[j]]) == j
  {
    assert before[j] in before;
    FrontOfFront(segments, before[j]);
  }

  lemma LastsByPlace(segments: seq<string>, before: seq<nat>, left: seq<nat>, j: nat)
    requires IsStep(segments, before, left) && j < |before|
    ensures Lasts(segments, before[j]) <==> j < Depth(segments)
  {
    PlaceInFront(segments, before, left, j);
    LastsInFront(segments, before[j]);
  }

  lemma OthersDoNotLast(segments: seq<string>, before: seq<nat>, left: seq<nat>, i: nat)
    requires IsStep(segments, before, left) && i !in before && i != |segments| - 1
    ensures !Lasts(segments, i) && i !in left
  {
    if i < |segments| - 1 {
      LastsInFront(segments, i);
    }
  }

  lemma NewestLasts(segments: seq<string>)
    requires segments != []
    ensures var n := |segments| - 1; Lasts(segments, n) <==> segments[n] != "." && segments[n] != ".."
  {
    var front := segments[..|segments| - 1];
    DepthsInFront(segments);
    assert Depths(segments)[|front|] == Depth(front);
  }

  lemma LastOne(segments: seq<string>, before: seq<nat>, left: seq<nat>)
    requires IsStep(segments, before, left)
    ensures |segments| - 1 !in before && Depth(segments) == |left|
  {
    forall j | 0 <= j < |before| ensures before[j] < |segments| - 1 {
      PlaceInFront(segments, before, left, j);
    }
  }

  lemma PlacesDiffer(segments: seq<string>, before: seq<nat>, left: seq<nat>, j: nat)
    requires IsStep(segments, before, left) && j < |before|
    ensures before[j] in left <==> j < |left|
  {
    LastOne(segments, before, left);
    PlaceInFront(segments, before, left, j);
    if k :| 0 <= k < |left| && k < |before| && left[k] == before[j] {
      PlaceInFront(segments, before, left, k);
    }
    assert j < |left| ==> left[j] == before[j];
  }

  lemma StepLastsAt(segments: seq<string>, before: seq<nat>, left: seq<nat>, i: nat)
    requires IsStep(segments, before, left)
    ensures i in left <==> Lasts(segments, i)
  {
    LastOne(segments, before, left);
    NewestLasts(segments);
    if i in before {
      var j :| 0 <= j < |before| && before[j] == i;
      LastsByPlace(segments, before, left, j);
      PlacesDiffer(segments, before, left, j);
    } else if i == |segments| - 1 {
      assert left == before + [i] ==> left[|before|] == i;
    } else {
      OthersDoNotLast(segments, before, left, i);
    }
  }

  lemma StepLasts(segments: seq<string>, before: seq<nat>, left: seq<nat>)
    requires IsStep(segments, before, left)
    ensures AllThatLast(segments, left)
  {
    var n := |segments| - 1;
    IncreasesStill(before, n);
    if before != [] { PlaceInFront(segments, before, left, |before| - 1); }
    forall i: nat ensures i in left <==> Lasts(segments, i) {
      StepLastsAt(segments, before, left, i);
    }
    forall j | 0 <= j < |left| ensures left[j] < |segments| && Depth(segments[..left[j]]) == j {
      if j < |before| { PlaceInFront(segments, before, left, j); }
    }
  }

  lemma LastsInFront(segments: seq<string>, i: nat)
    requires i < |segments| - 1
    ensures Lasts(segments, i) <==>
      Lasts(segments[..|segments| - 1], i) && Depth(segments) > Depth(segments[..i])
  {
    var front := segments[..|segments| - 1];
    DepthsInFront(segments);
    OneMoreAbove(Depths(front), i, Depth(segments));
    assert Depths(front)[i] == Depths(segments)[i];
  }

  /** `IsValidPath` */
  method IsValidPath(path: string) returns (ok: bool)
    ensures ok <==> Resolve([], Split(path, "/")).Some?
  {
    var v := SplitWithMultipleSpecifier(path, "/");
    var s: seq<string> := [];
    for i := 0 to |v|
      invariant Resolve(s, v[i..]) == Resolve([], v)
    {
      if v[i] == "." { continue; }
      if v[i] == ".." {
        if s == [] { return false; }
        s := s[..|s| - 1];
      } else {
        s := s + [v[i]];
      }
    }
    return true;
  }

  // ---------------------------------------------------------------------------------------------
  // Normalize

  predicate EndsWithSlash(path: string) {
    path != "" && path[|path| - 1] == '/'
  }

  function Join(segments: seq<string>, lastSlash: bool): string {
    if segments == [] then ""
    else if |segments| == 1 && !lastSlash then segments[0]
    else segments[0] + "/" + Join(segments[1..], lastSlash)
  }

  /** The normalised path, or `None` for the exception. */
  function Normalized(path: string): Option<string> {
    match Resolve([], Split(path, "/"))
    case None => None
    case Some(stack) => Some("/" + Join(stack, EndsWithSlash(path)))
  }

  method Normalize(path: string) returns (normal: Option<string>)
    ensures normal == Normalized(path)
  {
    var lastSlash := path != "" && path[|path| - 1] == '/';
    var v := SplitWithMultipleSpecifier(path, "/");
    var deque: seq<string> := [];
    var normalizePath := "/";
    for i := 0 to |v|
      invariant Resolve(deque, v[i..]) == Resolve([], v)
    {
      if v[i] == "." { continue; }
      if v[i] == ".." {
        if deque == [] { return None; }
        deque := deque[..|deque| - 1];
      } else {
        deque := deque + [v[i]];
      }
    }
    ghost var stack := deque;
    while deque != []
      invariant "/" + Join(stack, lastSlash) == normalizePath + Join(deque, lastSlash)
      decreases |deque|
    {
      var top := deque[0];
      deque := deque[1..];
      if deque == [] && !lastSlash {
        normalizePath := normalizePath + top;
      } else {
        normalizePath := normalizePath + (top + "/");
      }
    }
    assert normalizePath + "" == normalizePath;
    return Some(normalizePath);
  }

  /** Splitting undoes joining. */
  lemma {:induction false} SplitOfJoin(segments: seq<string>, lastSlash: bool)
    requires AllPlain(segments)
    ensures Split(Join(segments, lastSlash), "/") == segments
  {
    if segments != [] {
      assert IsPlain(segments[0]);
      SplitStateOfPiece(segments[0], "/");
      assert Split(segments[0], "/") == [segments[0]];
      if |segments| > 1 || lastSlash {
        SplitOfJoin(segments[1..], lastSlash);
        SplitAtSeparator(segments[0], '/', Join(segments[1..], lastSlash), "/");
        assert segments == [segments[0]] + segments[1..];
      }
    }
  }

  lemma {:induction false} JoinEnds(segments: seq<string>, lastSlash: bool)
    requires AllPlain(segments) && segments != []
    ensures Join(segments, lastSlash) != "" && (EndsWithSlash(Join(segments, lastSlash)) <==> lastSlash)
  {
    assert IsPlain(segments[0]);
    if |segments| > 1 {
      JoinEnds(segments[1..], lastSlash);
    } else if lastSlash {
      assert Join(segments[1..], lastSlash) == "";
    } else {
      var last := segments[0];
      assert last[|last| - 1] !in "/";
    }
  }

  /** What the segments of a normalised path are: the resolved ones, without empty, "." and ".." segments. */
  lemma SegmentsOfNormalized(path: string)
    requires Normalized(path).Some?
    ensures Resolve([], Split(path, "/")) == Some(Split(Normalized(path).value, "/"))
    ensures AllPlain(Split(Normalized(path).value, "/"))
    ensures EndsWithSlash(Normalized(path).value) <==> EndsWithSlash(path) || Split(Normalized(path).value, "/") == []
  {
    var stack := Resolve([], Split(path, "/")).value;
    var joined := Join(stack, EndsWithSlash(path));
    PiecesAreClean(path, "/");
    ResolvedIsPlain([], Split(path, "/"));
    SplitOfJoin(stack, EndsWithSlash(path));
    SplitAtSeparator("", '/', joined, "/");
    assert "" + ['/'] + joined == "/" + joined && Split("", "/") == [];
    assert [] + Split(joined, "/") == Split(joined, "/");
    if stack != [] {
      JoinEnds(stack, EndsWithSlash(path));
    }
  }

  lemma NormalizeIsIdempotent(path: string)
    requires Normalized(path).Some?
    ensures Normalized(Normalized(path).value) == Normalized(path)
  {
    SegmentsOfNormalized(path);
    var segments := Split(Normalized(path).value, "/");
    ResolvePlain([], segments);
    assert [] + segments == segments;
  }

  /** Normalising the first part of a path beforehand changes nothing, failures included. */
  lemma NormalizeInSteps(a: string, b: string)
    requires Normalized(a).Some?
    ensures Normalized(Normalized(a).value + "/" + b) == Normalized(a + "/" + b)
  {
    var n := Normalized(a).value;
    SegmentsOfNormalized(a);
    SplitAtSeparator(a, '/', b, "/");
    SplitAtSeparator(n, '/', b, "/");
    ResolveConcat([], Split(a, "/"), Split(b, "/"));
    ResolveConcat([], Split(n, "/"), Split(b, "/"));
    ResolvePlain([], Split(n, "/"));
    assert [] + Split(n, "/") == Split(n, "/");
    assert a + ['/'] + b == a + "/" + b && n + ['/'] + b == n + "/" + b;
    assert EndsWithSlash(n + "/" + b) == EndsWithSlash(a + "/" + b);
  }

  /** The segments of the normalised path are those of the path that last, in their order. */
  lemma NormalizedMeans(path: string) returns (left: seq<nat>)
    requires Normalized(path).Some?
    ensures AllThatLast(Split(path, "/"), left)
    ensures Split(Normalized(path).value, "/") == At(Split(path, "/"), left)
  {
    left := WhatIsLeft(Split(path, "/"));
    SegmentsOfNormalized(path);
  }

  lemma {:induction false} JoinedOnce(segments: seq<string>, lastSlash: bool)
    requires AllPlain(segments)
    ensures var joined := Join(segments, lastSlash);
            && (joined != "" ==> joined[0] != '/')
            && forall i | 0 <= i < |joined| - 1 :: !(joined[i] == '/' && joined[i + 1] == '/')
  {
    if segments != [] {
      assert IsPlain(segments[0]);
      var s, others := segments[0], Join(segments[1..], lastSlash);
      assert forall i | 0 <= i < |s| :: s[i] !in "/";
      JoinedOnce(segments[1..], lastSlash);
      var joined := Join(segments, lastSlash);
      forall i | 0 <= i < |joined| - 1 ensures !(joined[i] == '/' && joined[i + 1] == '/') {
        if i > |s| {
          assert joined[i] == others[i - |s| - 1] && joined[i + 1] == others[i - |s|];
        }
      }
    }
  }

  /** It starts with a slash, and no slash follows another. */
  lemma SlashesOfNormalized(path: string)
    requires Normalized(path).Some?
    ensures var normal := Normalized(path).value;
            && "/" <= normal
            && forall i | 0 <= i < |normal| - 1 :: !(normal[i] == '/' && normal[i + 1] == '/')
  {
    PiecesAreClean(path, "/");
    ResolvedIsPlain([], Split(path, "/"));
    var joined := Join(Resolve([], Split(path, "/")).value, EndsWithSlash(path));
    JoinedOnce(Resolve([], Split(path, "/")).value, EndsWithSlash(path));
    var normal := "/" + joined;
    forall i | 0 <= i < |normal| - 1 ensures !(normal[i] == '/' && normal[i + 1] == '/') {
      if i > 0 {
        assert normal[i] == joined[i - 1] && normal[i + 1] == joined[i];
      }
    }
  }

  lemma SplitBetween(a: string, x: string, b: string)
    requires x != "" && NoneOf(x, "/")
    ensures Split(a + "/" + x + "/" + b, "/") == Split(a, "/") + [x] + Split(b, "/")
  {
    SplitAtSeparator(a, '/', x + "/" + b, "/");
    SplitAtSeparator(x, '/', b, "/");
    SplitStateOfPiece(x, "/");
    assert a + ['/'] + (x + "/" + b) == a + "/" + x + "/" + b && x + ['/'] + b == x + "/" + b;
    assert Split(x, "/") == [x];
  }

  lemma {:induction false} ResolveDropped(stack: seq<string>, a: seq<string>, x: seq<string>, b: seq<string>)
    requires forall t :: Resolve(t, x) == Some(t)
    ensures Resolve(stack, a + x + b) == Resolve(stack, a + b)
  {
    ResolveConcat(stack, a + x, b);
    ResolveConcat(stack, a, x);
    ResolveConcat(stack, a, b);
  }

  lemma UpFromPlain(stack: seq<string>, x: string)
    requires IsPlain(x)
    ensures Resolve(stack, [x, ".."]) == Some(stack)
  {
    assert [x, ".."][1..] == [".."];
    ResolveOne(stack + [x], "..");
    assert (stack + [x])[..|stack|] == stack;
  }

  /** A plain segment and ".." behind it cancel, and "." might as well not be there. */
  lemma NormalizeCancels(a: string, x: string, b: string)
    requires IsPlain(x)
    ensures Normalized(a + "/" + x + "/../" + b) == Normalized(a + "/" + b)
    ensures Normalized(a + "/./" + b) == Normalized(a + "/" + b)
  {
    var up, here := a + "/" + x + "/../" + b, a + "/./" + b;
    SplitUp(a, x, b);
    SplitBetween(a, ".", b);
    SplitAtSeparator(a, '/', b, "/");
    forall t ensures Resolve(t, [x, ".."]) == Some(t) { UpFromPlain(t, x); }
    forall t ensures Resolve(t, ["."]) == Some(t) { ResolveOne(t, "."); }
    ResolveDropped([], Split(a, "/"), [x, ".."], Split(b, "/"));
    ResolveDropped([], Split(a, "/"), ["."], Split(b, "/"));
    assert a + ['/'] + b == a + "/" + b && a + "/" + "." + "/" + b == here;
    assert EndsWithSlash(up) == EndsWithSlash(a + "/" + b) && EndsWithSlash(here) == EndsWithSlash(a + "/" + b);
  }

  lemma SplitUp(a: string, x: string, b: string)
    requires IsPlain(x)
    ensures Split(a + "/" + x + "/../" + b, "/") == Split(a, "/") + [x, ".."] + Split(b, "/")
  {
    SplitBetween(a + "/" + x, "..", b);
    SplitAtSeparator(a, '/', x, "/");
    SplitStateOfPiece(x, "/");
    assert a + ['/'] + x == a + "/" + x && Split(x, "/") == [x];
    assert a + "/" + x + "/" + ".." + "/" + b == a + "/" + x + "/../" + b;
    assert Split(a, "/") + [x] + [".."] == Split(a, "/") + [x, ".."];
  }

  /** Normalisation succeeds exactly on paths that never lead above the root. */
  lemma NormalizesIffWithinRoot(path: string)
    ensures Normalized(path).Some? <==>
      forall k | 0 <= k <= |Split(path, "/")| :: Depth(Split(path, "/")[..k]) >= 0
  {
    ResolvableByDepth(Split(path, "/"));
  }

  // ---------------------------------------------------------------------------------------------
  // FindBestLocation

  /** `e` has the longest non-empty key that is a prefix of the request path. */
  ghost predicate IsBest<L>(locations: seq<(string, L)>, uri: string, e: (string, L)) {
    && e in locations && e.0 != "" && e.0 <= uri
    && forall other <- locations | other.0 <= uri :: |other.0| <= |e.0|
  }

  /** `locations` lists the entries of a map in some order; `None` stands for the exception. */
  method FindBestLocation<L>(locations: seq<(string, L)>, uri: string) returns (best: Option<(string, L)>)
    ensures best.Some? ==> IsBest(locations, uri, best.value)
    ensures best.None? <==> forall e <- locations :: e.0 == "" || !(e.0 <= uri)
  {
    best := None;
    for i := 0 to |locations|
      invariant best.Some? ==> IsBest(locations[..i], uri, best.value)
      invariant best.None? <==> forall e <- locations[..i] :: e.0 == "" || !(e.0 <= uri)
    {
      assert locations[..i + 1] == locations[..i] + [locations[i]];
      var key := locations[i].0;
      if |uri| >= |key| && key <= uri {
        if (if best.None? then 0 else |best.value.0|) < |key| {
          best := Some(locations[i]);
        }
      }
    }
    assert locations[..|locations|] == locations;
  }

  /** The choice does not depend on the order in which the entries are visited. */
  lemma BestIsUnique<L>(a: seq<(string, L)>, b: seq<(string, L)>, uri: string, e: (string, L), f: (string, L))
    requires forall x :: x in a <==> x in b
    requires forall x <- a, y <- a | x.0 == y.0 :: x == y
    requires IsBest(a, uri, e) && IsBest(b, uri, f)
    ensures e == f
  {
    assert |e.0| == |f.0|;
    assert e.0 == uri[..|e.0|] == f.0;
  }
}
