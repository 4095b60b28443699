/**
 Token windows over a text (corpus/textunits/token_chunker.go) and the validation of the
 TextUnits they become (corpus/corpus.go).

 A text is its byte length and the byte offsets at which its characters start, which for UTF-8
 are the sequence starts of section 3 of RFC 3629. A token is its byte length.
 */
module TokenChunker {
  import opened Wrappers
  import opened Sorting

  datatype Policy = Policy(size: int, overlap: int)

  predicate ValidPolicy(p: Policy) { p.size > 0 && 0 <= p.overlap < p.size }

  // A half-open range of tokens.
  datatype Span = Span(start: nat, end: nat)

  // ---------------------------------------------------------------------------------------
  // Windows over token positions; `boundary[i]` says whether a character boundary lies before
  // token i (or at the end of the text).

  function Min(a: int, b: int): int { if a < b then a else b }

  // The last boundary in (start, end], or `start` when there is none.
  function WindowEnd(boundary: seq<bool>, start: nat, end: nat): (r: nat)
    requires start <= end < |boundary|
    ensures start <= r <= end
    ensures r > start ==> boundary[r]
    ensures forall k :: r < k <= end ==> !boundary[k]
  {
    if end > start && !boundary[end] then WindowEnd(boundary, start, end - 1) else end
  }

  // The first boundary in [next, end), or `end` when there is none.
  function NextStart(boundary: seq<bool>, next: nat, end: nat): (r: nat)
    requires next <= end < |boundary|
    ensures next <= r <= end
    ensures r < end ==> boundary[r]
    ensures forall k :: next <= k < r ==> !boundary[k]
    decreases end - next
  {
    if next < end && !boundary[next] then NextStart(boundary, next + 1, end) else next
  }

  function EndFrom(boundary: seq<bool>, policy: Policy, start: nat): (end: nat)
    requires ValidPolicy(policy) && start < |boundary|
    ensures start <= end < |boundary|
  {
    WindowEnd(boundary, start, Min(start + policy.size, |boundary| - 1))
  }

  // Where the window after [start, end) begins: `overlap` tokens back, but always later than
  // `start`, and moved forward to a boundary.
  function StartAfter(boundary: seq<bool>, policy: Policy, start: nat, end: nat): (next: nat)
    requires ValidPolicy(policy) && start < end < |boundary|
    ensures start < next <= end
    ensures next < end ==> boundary[next]
  {
    NextStart(boundary, if end - policy.overlap <= start then start + 1 else end - policy.overlap, end)
  }

  // All windows from `start` on, or the token where no window can end.
  function Windows(boundary: seq<bool>, policy: Policy, start: nat): Result<seq<Span>, nat>
    requires ValidPolicy(policy) && start < |boundary| - 1
    decreases |boundary| - start
  {
    var end := EndFrom(boundary, policy, start);
    if end == start then Err(start)
    else if end == |boundary| - 1 then Ok([Span(start, end)])
    else
      match Windows(boundary, policy, StartAfter(boundary, policy, start, end))
      case Ok(rest) => Ok([Span(start, end)] + rest)
      case Err(at) => Err(at)
  }

  // Each window ends after it starts and within its size, on boundaries; each next window
  // starts later, leaves no gap, shares at most `overlap` tokens and does not end earlier.
  ghost predicate WellPlaced(boundary: seq<bool>, policy: Policy, spans: seq<Span>) {
    && (forall i :: 0 <= i < |spans| ==>
      && spans[i].start < spans[i].end < |boundary|
      && spans[i].end - spans[i].start <= policy.size
      && boundary[spans[i].start] && boundary[spans[i].end])
    && (forall i :: 0 <= i < |spans| - 1 ==> Follows(policy, spans[i], spans[i + 1]))
  }

  ghost predicate Follows(policy: Policy, a: Span, b: Span) {
    && a.start < b.start <= a.end <= b.end
    && a.end - b.start <= policy.overlap
  }

  // The spans cover the tokens from `start` to the last one.
  ghost predicate Covers(boundary: seq<bool>, policy: Policy, start: nat, spans: seq<Span>)
    requires ValidPolicy(policy) && start < |boundary|
  {
    && spans != [] && spans[0].start == start && spans[|spans| - 1].end == |boundary| - 1
    && spans[0].end == EndFrom(boundary, policy, start)
    && WellPlaced(boundary, policy, spans)
  }

  lemma CoverGrows(boundary: seq<bool>, policy: Policy, start: nat, rest: seq<Span>)
    requires ValidPolicy(policy) && start < |boundary| - 1 && boundary[start]
    requires start < EndFrom(boundary, policy, start) < |boundary| - 1
    requires Covers(boundary, policy, StartAfter(boundary, policy, start, EndFrom(boundary, policy, start)), rest)
    ensures Covers(boundary, policy, start, [Span(start, EndFrom(boundary, policy, start))] + rest)
  {
    var end := EndFrom(boundary, policy, start);
    var next := StartAfter(boundary, policy, start, end);
    var spans := [Span(start, end)] + rest;
    assert boundary[end] && end <= Min(next + policy.size, |boundary| - 1);
    assert rest[0].end >= end;
    forall i | 0 <= i < |spans| - 1 ensures Follows(policy, spans[i], spans[i + 1]) {
      if i > 0 { assert Follows(policy, rest[i - 1], rest[i - 1 + 1]); }
    }
  }

  lemma {:induction false} WindowsCover(boundary: seq<bool>, policy: Policy, start: nat)
    requires ValidPolicy(policy) && start < |boundary| - 1
    requires boundary[start] && boundary[|boundary| - 1]
    ensures Windows(boundary, policy, start).Ok? ==> Covers(boundary, policy, start, Windows(boundary, policy, start).value)
    decreases |boundary| - start
  {
    var end := EndFrom(boundary, policy, start);
    if start < end < |boundary| - 1 {
      var next := StartAfter(boundary, policy, start, end);
      WindowsCover(boundary, policy, next);
      if Windows(boundary, policy, next).Ok? {
        CoverGrows(boundary, policy, start, Windows(boundary, policy, next).value);
      }
    }
  }

  // A window ends at the last boundary within its size.
  ghost predicate EndsAtLastBoundary(boundary: seq<bool>, policy: Policy, s: Span) {
    && s.start < s.end < |boundary| && s.end <= s.start + policy.size && boundary[s.end]
    && forall k :: s.end < k < |boundary| && k <= s.start + policy.size ==> !boundary[k]
  }

  // The next window starts at the first boundary that is later than this one's start and shares
  // at most `overlap` tokens with it.
  ghost predicate StartsAtFirstBoundary(boundary: seq<bool>, policy: Policy, a: Span, b: Span) {
    && a.start < b.start <= a.end < |boundary| && a.end - policy.overlap <= b.start && boundary[b.start]
    && forall k :: a.start < k < b.start && a.end - policy.overlap <= k ==> !boundary[k]
  }

  // The windows from `start` to the last token, the last one being the first to reach it.
  ghost predicate ExactWindows(boundary: seq<bool>, policy: Policy, start: nat, spans: seq<Span>) {
    && spans != [] && spans[0].start == start
    && forall i :: 0 <= i < |spans| ==> ExactAt(boundary, policy, spans, i)
  }

  ghost predicate ExactAt(boundary: seq<bool>, policy: Policy, spans: seq<Span>, i: nat)
    requires i < |spans|
  {
    && EndsAtLastBoundary(boundary, policy, spans[i])
    && if i == |spans| - 1 then spans[i].end == |boundary| - 1
       else spans[i].end < |boundary| - 1 && StartsAtFirstBoundary(boundary, policy, spans[i], spans[i + 1])
  }

  lemma ExactWindowsGrow(boundary: seq<bool>, policy: Policy, first: Span, rest: seq<Span>)
    requires rest != [] && ExactWindows(boundary, policy, rest[0].start, rest)
    requires EndsAtLastBoundary(boundary, policy, first) && first.end < |boundary| - 1
    requires StartsAtFirstBoundary(boundary, policy, first, rest[0])
    ensures ExactWindows(boundary, policy, first.start, [first] + rest)
  {
    var spans := [first] + rest;
    forall i | 0 <= i < |spans| ensures ExactAt(boundary, policy, spans, i) {
      if i > 0 {
        assert ExactAt(boundary, policy, rest, i - 1);
        assert spans[i] == rest[i - 1] && (i < |spans| - 1 ==> spans[i + 1] == rest[i]);
      }
    }
  }

  lemma FirstWindow(boundary: seq<bool>, policy: Policy, start: nat)
    requires ValidPolicy(policy) && start < |boundary| - 1 && start < EndFrom(boundary, policy, start)
    ensures EndsAtLastBoundary(boundary, policy, Span(start, EndFrom(boundary, policy, start)))
  {
  }

  lemma NextWindow(boundary: seq<bool>, policy: Policy, start: nat, end: nat, next: Span)
    requires ValidPolicy(policy) && start < end < |boundary| && boundary[end]
    requires next.start == StartAfter(boundary, policy, start, end)
    ensures StartsAtFirstBoundary(boundary, policy, Span(start, end), next)
  {
  }

  lemma {:induction false} WindowsAreExact(boundary: seq<bool>, policy: Policy, start: nat)
    requires ValidPolicy(policy) && start < |boundary| - 1 && Windows(boundary, policy, start).Ok?
    ensures ExactWindows(boundary, policy, start, Windows(boundary, policy, start).value)
    decreases |boundary| - start
  {
    var end := EndFrom(boundary, policy, start);
    FirstWindow(boundary, policy, start);
    if end < |boundary| - 1 {
      var next := StartAfter(boundary, policy, start, end);
      WindowsAreExact(boundary, policy, next);
      var rest := Windows(boundary, policy, next).value;
      NextWindow(boundary, policy, start, end, rest[0]);
      ExactWindowsGrow(boundary, policy, Span(start, end), rest);
    }
  }

  lemma SameEnd(boundary: seq<bool>, policy: Policy, a: Span, b: Span)
    requires EndsAtLastBoundary(boundary, policy, a) && EndsAtLastBoundary(boundary, policy, b) && a.start == b.start
    ensures a == b
  {
  }

  lemma SameNextStart(boundary: seq<bool>, policy: Policy, from: Span, a: Span, b: Span)
    requires StartsAtFirstBoundary(boundary, policy, from, a) && StartsAtFirstBoundary(boundary, policy, from, b)
    ensures a.start == b.start
  {
  }

  // That leaves one list of windows only.
  lemma {:induction false} ExactWindowsAreUnique(
      boundary: seq<bool>, policy: Policy, start: nat, a: seq<Span>, b: seq<Span>, k: nat)
    requires ExactWindows(boundary, policy, start, a) && ExactWindows(boundary, policy, start, b) && k < |a|
    ensures k < |b| && a[k] == b[k]
    ensures k == |a| - 1 ==> |a| == |b|
  {
    if k == 0 {
    } else {
      ExactWindowsAreUnique(boundary, policy, start, a, b, k - 1);
      assert ExactAt(boundary, policy, a, k - 1) && ExactAt(boundary, policy, b, k - 1);
      SameNextStart(boundary, policy, a[k - 1], a[k], b[k]);
    }
    assert ExactAt(boundary, policy, a, k) && ExactAt(boundary, policy, b, k);
    SameEnd(boundary, policy, a[k], b[k]);
  }

  lemma {:induction false} StartsIncrease(policy: Policy, boundary: seq<bool>, spans: seq<Span>, i: nat, j: nat)
    requires WellPlaced(boundary, policy, spans) && i < j < |spans|
    ensures spans[i].start < spans[j].start && spans[i].end <= spans[j].end
  {
    assert Follows(policy, spans[j - 1], spans[j - 1 + 1]);
    if i < j - 1 { StartsIncrease(policy, boundary, spans, i, j - 1); }
  }

  // ---------------------------------------------------------------------------------------
  // When the windows fail.

  ghost predicate NoBoundary(boundary: seq<bool>, policy: Policy, start: nat)
    requires ValidPolicy(policy) && start < |boundary|
  {
    forall k :: start < k <= Min(start + policy.size, |boundary| - 1) ==> !boundary[k]
  }

  // `at` is the start of a window met when chunking from `start`.
  ghost predicate Reached(boundary: seq<bool>, policy: Policy, start: nat, at: nat)
    requires ValidPolicy(policy) && start < |boundary| - 1
    decreases |boundary| - start
  {
    at == start ||
    (var end := EndFrom(boundary, policy, start);
     start < end < |boundary| - 1 && Reached(boundary, policy, StartAfter(boundary, policy, start, end), at))
  }

  lemma {:induction false} ReachedIsLater(boundary: seq<bool>, policy: Policy, start: nat, at: nat)
    requires ValidPolicy(policy) && start < |boundary| - 1 && Reached(boundary, policy, start, at)
    ensures start <= at < |boundary| - 1
    decreases |boundary| - start
  {
    if at != start {
      var end := EndFrom(boundary, policy, start);
      ReachedIsLater(boundary, policy, StartAfter(boundary, policy, start, end), at);
    }
  }

  // Chunking fails at a token exactly when the window there is reached and holds no boundary.
  lemma {:induction false} FailsExactlyWithoutBoundary(boundary: seq<bool>, policy: Policy, start: nat, at: nat)
    requires ValidPolicy(policy) && start < |boundary| - 1
    ensures Windows(boundary, policy, start) == Err(at) <==>
      Reached(boundary, policy, start, at) && at < |boundary| && NoBoundary(boundary, policy, at)
    decreases |boundary| - start
  {
    var end := EndFrom(boundary, policy, start);
    if start < end < |boundary| - 1 {
      var next := StartAfter(boundary, policy, start, end);
      FailsExactlyWithoutBoundary(boundary, policy, next, at);
      if at == start {
        assert boundary[end];
        if Reached(boundary, policy, next, at) { ReachedIsLater(boundary, policy, next, at); }
      }
    } else if end == |boundary| - 1 && at == start {
      assert boundary[end];
    }
  }

  // ---------------------------------------------------------------------------------------
  // When every token ends on a boundary the windows are fixed strides.

  function Stride(policy: Policy): int { policy.size - policy.overlap }

  // One window, and one more for every started stride beyond it.
  function WindowCount(policy: Policy, tokens: nat): int
    requires ValidPolicy(policy)
  {
    if tokens <= policy.size then 1 else 1 + (tokens - policy.size + Stride(policy) - 1) / Stride(policy)
  }

  lemma CountStep(policy: Policy, tokens: nat)
    requires ValidPolicy(policy) && tokens > policy.size
    ensures WindowCount(policy, tokens) == 1 + WindowCount(policy, tokens - Stride(policy))
  {
    var stride := Stride(policy);
    var left := tokens - policy.size;
    if left <= stride {
      DivisionIs(left + stride - 1, stride, 1);
    } else {
      var q := (left - stride + stride - 1) / stride;
      DivisionIs(left + stride - 1, stride, q + 1);
    }
  }

  lemma {:induction false} MultiplesGrow(a: int, b: int, d: int)
    requires a < b && d > 0
    ensures a * d + d <= b * d
    decreases b - a
  {
    if b == a + 1 {
      assert b * d == a * d + d;
    } else {
      MultiplesGrow(a, b - 1, d);
      assert b * d == (b - 1) * d + d;
    }
  }

  lemma DivisionIs(x: int, d: int, q: int)
    requires d > 0 && q * d <= x < q * d + d
    ensures x / d == q
  {
    var p := x / d;
    QuotientBounds(x, d);
    if p < q {
      MultiplesGrow(p, q, d);
    } else if q < p {
      MultiplesGrow(q, p, d);
    }
  }

  lemma QuotientBounds(x: int, d: int)
    requires d > 0
    ensures (x / d) * d <= x < (x / d) * d + d
  {
    assert x == (x / d) * d + x % d;
  }

  ghost predicate IsStride(policy: Policy, start: nat, n: nat, spans: seq<Span>) {
    forall i :: 0 <= i < |spans| ==>
      spans[i].start == start + i * Stride(policy) && spans[i].end == Min(spans[i].start + policy.size, n)
  }

  lemma StrideGrows(policy: Policy, start: nat, n: nat, end: nat, rest: seq<Span>)
    requires ValidPolicy(policy)
    requires IsStride(policy, start + Stride(policy), n, rest) && end == Min(start + policy.size, n)
    ensures IsStride(policy, start, n, [Span(start, end)] + rest)
  {
    var all := [Span(start, end)] + rest;
    forall i | 0 <= i < |all| ensures all[i].start == start + i * Stride(policy) && all[i].end == Min(all[i].start + policy.size, n) {
      if i > 0 {
        assert all[i] == rest[i - 1];
        assert (i - 1) * Stride(policy) + Stride(policy) == i * Stride(policy);
      }
    }
  }

  lemma WindowAtBoundaries(boundary: seq<bool>, policy: Policy, start: nat)
    requires ValidPolicy(policy) && start < |boundary| - 1
    requires forall k :: 0 <= k < |boundary| ==> boundary[k]
    ensures
      var end := EndFrom(boundary, policy, start);
      && end == Min(start + policy.size, |boundary| - 1) > start
      && (end < |boundary| - 1 ==> StartAfter(boundary, policy, start, end) == start + Stride(policy) < |boundary| - 1)
  {
    assert boundary[Min(start + policy.size, |boundary| - 1)];
    var end := EndFrom(boundary, policy, start);
    if end < |boundary| - 1 { assert boundary[end - policy.overlap]; }
  }

  // The windows from `start` on, stride by stride.
  function Strides(policy: Policy, start: nat, n: nat): seq<Span>
    requires ValidPolicy(policy) && start <= n
    decreases n - start
  {
    if start + policy.size >= n then [Span(start, n)]
    else [Span(start, start + policy.size)] + Strides(policy, start + Stride(policy), n)
  }

  // One window, then the windows one stride later.
  ghost predicate StepsByStride(boundary: seq<bool>, policy: Policy, start: nat)
    requires ValidPolicy(policy) && start < |boundary| - 1
  {
    if start + policy.size >= |boundary| - 1 then Windows(boundary, policy, start) == Ok([Span(start, |boundary| - 1)])
    else
      && start + Stride(policy) < |boundary| - 1
      && Windows(boundary, policy, start) ==
        Prepend([Span(start, start + policy.size)], Windows(boundary, policy, start + Stride(policy)))
  }

  lemma WindowsStep(boundary: seq<bool>, policy: Policy, start: nat, end: nat)
    requires ValidPolicy(policy) && start < |boundary| - 1
    requires EndFrom(boundary, policy, start) == end == Min(start + policy.size, |boundary| - 1)
    requires end < |boundary| - 1 ==> StartAfter(boundary, policy, start, end) == start + Stride(policy) < |boundary| - 1
    ensures StepsByStride(boundary, policy, start)
  {
  }

  lemma {:induction false} StepsMakeStrides(boundary: seq<bool>, policy: Policy, start: nat)
    requires ValidPolicy(policy) && start < |boundary| - 1
    requires forall s: nat :: s < |boundary| - 1 ==> StepsByStride(boundary, policy, s)
    ensures Windows(boundary, policy, start) == Ok(Strides(policy, start, |boundary| - 1))
    decreases |boundary| - start
  {
    var n := |boundary| - 1;
    assert StepsByStride(boundary, policy, start);
    if start + policy.size >= n {
      assert Strides(policy, start, n) == [Span(start, n)];
    } else {
      var next := start + Stride(policy);
      StepsMakeStrides(boundary, policy, next);
      assert Strides(policy, start, n) == [Span(start, start + policy.size)] + Strides(policy, next, n);
    }
  }

  lemma WindowsAreStrides(boundary: seq<bool>, policy: Policy, start: nat)
    requires ValidPolicy(policy) && start < |boundary| - 1
    requires forall k :: 0 <= k < |boundary| ==> boundary[k]
    ensures Windows(boundary, policy, start) == Ok(Strides(policy, start, |boundary| - 1))
  {
    forall s: nat | s < |boundary| - 1 ensures StepsByStride(boundary, policy, s) {
      WindowAtBoundaries(boundary, policy, s);
      WindowsStep(boundary, policy, s, EndFrom(boundary, policy, s));
    }
    StepsMakeStrides(boundary, policy, start);
  }

  lemma {:induction false} StridesAddUp(policy: Policy, start: nat, n: nat)
    requires ValidPolicy(policy) && start <= n
    ensures |Strides(policy, start, n)| == WindowCount(policy, n - start)
    decreases n - start
  {
    if start + policy.size >= n {
    } else {
      StridesAddUp(policy, start + Stride(policy), n);
      CountStep(policy, n - start);
    }
  }

  lemma {:induction false} StridesLieApart(policy: Policy, start: nat, n: nat)
    requires ValidPolicy(policy) && start <= n
    ensures IsStride(policy, start, n, Strides(policy, start, n))
    decreases n - start
  {
    if start + policy.size >= n {
    } else {
      StridesLieApart(policy, start + Stride(policy), n);
      StrideGrows(policy, start, n, start + policy.size, Strides(policy, start + Stride(policy), n));
    }
  }

  // There are exactly `WindowCount` windows, and window i starts at i strides.
  lemma CountWhenAllBoundaries(boundary: seq<bool>, policy: Policy, start: nat)
    requires ValidPolicy(policy) && start < |boundary| - 1
    requires forall k :: 0 <= k < |boundary| ==> boundary[k]
    ensures Windows(boundary, policy, start).Ok?
    ensures |Windows(boundary, policy, start).value| == WindowCount(policy, |boundary| - 1 - start)
  {
    WindowsAreStrides(boundary, policy, start);
    StridesAddUp(policy, start, |boundary| - 1);
  }

  lemma StridesWhenAllBoundaries(boundary: seq<bool>, policy: Policy, start: nat)
    requires ValidPolicy(policy) && start < |boundary| - 1
    requires forall k :: 0 <= k < |boundary| ==> boundary[k]
    ensures Windows(boundary, policy, start).Ok?
    ensures IsStride(policy, start, |boundary| - 1, Windows(boundary, policy, start).value)
  {
    WindowsAreStrides(boundary, policy, start);
    StridesLieApart(policy, start, |boundary| - 1);
  }

  // ---------------------------------------------------------------------------------------
  // The chunker.

  datatype TextChunk = TextChunk(startByte: nat, endByte: nat, startChar: nat, endChar: nat)

  datatype ChunkError = InvalidPolicy | PiecesDoNotReconstruct | NoBoundaryFrom(token: nat)

  // Characters start in ascending order inside the text, the first one at its beginning.
  ghost predicate ValidText(length: nat, characters: seq<nat>) {
    && (forall i, j :: 0 <= i < j < |characters| ==> characters[i] < characters[j])
    && (forall i :: 0 <= i < |characters| ==> characters[i] < length)
    && (length > 0 ==> characters != [] && characters[0] == 0)
  }

  function Offset(tokens: seq<nat>, i: nat): nat
    requires i <= |tokens|
  {
    if i == 0 then 0 else Offset(tokens, i - 1) + tokens[i - 1]
  }

  // The character index of every boundary, the end of the text included.
  ghost predicate IndexesCharacters(length: nat, characters: seq<nat>, runeOffsets: map<nat, nat>) {
    && runeOffsets.Keys == (set c | c in characters) + {length}
    && (forall i :: 0 <= i < |characters| ==> runeOffsets[characters[i]] == i)
    && runeOffsets[length] == |characters|
  }

  ghost function Boundaries(length: nat, characters: seq<nat>, tokens: seq<nat>): seq<bool> {
    seq(|tokens| + 1, i requires 0 <= i < |tokens| + 1 =>
      Offset(tokens, i) in characters || Offset(tokens, i) == length)
  }

  ghost function CharIndex(length: nat, characters: seq<nat>, offset: nat): nat {
    if offset in characters then var i :| 0 <= i < |characters| && characters[i] == offset; i else |characters|
  }

  ghost function ToChunk(length: nat, characters: seq<nat>, tokens: seq<nat>, span: Span): TextChunk
    requires span.start <= |tokens| && span.end <= |tokens|
  {
    var a, b := Offset(tokens, span.start), Offset(tokens, span.end);
    TextChunk(a, b, CharIndex(length, characters, a), CharIndex(length, characters, b))
  }

  ghost predicate ChunksOf(length: nat, characters: seq<nat>, tokens: seq<nat>, spans: seq<Span>, chunks: seq<TextChunk>) {
    && |chunks| == |spans|
    && forall i :: 0 <= i < |spans| ==>
      && spans[i].start <= |tokens| && spans[i].end <= |tokens|
      && chunks[i] == ToChunk(length, characters, tokens, spans[i])
  }

  method IndexCharacters(length: nat, characters: seq<nat>) returns (runeOffsets: map<nat, nat>)
    requires ValidText(length, characters)
    ensures IndexesCharacters(length, characters, runeOffsets)
  {
    runeOffsets := map[];
    var runeIndex := 0;
    while runeIndex < |characters|
      invariant runeIndex <= |characters|
      invariant runeOffsets.Keys == set c | c in characters[..runeIndex]
      invariant forall i :: 0 <= i < runeIndex ==> characters[i] in runeOffsets && runeOffsets[characters[i]] == i
    {
      runeOffsets := runeOffsets[characters[runeIndex] := runeIndex];
      PrefixGrows(characters, runeIndex);
      runeIndex := runeIndex + 1;
    }
    assert characters[..runeIndex] == characters;
    runeOffsets := runeOffsets[length := |characters|];
  }

  method ByteOffsets(tokens: seq<nat>) returns (offsets: seq<nat>)
    ensures |offsets| == |tokens| + 1 && offsets[0] == 0
    ensures forall i :: 0 <= i < |tokens| ==> offsets[i + 1] == offsets[i] + tokens[i]
    ensures |offsets| == |tokens| + 1 && forall i :: 0 <= i <= |tokens| ==> offsets[i] == Offset(tokens, i)
  {
    offsets := [0];
    for index := 0 to |tokens|
      invariant |offsets| == index + 1 && forall i :: 0 <= i <= index ==> offsets[i] == Offset(tokens, i)
    {
      offsets := offsets + [offsets[index] + tokens[index]];
    }
  }

  lemma LooksUp(length: nat, characters: seq<nat>, runeOffsets: map<nat, nat>, offset: nat)
    requires ValidText(length, characters) && IndexesCharacters(length, characters, runeOffsets)
    ensures offset in runeOffsets <==> offset in characters || offset == length
    ensures offset in runeOffsets ==> runeOffsets[offset] == CharIndex(length, characters, offset)
  {
  }

  // Character `index` starts at that byte, the end of the text counting as one more.
  ghost predicate StartsAt(length: nat, characters: seq<nat>, byte: nat, index: nat) {
    index <= |characters| && byte == if index < |characters| then characters[index] else length
  }

  // A chunk runs from the first byte of the window's first token to the end of its last one.
  ghost predicate IsChunkOf(length: nat, characters: seq<nat>, tokens: seq<nat>, s: Span, chunk: TextChunk) {
    && s.start <= s.end <= |tokens|
    && chunk.startByte == Offset(tokens, s.start) && chunk.endByte == Offset(tokens, s.end)
    && StartsAt(length, characters, chunk.startByte, chunk.startChar)
    && StartsAt(length, characters, chunk.endByte, chunk.endChar)
  }

  lemma ChunksAreOf(
      length: nat, characters: seq<nat>, tokens: seq<nat>, policy: Policy, spans: seq<Span>, chunks: seq<TextChunk>)
    requires ValidText(length, characters) && ValidPolicy(policy) && tokens != [] && Offset(tokens, |tokens|) == length
    requires Windows(Boundaries(length, characters, tokens), policy, 0) == Ok(spans)
    requires ChunksOf(length, characters, tokens, spans, chunks)
    ensures ExactWindows(Boundaries(length, characters, tokens), policy, 0, spans)
    ensures forall i :: 0 <= i < |spans| ==> IsChunkOf(length, characters, tokens, spans[i], chunks[i])
  {
    var boundary := Boundaries(length, characters, tokens);
    WindowsAreExact(boundary, policy, 0);
    TextEndsAreBoundaries(length, characters, tokens);
    WindowsCover(boundary, policy, 0);
    forall i | 0 <= i < |spans| ensures IsChunkOf(length, characters, tokens, spans[i], chunks[i]) {
      BoundaryOffsets(length, characters, tokens, spans[i].start);
      BoundaryOffsets(length, characters, tokens, spans[i].end);
      assert chunks[i] == ToChunk(length, characters, tokens, spans[i]);
    }
  }

  // Chunk refines the windows: it returns their byte and character ranges, or names the token
  // whose window holds no boundary. The check that a window starts on a boundary never fires.
  method Chunk(length: nat, characters: seq<nat>, tokens: seq<nat>, policy: Policy)
    returns (result: Result<seq<TextChunk>, ChunkError>, ghost spans: seq<Span>)
    requires ValidText(length, characters)
    ensures !ValidPolicy(policy) ==> result == Err(InvalidPolicy)
    ensures ValidPolicy(policy) && tokens == [] ==> result == Ok([])
    ensures ValidPolicy(policy) && tokens != [] && Offset(tokens, |tokens|) != length ==> result == Err(PiecesDoNotReconstruct)
    ensures ValidPolicy(policy) && tokens != [] && Offset(tokens, |tokens|) == length ==>
      match Windows(Boundaries(length, characters, tokens), policy, 0)
      case Ok(windows) => spans == windows && result.Ok? && ChunksOf(length, characters, tokens, spans, result.value)
      case Err(at) => result == Err(NoBoundaryFrom(at))
    ensures result.Ok? && tokens != [] ==>
      && ExactWindows(Boundaries(length, characters, tokens), policy, 0, spans) && |result.value| == |spans|
      && forall i :: 0 <= i < |spans| ==> IsChunkOf(length, characters, tokens, spans[i], result.value[i])
  {
    spans := [];
    if policy.size <= 0 || policy.overlap < 0 || policy.overlap >= policy.size { return Err(InvalidPolicy), spans; }
    if tokens == [] { return Ok([]), spans; }
    var byteOffsets := ByteOffsets(tokens);
    if byteOffsets[|tokens|] != length { return Err(PiecesDoNotReconstruct), spans; }
    var runeOffsets := IndexCharacters(length, characters);
    TablesAgree(length, characters, tokens, byteOffsets, runeOffsets);
    result, spans := ChunkWindows(
      length, characters, tokens, byteOffsets, runeOffsets, policy, Boundaries(length, characters, tokens));
    if result.Ok? { ChunksAreOf(length, characters, tokens, policy, spans, result.value); }
  }

  // What the two lookup tables mean, token by token.
  ghost predicate Tabulated(
    length: nat, characters: seq<nat>, tokens: seq<nat>, byteOffsets: seq<nat>, runeOffsets: map<nat, nat>, boundary: seq<bool>)
  {
    && |byteOffsets| == |boundary| == |tokens| + 1
    && forall i :: 0 <= i <= |tokens| ==>
      && byteOffsets[i] == Offset(tokens, i)
      && (boundary[i] <==> byteOffsets[i] in runeOffsets)
      && (boundary[i] ==> runeOffsets[byteOffsets[i]] == CharIndex(length, characters, byteOffsets[i]))
  }

  lemma TablesAgree(length: nat, characters: seq<nat>, tokens: seq<nat>, byteOffsets: seq<nat>, runeOffsets: map<nat, nat>)
    requires ValidText(length, characters) && IndexesCharacters(length, characters, runeOffsets)
    requires |byteOffsets| == |tokens| + 1 && forall i :: 0 <= i <= |tokens| ==> byteOffsets[i] == Offset(tokens, i)
    requires byteOffsets[|tokens|] == length
    ensures Tabulated(length, characters, tokens, byteOffsets, runeOffsets, Boundaries(length, characters, tokens))
    ensures Boundaries(length, characters, tokens)[0] && Boundaries(length, characters, tokens)[|tokens|]
  {
    forall i | 0 <= i <= |tokens| ensures
        var boundary := Boundaries(length, characters, tokens);
        && (boundary[i] <==> byteOffsets[i] in runeOffsets)
        && (boundary[i] ==> runeOffsets[byteOffsets[i]] == CharIndex(length, characters, byteOffsets[i]))
    {
      LooksUp(length, characters, runeOffsets, byteOffsets[i]);
    }
  }

  // Moves a window's end back to the last boundary.
  method FindEnd(byteOffsets: seq<nat>, runeOffsets: map<nat, nat>, policy: Policy, start: nat, ghost boundary: seq<bool>)
    returns (end: nat)
    requires ValidPolicy(policy) && start < |boundary| == |byteOffsets|
    requires forall i :: 0 <= i < |boundary| ==> (boundary[i] <==> byteOffsets[i] in runeOffsets)
    ensures end == EndFrom(boundary, policy, start)
  {
    end := Min(start + policy.size, |byteOffsets| - 1);
    while end > start && byteOffsets[end] !in runeOffsets
      invariant start <= end < |boundary|
      invariant EndFrom(boundary, policy, start) == WindowEnd(boundary, start, end)
    {
      end := end - 1;
    }
  }

  // Moves the next window's start forward to the first boundary.
  method FindNext(byteOffsets: seq<nat>, runeOffsets: map<nat, nat>, policy: Policy, start: nat, end: nat, ghost boundary: seq<bool>)
    returns (next: nat)
    requires ValidPolicy(policy) && start < end < |boundary| == |byteOffsets|
    requires forall i :: 0 <= i < |boundary| ==> (boundary[i] <==> byteOffsets[i] in runeOffsets)
    ensures next == StartAfter(boundary, policy, start, end)
  {
    next := if end - policy.overlap <= start then start + 1 else end - policy.overlap;
    while next < end && byteOffsets[next] !in runeOffsets
      invariant start < next <= end
      invariant StartAfter(boundary, policy, start, end) == NextStart(boundary, next, end)
    {
      next := next + 1;
    }
  }

  // One turn of the loop, seen from the windows.
  lemma WindowsAdvance(boundary: seq<bool>, policy: Policy, spans: seq<Span>, start: nat, end: nat)
    requires ValidPolicy(policy) && start < |boundary| - 1 && end == EndFrom(boundary, policy, start)
    ensures end == start ==> Windows(boundary, policy, start) == Err(start)
    ensures start < end == |boundary| - 1 ==>
      Prepend(spans, Windows(boundary, policy, start)) == Ok(spans + [Span(start, end)])
    ensures start < end < |boundary| - 1 ==>
      Prepend(spans, Windows(boundary, policy, start)) ==
      Prepend(spans + [Span(start, end)], Windows(boundary, policy, StartAfter(boundary, policy, start, end)))
  {
    PrependOne(spans, Span(start, end), Windows(boundary, policy, start));
    if start < end < |boundary| - 1 {
      var rest := Windows(boundary, policy, StartAfter(boundary, policy, start, end));
      assert Windows(boundary, policy, start) == Prepend([Span(start, end)], rest);
    }
  }

  lemma ChunksGrow(
      length: nat, characters: seq<nat>, tokens: seq<nat>, spans: seq<Span>, chunks: seq<TextChunk>, span: Span, chunk: TextChunk)
    requires ChunksOf(length, characters, tokens, spans, chunks)
    requires span.start <= |tokens| && span.end <= |tokens| && chunk == ToChunk(length, characters, tokens, span)
    ensures ChunksOf(length, characters, tokens, spans + [span], chunks + [chunk])
  {
  }

  method ChunkWindows(
      length: nat, characters: seq<nat>, ghost tokens: seq<nat>, byteOffsets: seq<nat>, runeOffsets: map<nat, nat>,
      policy: Policy, ghost boundary: seq<bool>)
    returns (result: Result<seq<TextChunk>, ChunkError>, ghost spans: seq<Span>)
    requires Tabulated(length, characters, tokens, byteOffsets, runeOffsets, boundary)
    requires ValidPolicy(policy) && tokens != [] && boundary[0] && boundary[|tokens|]
    ensures
      match Windows(boundary, policy, 0)
      case Ok(windows) => spans == windows && result.Ok? && ChunksOf(length, characters, tokens, spans, result.value)
      case Err(at) => result == Err(NoBoundaryFrom(at))
  {
    var count := |byteOffsets| - 1;
    var chunks: seq<TextChunk> := [];
    spans := [];
    ghost var target := Windows(boundary, policy, 0);
    PrependNone(target);
    var start: nat := 0;
    while true
      invariant start < count && boundary[start]
      invariant ChunksOf(length, characters, tokens, spans, chunks)
      invariant target == Prepend(spans, Windows(boundary, policy, start))
      decreases count - start
    {
      var end := FindEnd(byteOffsets, runeOffsets, policy, start, boundary);
      WindowsAdvance(boundary, policy, spans, start, end);
      if end == start { return Err(NoBoundaryFrom(start)), spans; }
      // The window starts on a boundary: the code's second boundary check never fires.
      assert byteOffsets[start] in runeOffsets;
      var chunk := TextChunk(
        byteOffsets[start], byteOffsets[end], runeOffsets[byteOffsets[start]], runeOffsets[byteOffsets[end]]);
      ChunksGrow(length, characters, tokens, spans, chunks, Span(start, end), chunk);
      chunks := chunks + [chunk];
      spans := spans + [Span(start, end)];
      if end == count { return Ok(chunks), spans; }
      start := FindNext(byteOffsets, runeOffsets, policy, start, end, boundary);
    }
  }

  lemma PrependNone(w: Result<seq<Span>, nat>)
    ensures Prepend([], w) == w
  {
    if w.Ok? { assert [] + w.value == w.value; }
  }

  ghost function Prepend(spans: seq<Span>, w: Result<seq<Span>, nat>): Result<seq<Span>, nat> {
    match w
    case Ok(rest) => Ok(spans + rest)
    case Err(at) => Err(at)
  }

  lemma PrependOne(spans: seq<Span>, span: Span, w: Result<seq<Span>, nat>)
    ensures forall rest :: w == Prepend([span], rest) ==> Prepend(spans, w) == Prepend(spans + [span], rest)
    ensures w == Ok([span]) ==> Prepend(spans, w) == Ok(spans + [span])
  {
    forall rest | w == Prepend([span], rest) ensures Prepend(spans, w) == Prepend(spans + [span], rest) {
      if rest.Ok? { assert spans + ([span] + rest.value) == spans + [span] + rest.value; }
    }
  }

  // ---------------------------------------------------------------------------------------
  // The consumer: restoreChunkedText sorts TextUnits and refuses repeated ranges.

  // `wellFormed` stands for the checks on the unit's own body.
  datatype TextUnit = TextUnit(startIndex: int, endIndex: int, wellFormed: bool)

  predicate ValidUnit(u: TextUnit) { u.wellFormed && 0 <= u.startIndex < u.endIndex }

  predicate UnitAtMost(a: TextUnit, b: TextUnit) {
    a.startIndex < b.startIndex || (a.startIndex == b.startIndex && a.endIndex <= b.endIndex)
  }

  predicate SameRange(a: TextUnit, b: TextUnit) {
    a.startIndex == b.startIndex && a.endIndex == b.endIndex
  }

  ghost predicate Acceptable(units: seq<TextUnit>) {
    && units != []
    && (forall u :: u in units ==> ValidUnit(u))
    && (forall i, j :: 0 <= i < j < |units| ==> !SameRange(units[i], units[j]))
  }

  ghost predicate RangesDiffer(units: seq<TextUnit>) {
    forall i, j :: 0 <= i < j < |units| ==>
      units[i].startIndex != units[j].startIndex || units[i].endIndex != units[j].endIndex
  }

  // Sorting does not change whether ranges repeat, and sorted distinct ranges ascend strictly.
  lemma SortedRangesAreApart(units: seq<TextUnit>)
    ensures RangesDiffer(Sort(units, UnitAtMost)) <==> RangesDiffer(units)
    ensures RangesDiffer(units) ==> forall i, j :: 0 <= i < j < |Sort(units, UnitAtMost)| ==>
      var a, b := Sort(units, UnitAtMost)[i], Sort(units, UnitAtMost)[j];
      a.startIndex < b.startIndex || (a.startIndex == b.startIndex && a.endIndex < b.endIndex)
  {
    var sorted := Sort(units, UnitAtMost);
    SortSorts(units, UnitAtMost);
    if RangesDiffer(units) { PermutedRangesDiffer(units, sorted); }
    if RangesDiffer(sorted) { PermutedRangesDiffer(sorted, units); }
    if RangesDiffer(units) {
      forall i, j | 0 <= i < j < |sorted|
        ensures sorted[i].startIndex < sorted[j].startIndex ||
          (sorted[i].startIndex == sorted[j].startIndex && sorted[i].endIndex < sorted[j].endIndex)
      {
        assert UnitAtMost(sorted[i], sorted[j]);
      }
    }
  }

  lemma PermutedRangesDiffer(a: seq<TextUnit>, b: seq<TextUnit>)
    requires RangesDiffer(a) && multiset(a) == multiset(b)
    ensures RangesDiffer(b)
  {
    assert NoDuplicates(a);
    NoDuplicatesIsMultiset(a);
    NoDuplicatesIsMultiset(b);
    SameMultiset(a, b);
    forall i, j | 0 <= i < j < |b| ensures b[i].startIndex != b[j].startIndex || b[i].endIndex != b[j].endIndex {
      var u, v := b[i], b[j];
      assert u in a && v in a && u != v;
      var k :| 0 <= k < |a| && a[k] == u;
      var l :| 0 <= l < |a| && a[l] == v;
      assert k < l || l < k;
    }
  }

  // Comparing neighbours is enough to find every repeated range.
  method RestoreChunkedText(units: seq<TextUnit>) returns (result: Option<seq<TextUnit>>)
    ensures result == if Acceptable(Sort(units, UnitAtMost)) then Some(Sort(units, UnitAtMost)) else None
    ensures result.Some? <==>
      && units != []
      && (forall u :: u in units ==> u.wellFormed && 0 <= u.startIndex < u.endIndex)
      && RangesDiffer(units)
    ensures result.Some? ==> multiset(result.value) == multiset(units)
    ensures result.Some? ==> forall i, j :: 0 <= i < j < |result.value| ==>
      var a, b := result.value[i], result.value[j];
      a.startIndex < b.startIndex || (a.startIndex == b.startIndex && a.endIndex < b.endIndex)
  {
    if units == [] {
      return None;
    }
    var sorted := Sort(units, UnitAtMost);
    SortSorts(units, UnitAtMost);
    SortedRangesAreApart(units);
    for i := 0 to |sorted|
      invariant forall k :: 0 <= k < i ==> ValidUnit(sorted[k])
      invariant forall j, k :: 0 <= j < k < i ==> !SameRange(sorted[j], sorted[k])
    {
      if !ValidUnit(sorted[i]) {
        assert sorted[i] in sorted;
        return None;
      }
      if i > 0 && SameRange(sorted[i - 1], sorted[i]) { return None; }
      forall j | 0 <= j < i ensures !SameRange(sorted[j], sorted[i]) {
        if j < i - 1 {
          assert UnitAtMost(sorted[j], sorted[i - 1]) && UnitAtMost(sorted[i - 1], sorted[i]);
          assert !SameRange(sorted[j], sorted[i - 1]);
        }
      }
    }
    return Some(sorted);
  }

  ghost predicate AllEmpty(tokens: seq<nat>, from: nat, to: nat) {
    forall k :: from <= k < to && k < |tokens| ==> tokens[k] == 0
  }

  // Offsets grow, and stand still over empty tokens only.
  lemma {:induction false} OffsetsGrow(tokens: seq<nat>, i: nat, j: nat)
    requires i <= j <= |tokens|
    ensures Offset(tokens, i) <= Offset(tokens, j)
    ensures Offset(tokens, i) == Offset(tokens, j) <==> AllEmpty(tokens, i, j)
  {
    if i < j {
      OffsetsGrow(tokens, i, j - 1);
      assert AllEmpty(tokens, i, j) <==> AllEmpty(tokens, i, j - 1) && tokens[j - 1] == 0;
    }
  }

  lemma CharactersGrow(length: nat, characters: seq<nat>, a: nat, b: nat)
    requires ValidText(length, characters) && a < b
    requires (a in characters || a == length) && (b in characters || b == length)
    ensures CharIndex(length, characters, a) < CharIndex(length, characters, b)
  {
    if b in characters {
      var j :| 0 <= j < |characters| && characters[j] == b;
      assert b < length;
    }
  }

  ghost predicate UnitsOf(chunks: seq<TextChunk>, units: seq<TextUnit>) {
    |units| == |chunks| && forall i :: 0 <= i < |chunks| ==>
      units[i].startIndex == chunks[i].startChar && units[i].endIndex == chunks[i].endChar
  }

  lemma BoundaryOffsets(length: nat, characters: seq<nat>, tokens: seq<nat>, i: nat)
    requires i <= |tokens|
    ensures Boundaries(length, characters, tokens)[i] <==> Offset(tokens, i) in characters || Offset(tokens, i) == length
  {
  }

  // So do the characters at boundaries.
  lemma BoundariesGrow(length: nat, characters: seq<nat>, tokens: seq<nat>, a: nat, b: nat)
    requires ValidText(length, characters) && a <= b <= |tokens|
    requires Boundaries(length, characters, tokens)[a] && Boundaries(length, characters, tokens)[b]
    ensures CharIndex(length, characters, Offset(tokens, a)) <= CharIndex(length, characters, Offset(tokens, b))
    ensures CharIndex(length, characters, Offset(tokens, a)) == CharIndex(length, characters, Offset(tokens, b)) <==>
      AllEmpty(tokens, a, b)
  {
    BoundaryOffsets(length, characters, tokens, a);
    BoundaryOffsets(length, characters, tokens, b);
    OffsetsGrow(tokens, a, b);
    if Offset(tokens, a) < Offset(tokens, b) {
      CharactersGrow(length, characters, Offset(tokens, a), Offset(tokens, b));
    }
  }

  // The TextUnits made from a successful chunking of a text.
  ghost predicate Chunked(
    length: nat, characters: seq<nat>, tokens: seq<nat>, policy: Policy, spans: seq<Span>, units: seq<TextUnit>)
  {
    && ValidText(length, characters) && ValidPolicy(policy) && tokens != [] && Offset(tokens, |tokens|) == length
    && Windows(Boundaries(length, characters, tokens), policy, 0) == Ok(spans)
    && exists chunks :: ChunksOf(length, characters, tokens, spans, chunks) && UnitsOf(chunks, units)
  }

  // What chunking gives about every unit.
  lemma UnitPlaces(
      length: nat, characters: seq<nat>, tokens: seq<nat>, policy: Policy, spans: seq<Span>, units: seq<TextUnit>)
    requires Chunked(length, characters, tokens, policy, spans, units)
    ensures spans != [] && |units| == |spans| && WellPlaced(Boundaries(length, characters, tokens), policy, spans)
    ensures forall i :: 0 <= i < |spans| ==>
      && spans[i].start < spans[i].end <= |tokens|
      && units[i].startIndex == CharIndex(length, characters, Offset(tokens, spans[i].start))
      && units[i].endIndex == CharIndex(length, characters, Offset(tokens, spans[i].end))
  {
    TextEndsAreBoundaries(length, characters, tokens);
    WindowsCover(Boundaries(length, characters, tokens), policy, 0);
    var chunks :| ChunksOf(length, characters, tokens, spans, chunks) && UnitsOf(chunks, units);
  }

  // A unit's range is empty exactly when its window holds only empty tokens.
  lemma RangeIsEmptyExactly(
      length: nat, characters: seq<nat>, tokens: seq<nat>, policy: Policy,
      spans: seq<Span>, units: seq<TextUnit>, i: nat)
    requires Chunked(length, characters, tokens, policy, spans, units) && i < |units|
    ensures |units| == |spans| && 0 <= units[i].startIndex <= units[i].endIndex
    ensures units[i].startIndex == units[i].endIndex <==> AllEmpty(tokens, spans[i].start, spans[i].end)
  {
    UnitPlaces(length, characters, tokens, policy, spans, units);
    BoundariesGrow(length, characters, tokens, spans[i].start, spans[i].end);
  }

  // Two windows cover the same range exactly when all tokens between their starts and all
  // tokens between their ends are empty.
  lemma RangeRepeatsExactly(
      length: nat, characters: seq<nat>, tokens: seq<nat>, policy: Policy,
      spans: seq<Span>, units: seq<TextUnit>, i: nat, j: nat)
    requires Chunked(length, characters, tokens, policy, spans, units) && i < j < |units|
    ensures |units| == |spans| && UnitAtMost(units[i], units[j])
    ensures SameRange(units[i], units[j]) <==>
      AllEmpty(tokens, spans[i].start, spans[j].start) && AllEmpty(tokens, spans[i].end, spans[j].end)
  {
    UnitPlaces(length, characters, tokens, policy, spans, units);
    StartsIncrease(policy, Boundaries(length, characters, tokens), spans, i, j);
    BoundariesGrow(length, characters, tokens, spans[i].start, spans[j].start);
    BoundariesGrow(length, characters, tokens, spans[i].end, spans[j].end);
  }

  lemma TextEndsAreBoundaries(length: nat, characters: seq<nat>, tokens: seq<nat>)
    requires ValidText(length, characters) && Offset(tokens, |tokens|) == length
    ensures Boundaries(length, characters, tokens)[0] && Boundaries(length, characters, tokens)[|tokens|]
  {
    BoundaryOffsets(length, characters, tokens, 0);
    BoundaryOffsets(length, characters, tokens, |tokens|);
    if length > 0 { assert characters[0] in characters; }
  }

  // No window holds empty tokens only, and no two windows cover the same range.
  ghost predicate RangesApart(tokens: seq<nat>, spans: seq<Span>) {
    && (forall i :: 0 <= i < |spans| ==> !AllEmpty(tokens, spans[i].start, spans[i].end))
    && (forall i, j :: 0 <= i < j < |spans| ==>
      !(AllEmpty(tokens, spans[i].start, spans[j].start) && AllEmpty(tokens, spans[i].end, spans[j].end)))
  }

  // Whatever the tokens, the units of a chunked text are already sorted. They are accepted
  // exactly when their bodies are well formed and the empty tokens keep the ranges apart.
  lemma ChunkedUnitsStayInOrder(
      length: nat, characters: seq<nat>, tokens: seq<nat>, policy: Policy, spans: seq<Span>, units: seq<TextUnit>)
    requires Chunked(length, characters, tokens, policy, spans, units)
    ensures Sort(units, UnitAtMost) == units
    ensures Acceptable(units) <==> (forall u :: u in units ==> u.wellFormed) && RangesApart(tokens, spans)
  {
    UnitPlaces(length, characters, tokens, policy, spans, units);
    forall i | 0 <= i < |units|
      ensures ValidUnit(units[i]) <==> units[i].wellFormed && !AllEmpty(tokens, spans[i].start, spans[i].end)
    {
      RangeIsEmptyExactly(length, characters, tokens, policy, spans, units, i);
    }
    forall i, j | 0 <= i < j < |units|
      ensures UnitAtMost(units[i], units[j])
      ensures SameRange(units[i], units[j]) <==>
        AllEmpty(tokens, spans[i].start, spans[j].start) && AllEmpty(tokens, spans[i].end, spans[j].end)
    {
      RangeRepeatsExactly(length, characters, tokens, policy, spans, units, i, j);
    }
    SortOfSorted(units, UnitAtMost);
  }

  // For non-empty tokens the range checks never fire.
  lemma NonEmptyTokensKeepRangesApart(
      length: nat, characters: seq<nat>, tokens: seq<nat>, policy: Policy, spans: seq<Span>, units: seq<TextUnit>)
    requires Chunked(length, characters, tokens, policy, spans, units)
    requires forall k :: 0 <= k < |tokens| ==> tokens[k] > 0
    ensures RangesApart(tokens, spans)
    ensures Acceptable(units) <==> forall u :: u in units ==> u.wellFormed
  {
    UnitPlaces(length, characters, tokens, policy, spans, units);
    forall i | 0 <= i < |spans| ensures !AllEmpty(tokens, spans[i].start, spans[i].end) {
      assert tokens[spans[i].start] > 0;
    }
    forall i, j | 0 <= i < j < |spans| ensures !AllEmpty(tokens, spans[i].start, spans[j].start) {
      StartsIncrease(policy, Boundaries(length, characters, tokens), spans, i, j);
      assert tokens[spans[i].start] > 0;
    }
    ChunkedUnitsStayInOrder(length, characters, tokens, policy, spans, units);
  }

  // Empty tokens do repeat ranges: the windows [0,2) and [1,2) below cover the same text, because
  // token 0 is empty and no window from token 1 reaches a boundary later than token 2.
  lemma EmptyTokenRepeatsRange() returns (length: nat, characters: seq<nat>, tokens: seq<nat>, policy: Policy, spans: seq<Span>)
    ensures ValidText(length, characters) && ValidPolicy(policy) && tokens != [] && Offset(tokens, |tokens|) == length
    ensures Windows(Boundaries(length, characters, tokens), policy, 0) == Ok(spans) && |spans| > 1
    ensures spans[0].start <= spans[0].end <= |tokens| && spans[1].start <= spans[1].end <= |tokens|
    ensures ToChunk(length, characters, tokens, spans[0]) == ToChunk(length, characters, tokens, spans[1])
  {
    length, characters, tokens, policy := 3, [0, 1], [0, 1, 1, 1], Policy(2, 1);
    var boundary := Boundaries(length, characters, tokens);
    assert Offset(tokens, 1) == 0 && Offset(tokens, 2) == 1 && Offset(tokens, 3) == 2 && Offset(tokens, 4) == 3;
    assert boundary == [true, true, true, false, true];
    assert WindowEnd(boundary, 1, 3) == WindowEnd(boundary, 1, 2) == 2;
    assert Windows(boundary, policy, 2) == Ok([Span(2, 4)]);
    assert Windows(boundary, policy, 1) == Ok([Span(1, 2)] + [Span(2, 4)]);
    assert Windows(boundary, policy, 0) == Ok([Span(0, 2)] + ([Span(1, 2)] + [Span(2, 4)]));
    spans := [Span(0, 2)] + ([Span(1, 2)] + [Span(2, 4)]);
  }
}
