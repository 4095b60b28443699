/**
 Batching texts for an embedding provider and scattering the vectors back (semantic/generator.go).
 */
module SemanticBatching {
  import opened Wrappers

  type ID = int
  type Text = int
  type Values = seq<real>
  datatype Input = Input(id: ID, text: Text)
  datatype Vector = Vector(id: ID, values: Values)

  datatype Limits = Limits(size: nat, maxTokens: nat)

  datatype BatchError =
    | CountFailed(index: nat) | NoTokens(index: nat) | TooManyTokens(index: nat)
    | EmbeddingFailed(batch: nat) | WrongVectorCount(batch: nat) | BadVector(batch: nat, offset: nat)
    | DimensionMismatch(batch: nat, offset: nat)

  // The provider's token count of a text; None when counting fails.
  type Counter = Text -> Option<int>

  predicate Usable(count: Counter, limits: Limits, text: Text) {
    count(text).Some? && 0 < count(text).value <= limits.maxTokens
  }

  // ---------------------------------------------------------------------------------------
  // Contiguous splits, given by their cut positions.

  ghost function Tokens(counts: seq<nat>, from: nat, to: nat): nat
    requires from <= to <= |counts|
  {
    if from == to then 0 else Tokens(counts, from, to - 1) + counts[to - 1]
  }

  ghost predicate Fits(counts: seq<nat>, limits: Limits, from: nat, to: nat) {
    from < to <= |counts| && to - from <= limits.size && Tokens(counts, from, to) <= limits.maxTokens
  }

  ghost predicate IsSplit(counts: seq<nat>, limits: Limits, cuts: seq<nat>) {
    && cuts != [] && cuts[0] == 0 && cuts[|cuts| - 1] == |counts|
    && forall k :: 0 <= k < |cuts| - 1 ==> Fits(counts, limits, cuts[k], cuts[k + 1])
  }

  // No batch could have taken the next item too.
  ghost predicate IsGreedy(counts: seq<nat>, limits: Limits, cuts: seq<nat>) {
    forall k :: 0 <= k < |cuts| - 1 && cuts[k + 1] < |counts| ==> !Fits(counts, limits, cuts[k], cuts[k + 1] + 1)
  }

  lemma {:induction false} TokensGrow(counts: seq<nat>, a: nat, b: nat, c: nat, d: nat)
    requires a <= b <= c <= d <= |counts|
    ensures Tokens(counts, b, c) <= Tokens(counts, a, d)
  {
    if c < d {
      TokensGrow(counts, a, b, c, d - 1);
    } else if b < c {
      TokensGrow(counts, a, b, c - 1, d - 1);
    }
  }

  lemma {:induction false} CutsIncrease(counts: seq<nat>, limits: Limits, cuts: seq<nat>, i: nat, j: nat)
    requires IsSplit(counts, limits, cuts) && i < j < |cuts|
    ensures cuts[i] < cuts[j] <= |counts|
  {
    assert Fits(counts, limits, cuts[j - 1], cuts[j - 1 + 1]);
    if i < j - 1 { CutsIncrease(counts, limits, cuts, i, j - 1); }
  }

  // The greedy cuts are never behind those of any other split.
  lemma {:induction false} GreedyStaysAhead(counts: seq<nat>, limits: Limits, greedy: seq<nat>, other: seq<nat>, k: nat)
    requires IsSplit(counts, limits, greedy) && IsGreedy(counts, limits, greedy) && IsSplit(counts, limits, other)
    requires k < |greedy| && k < |other|
    ensures greedy[k] >= other[k]
  {
    if k == 0 {
    } else {
      GreedyStaysAhead(counts, limits, greedy, other, k - 1);
      assert Fits(counts, limits, greedy[k - 1], greedy[k - 1 + 1]);
      assert Fits(counts, limits, other[k - 1], other[k - 1 + 1]);
      if greedy[k] < other[k] {
        TokensGrow(counts, other[k - 1], greedy[k - 1], greedy[k] + 1, other[k]);
        assert Fits(counts, limits, greedy[k - 1], greedy[k - 1 + 1] + 1);
      }
    }
  }

  // Greedy batching uses the fewest batches any contiguous split within the limits can use.
  lemma GreedyIsMinimal(counts: seq<nat>, limits: Limits, greedy: seq<nat>, other: seq<nat>)
    requires IsSplit(counts, limits, greedy) && IsGreedy(counts, limits, greedy) && IsSplit(counts, limits, other)
    ensures |greedy| <= |other|
  {
    if |other| < |greedy| {
      GreedyStaysAhead(counts, limits, greedy, other, |other| - 1);
      CutsIncrease(counts, limits, greedy, |other| - 1, |greedy| - 1);
    }
  }

  // The greedy split is the only one that is greedy.
  lemma GreedyIsUnique(counts: seq<nat>, limits: Limits, a: seq<nat>, b: seq<nat>)
    requires IsSplit(counts, limits, a) && IsGreedy(counts, limits, a)
    requires IsSplit(counts, limits, b) && IsGreedy(counts, limits, b)
    ensures a == b
  {
    GreedyIsMinimal(counts, limits, a, b);
    GreedyIsMinimal(counts, limits, b, a);
    forall k | 0 <= k < |a| ensures a[k] == b[k] {
      GreedyStaysAhead(counts, limits, a, b, k);
      GreedyStaysAhead(counts, limits, b, a, k);
    }
  }

  // ---------------------------------------------------------------------------------------
  // The batching loop.

  ghost function Counts(count: Counter, input: seq<Input>): seq<nat> {
    seq(|input|, i requires 0 <= i < |input| =>
      if count(input[i].text).Some? && count(input[i].text).value > 0 then count(input[i].text).value else 0)
  }

  // Batch k holds the inputs between cut k and cut k + 1 and starts at cut k.
  ghost predicate BatchAt(input: seq<Input>, cuts: seq<nat>, batches: seq<seq<Input>>, starts: seq<nat>, k: nat) {
    && k < |batches| && k < |starts| && k + 1 < |cuts|
    && starts[k] == cuts[k] <= cuts[k + 1] <= |input| && batches[k] == input[cuts[k]..cuts[k + 1]]
  }

  ghost predicate BatchesAt(input: seq<Input>, cuts: seq<nat>, batches: seq<seq<Input>>, starts: seq<nat>) {
    && |cuts| == |batches| + 1 && |starts| == |batches|
    && forall k :: 0 <= k < |batches| ==> BatchAt(input, cuts, batches, starts, k)
  }

  lemma BatchesGrow(input: seq<Input>, cuts: seq<nat>, batches: seq<seq<Input>>, starts: seq<nat>, index: nat)
    requires BatchesAt(input, cuts, batches, starts) && cuts[|cuts| - 1] <= index <= |input|
    ensures BatchesAt(input, cuts + [index], batches + [input[cuts[|cuts| - 1]..index]], starts + [cuts[|cuts| - 1]])
  {
    var start := cuts[|cuts| - 1];
    var cuts', batches', starts' := cuts + [index], batches + [input[start..index]], starts + [start];
    forall k | 0 <= k < |batches'| ensures BatchAt(input, cuts', batches', starts', k) {
      assert k < |batches| ==> BatchAt(input, cuts, batches, starts, k);
    }
  }

  // The batches closed so far: within the limits, and none could have taken the next item too.
  ghost predicate Closed(counts: seq<nat>, limits: Limits, cuts: seq<nat>) {
    && cuts != [] && cuts[0] == 0
    && (forall k :: 0 <= k < |cuts| - 1 ==> Fits(counts, limits, cuts[k], cuts[k + 1]))
    && IsGreedy(counts, limits, cuts)
  }

  lemma ClosedGrows(counts: seq<nat>, limits: Limits, cuts: seq<nat>, index: nat)
    requires Closed(counts, limits, cuts) && Fits(counts, limits, cuts[|cuts| - 1], index)
    requires index < |counts| ==> !Fits(counts, limits, cuts[|cuts| - 1], index + 1)
    ensures Closed(counts, limits, cuts + [index])
  {
    var more := cuts + [index];
    forall k | 0 <= k < |more| - 1 ensures Fits(counts, limits, more[k], more[k + 1]) {
      assert k < |cuts| - 1 ==> Fits(counts, limits, cuts[k], cuts[k + 1]);
    }
  }

  // The loop's open batch, from `start` to the current item.
  ghost predicate Open(
      counts: seq<nat>, limits: Limits, input: seq<Input>, start: nat, index: nat, current: seq<Input>, tokens: int)
  {
    && start <= index <= |input| == |counts|
    && current == input[start..index] && tokens == Tokens(counts, start, index)
    && (start < index ==> Fits(counts, limits, start, index))
  }

  lemma OpenGrows(
      counts: seq<nat>, limits: Limits, input: seq<Input>, start: nat, index: nat, current: seq<Input>, tokens: int)
    requires Open(counts, limits, input, start, index, current, tokens) && index < |input|
    requires |current| < limits.size && tokens + counts[index] <= limits.maxTokens
    ensures Open(counts, limits, input, start, index + 1, current + [input[index]], tokens + counts[index])
  {
  }

  // The provider's tokens of a batch.
  ghost function BatchTokens(count: Counter, batch: seq<Input>): int {
    if batch == [] then 0
    else (if count(batch[0].text).Some? then count(batch[0].text).value else 0) + BatchTokens(count, batch[1..])
  }

  // Every batch holds something and respects both limits.
  ghost predicate InLimits(count: Counter, limits: Limits, batches: seq<seq<Input>>) {
    forall k :: 0 <= k < |batches| ==>
      0 < |batches[k]| <= limits.size && BatchTokens(count, batches[k]) <= limits.maxTokens
  }

  // With the first item of the next batch, a batch would break one.
  ghost predicate CannotGrow(count: Counter, limits: Limits, batches: seq<seq<Input>>) {
    forall k :: 0 <= k < |batches| - 1 ==> OverflowsWithNext(count, limits, batches, k)
  }

  ghost predicate OverflowsWithNext(count: Counter, limits: Limits, batches: seq<seq<Input>>, k: nat) {
    && k + 1 < |batches| && batches[k + 1] != []
    && (|batches[k]| + 1 > limits.size || BatchTokens(count, batches[k] + [batches[k + 1][0]]) > limits.maxTokens)
  }

  lemma {:induction false} BatchTokensGrow(count: Counter, batch: seq<Input>, x: Input)
    ensures BatchTokens(count, batch + [x]) ==
      BatchTokens(count, batch) + (if count(x.text).Some? then count(x.text).value else 0)
  {
    if batch == [] {
      assert [] + [x] == [x] && [x][1..] == [];
    } else {
      BatchTokensGrow(count, batch[1..], x);
      assert (batch + [x])[1..] == batch[1..] + [x];
    }
  }

  lemma {:induction false} TokensAreBatchTokens(count: Counter, limits: Limits, input: seq<Input>, from: nat, to: nat)
    requires from <= to <= |input| && forall i :: 0 <= i < |input| ==> Usable(count, limits, input[i].text)
    ensures Tokens(Counts(count, input), from, to) == BatchTokens(count, input[from..to])
  {
    if from == to {
      assert input[from..to] == [];
    } else {
      TokensAreBatchTokens(count, limits, input, from, to - 1);
      BatchTokensGrow(count, input[from..to - 1], input[to - 1]);
      assert input[from..to] == input[from..to - 1] + [input[to - 1]];
    }
  }

  lemma BatchesInTokens(
      count: Counter, limits: Limits, input: seq<Input>, cuts: seq<nat>, batches: seq<seq<Input>>, starts: seq<nat>)
    requires forall i :: 0 <= i < |input| ==> Usable(count, limits, input[i].text)
    requires IsSplit(Counts(count, input), limits, cuts) && IsGreedy(Counts(count, input), limits, cuts)
    requires BatchesAt(input, cuts, batches, starts)
    ensures InLimits(count, limits, batches) && CannotGrow(count, limits, batches)
    ensures Concat(batches) == input && forall k :: 0 <= k < |starts| ==> starts[k] == |Concat(batches[..k])|
  {
    var counts := Counts(count, input);
    BatchesConcatenate(counts, limits, input, cuts, batches, starts);
    forall k | 0 <= k < |batches|
      ensures 0 < |batches[k]| <= limits.size && BatchTokens(count, batches[k]) <= limits.maxTokens
      ensures starts[k] == |Concat(batches[..k])|
    {
      assert BatchAt(input, cuts, batches, starts, k) && Fits(counts, limits, cuts[k], cuts[k + 1]);
      TokensAreBatchTokens(count, limits, input, cuts[k], cuts[k + 1]);
      BatchPrefix(input, cuts, batches, starts, k);
    }
    forall k | 0 <= k < |batches| - 1 ensures OverflowsWithNext(count, limits, batches, k) {
      BatchOverflows(count, limits, input, cuts, batches, starts, k);
    }
  }

  lemma BatchOverflows(
      count: Counter, limits: Limits, input: seq<Input>, cuts: seq<nat>, batches: seq<seq<Input>>, starts: seq<nat>, k: nat)
    requires forall i :: 0 <= i < |input| ==> Usable(count, limits, input[i].text)
    requires IsSplit(Counts(count, input), limits, cuts) && IsGreedy(Counts(count, input), limits, cuts)
    requires BatchesAt(input, cuts, batches, starts) && k + 1 < |batches|
    ensures OverflowsWithNext(count, limits, batches, k)
  {
    var counts, next := Counts(count, input), cuts[k + 1];
    assert BatchAt(input, cuts, batches, starts, k) && BatchAt(input, cuts, batches, starts, k + 1);
    assert Fits(counts, limits, cuts[k], cuts[k + 1]) && Fits(counts, limits, cuts[k + 1], cuts[k + 1 + 1]);
    TokensAreBatchTokens(count, limits, input, cuts[k], next + 1);
    assert input[cuts[k]..next + 1] == batches[k] + [batches[k + 1][0]];
  }

  method Batches(count: Counter, limits: Limits, input: seq<Input>)
    returns (result: Result<(seq<seq<Input>>, seq<nat>), BatchError>, ghost cuts: seq<nat>)
    requires limits.size > 0
    ensures result.Ok? <==> forall i :: 0 <= i < |input| ==> Usable(count, limits, input[i].text)
    ensures result.Err? ==>
      && (result.error.CountFailed? || result.error.NoTokens? || result.error.TooManyTokens?)
      && result.error.index < |input| && !Usable(count, limits, input[result.error.index].text)
      && forall i :: 0 <= i < result.error.index ==> Usable(count, limits, input[i].text)
    ensures result.Ok? ==>
      && IsSplit(Counts(count, input), limits, cuts) && IsGreedy(Counts(count, input), limits, cuts)
      && BatchesAt(input, cuts, result.value.0, result.value.1)
    ensures result.Ok? ==> InLimits(count, limits, result.value.0) && CannotGrow(count, limits, result.value.0)
    ensures result.Ok? ==> Concat(result.value.0) == input && |result.value.1| == |result.value.0|
    ensures result.Ok? ==> forall k :: 0 <= k < |result.value.1| ==> result.value.1[k] == |Concat(result.value.0[..k])|
    ensures result.Err? ==>
      var text := input[result.error.index].text;
      && (result.error.CountFailed? <==> count(text).None?)
      && (result.error.NoTokens? <==> count(text).Some? && count(text).value <= 0)
  {
    ghost var counts := Counts(count, input);
    var batches: seq<seq<Input>>, starts: seq<nat> := [], [];
    var current: seq<Input> := [];
    var currentTokens: int, currentStart: nat := 0, 0;
    cuts := [0];
    var index: nat := 0;
    while index < |input|
      invariant index <= |input|
      invariant forall i :: 0 <= i < index ==> Usable(count, limits, input[i].text)
      invariant Closed(counts, limits, cuts) && cuts[|cuts| - 1] == currentStart
      invariant Open(counts, limits, input, currentStart, index, current, currentTokens)
      invariant current == [] ==> index == 0
      invariant BatchesAt(input, cuts, batches, starts)
    {
      var item := input[index];
      var counted := count(item.text);
      if counted.None? { return Err(CountFailed(index)), cuts; }
      if counted.value <= 0 { return Err(NoTokens(index)), cuts; }
      if counted.value > limits.maxTokens { return Err(TooManyTokens(index)), cuts; }
      assert counts[index] == counted.value;
      if current != [] && (|current| == limits.size || currentTokens + counted.value > limits.maxTokens) {
        ClosedGrows(counts, limits, cuts, index);
        BatchesGrow(input, cuts, batches, starts, index);
        batches := batches + [current];
        starts := starts + [currentStart];
        cuts := cuts + [index];
        current, currentTokens, currentStart := [], 0, index;
      }
      OpenGrows(counts, limits, input, currentStart, index, current, currentTokens);
      current := current + [item];
      currentTokens := currentTokens + counted.value;
      index := index + 1;
    }
    if current != [] {
      ClosedGrows(counts, limits, cuts, index);
      BatchesGrow(input, cuts, batches, starts, index);
      batches := batches + [current];
      starts := starts + [currentStart];
      cuts := cuts + [index];
    }
    result := Ok((batches, starts));
    BatchesInTokens(count, limits, input, cuts, batches, starts);
  }

  function Concat(batches: seq<seq<Input>>): seq<Input> {
    if batches == [] then [] else Concat(batches[..|batches| - 1]) + batches[|batches| - 1]
  }

  // The batches concatenate to the input.
  lemma {:induction false} BatchesConcatenate(
      counts: seq<nat>, limits: Limits, input: seq<Input>, cuts: seq<nat>, batches: seq<seq<Input>>, starts: seq<nat>)
    requires |counts| == |input| && IsSplit(counts, limits, cuts) && BatchesAt(input, cuts, batches, starts)
    ensures Concat(batches) == input
  {
    BatchPrefix(input, cuts, batches, starts, |batches|);
    assert batches[..|batches|] == batches && input[..|input|] == input;
  }

  lemma {:induction false} BatchPrefix(input: seq<Input>, cuts: seq<nat>, batches: seq<seq<Input>>, starts: seq<nat>, k: nat)
    requires BatchesAt(input, cuts, batches, starts) && cuts[0] == 0 && k <= |batches|
    ensures cuts[k] <= |input| && Concat(batches[..k]) == input[..cuts[k]]
  {
    if k == 0 {
    } else {
      assert BatchAt(input, cuts, batches, starts, k - 1);
      BatchPrefix(input, cuts, batches, starts, k - 1);
      assert batches[..k][..k - 1] == batches[..k - 1];
      assert input[..cuts[k]] == input[..cuts[k - 1]] + input[cuts[k - 1]..cuts[k]];
    }
  }

  // ---------------------------------------------------------------------------------------
  // Generation: embed every batch, then write each vector at its input's position.

  type Raw = int
  type Embedder = seq<Text> -> Option<seq<Raw>>
  type Normalizer = Raw -> Option<Values>

  function Texts(batch: seq<Input>): (texts: seq<Text>)
    ensures |texts| == |batch| && forall i :: 0 <= i < |batch| ==> texts[i] == batch[i].text
  {
    seq(|batch|, i requires 0 <= i < |batch| => batch[i].text)
  }

  // The provider's answers lie end to end: batch k's are those between cut k and cut k + 1.
  ghost predicate AnswersAt(cuts: seq<nat>, batches: seq<seq<Input>>, embed: Embedder, raws: seq<Raw>, n: nat) {
    && n <= |batches| && n < |cuts| && |raws| == cuts[n]
    && forall k :: 0 <= k < n ==> AnswerAt(cuts, batches, embed, raws, k)
  }

  ghost predicate AnswerAt(cuts: seq<nat>, batches: seq<seq<Input>>, embed: Embedder, raws: seq<Raw>, k: nat) {
    && k < |batches| && k + 1 < |cuts| && cuts[k] <= cuts[k + 1] <= |raws|
    && embed(Texts(batches[k])) == Some(raws[cuts[k]..cuts[k + 1]])
  }

  // Every vector carries its own input's identity and its own normalized answer.
  ghost predicate VectorsFor(input: seq<Input>, raws: seq<Raw>, normalize: Normalizer, vectors: seq<Vector>) {
    && |raws| <= |vectors| == |input|
    && forall i :: 0 <= i < |raws| ==> vectors[i].id == input[i].id && normalize(raws[i]) == Some(vectors[i].values)
  }

  ghost predicate SameDimension(vectors: seq<Vector>, n: nat, dimension: nat) {
    n <= |vectors| && (n == 0 <==> dimension == 0) && forall i :: 0 <= i < n ==> |vectors[i].values| == dimension
  }

  // A normalized vector has at least one component.
  ghost predicate Normalizes(normalize: Normalizer) {
    forall r :: normalize(r).Some? ==> normalize(r).value != []
  }

  ghost predicate AllUsable(count: Counter, limits: Limits, input: seq<Input>) {
    forall i :: 0 <= i < |input| ==> Usable(count, limits, input[i].text)
  }

  // The provider answers a batch with one raw vector per text.
  ghost predicate BatchAnswered(embed: Embedder, batch: seq<Input>) {
    embed(Texts(batch)).Some? && |embed(Texts(batch)).value| == |batch|
  }

  ghost predicate AllAnswered(embed: Embedder, batches: seq<seq<Input>>) {
    forall k :: 0 <= k < |batches| ==> BatchAnswered(embed, batches[k])
  }

  // The provider's answers, end to end.
  ghost function AllRaws(embed: Embedder, batches: seq<seq<Input>>): seq<Raw> {
    if batches == [] then []
    else
      var answer := embed(Texts(batches[|batches| - 1]));
      AllRaws(embed, batches[..|batches| - 1]) + (if answer.Some? then answer.value else [])
  }

  // Every raw vector normalizes, all to one dimension.
  ghost predicate Regular(normalize: Normalizer, raws: seq<Raw>) {
    && (forall i :: 0 <= i < |raws| ==> normalize(raws[i]).Some?)
    && (forall i, j :: 0 <= i < |raws| && 0 <= j < |raws| ==>
      |normalize(raws[i]).value| == |normalize(raws[j]).value|)
  }

  // The batches of the input: there is exactly one such list for usable texts.
  ghost predicate AreBatches(count: Counter, limits: Limits, input: seq<Input>, batches: seq<seq<Input>>) {
    exists cuts, starts ::
      && IsSplit(Counts(count, input), limits, cuts) && IsGreedy(Counts(count, input), limits, cuts)
      && BatchesAt(input, cuts, batches, starts)
  }

  lemma BatchesAreUnique(count: Counter, limits: Limits, input: seq<Input>, a: seq<seq<Input>>, b: seq<seq<Input>>)
    requires AreBatches(count, limits, input, a) && AreBatches(count, limits, input, b)
    ensures a == b
  {
    var counts := Counts(count, input);
    var c, s :| IsSplit(counts, limits, c) && IsGreedy(counts, limits, c) && BatchesAt(input, c, a, s);
    var d, t :| IsSplit(counts, limits, d) && IsGreedy(counts, limits, d) && BatchesAt(input, d, b, t);
    GreedyIsUnique(counts, limits, c, d);
    forall k | 0 <= k < |a| ensures a[k] == b[k] {
      assert BatchAt(input, c, a, s, k) && BatchAt(input, d, b, t, k);
    }
  }

  // Every input has the vector of its own answer, by batch and place in the batch; all vectors
  // have one dimension.
  ghost predicate VectorsOf(
      input: seq<Input>, batches: seq<seq<Input>>, embed: Embedder, normalize: Normalizer, vectors: seq<Vector>)
  {
    && |vectors| == |input|
    && (forall i :: 0 <= i < |input| ==> vectors[i].id == input[i].id)
    && (forall i, j :: 0 <= i < |vectors| && 0 <= j < |vectors| ==> |vectors[i].values| == |vectors[j].values|)
    && forall k, o :: 0 <= k < |batches| && 0 <= o < |batches[k]| ==> VectorAt(input, batches, embed, normalize, vectors, k, o)
  }

  ghost predicate VectorAt(
      input: seq<Input>, batches: seq<seq<Input>>, embed: Embedder, normalize: Normalizer, vectors: seq<Vector>, k: nat, o: nat)
    requires k < |batches| && o < |batches[k]|
  {
    var i, answer := |Concat(batches[..k])| + o, embed(Texts(batches[k]));
    && i < |input| && i < |vectors| && input[i] == batches[k][o]
    && answer.Some? && o < |answer.value| && normalize(answer.value[o]) == Some(vectors[i].values)
  }

  lemma VectorsAreOf(
      count: Counter, limits: Limits, input: seq<Input>, batches: seq<seq<Input>>, embed: Embedder, normalize: Normalizer,
      vectors: seq<Vector>)
    requires AreBatches(count, limits, input, batches) && AllAnswered(embed, batches)
    requires Regular(normalize, AllRaws(embed, batches)) && |AllRaws(embed, batches)| == |input|
    requires VectorsFor(input, AllRaws(embed, batches), normalize, vectors)
    ensures VectorsOf(input, batches, embed, normalize, vectors)
  {
    var counts, raws := Counts(count, input), AllRaws(embed, batches);
    var cuts, starts :| IsSplit(counts, limits, cuts) && IsGreedy(counts, limits, cuts) && BatchesAt(input, cuts, batches, starts);
    AnswersLieAtCuts(input, cuts, batches, starts, embed, |batches|);
    assert batches[..|batches|] == batches;
    forall k, o | 0 <= k < |batches| && 0 <= o < |batches[k]|
      ensures VectorAt(input, batches, embed, normalize, vectors, k, o)
    {
      AnswerLiesAt(input, cuts, batches, starts, embed, raws, k, o);
    }
  }

  // The answer for place `o` of batch k is the raw vector at the same place of the input.
  lemma AnswerLiesAt(
      input: seq<Input>, cuts: seq<nat>, batches: seq<seq<Input>>, starts: seq<nat>, embed: Embedder, raws: seq<Raw>,
      k: nat, o: nat)
    requires BatchesAt(input, cuts, batches, starts) && cuts[0] == 0 && AnswersAt(cuts, batches, embed, raws, |batches|)
    requires |raws| == |input| && k < |batches| && o < |batches[k]|
    ensures |Concat(batches[..k])| == cuts[k] && cuts[k] + o < |input| && input[cuts[k] + o] == batches[k][o]
    ensures embed(Texts(batches[k])).Some? && o < |embed(Texts(batches[k])).value|
    ensures embed(Texts(batches[k])).value[o] == raws[cuts[k] + o]
  {
    assert BatchAt(input, cuts, batches, starts, k) && AnswerAt(cuts, batches, embed, raws, k);
    BatchPrefix(input, cuts, batches, starts, k);
    assert raws[cuts[k]..cuts[k + 1]][o] == raws[cuts[k] + o];
  }

  // Where a generation failed.
  ghost predicate Explains(
      count: Counter, limits: Limits, input: seq<Input>, embed: Embedder, normalize: Normalizer,
      batches: seq<seq<Input>>, error: BatchError)
  {
    match error
    case EmbeddingFailed(b) => b < |batches| && embed(Texts(batches[b])).None?
    case WrongVectorCount(b) =>
      b < |batches| && embed(Texts(batches[b])).Some? && |embed(Texts(batches[b])).value| != |batches[b]|
    case BadVector(b, offset) =>
      && b < |batches| && BatchAnswered(embed, batches[b]) && offset < |batches[b]|
      && normalize(embed(Texts(batches[b])).value[offset]).None?
    case DimensionMismatch(b, offset) =>
      && b < |batches| && BatchAnswered(embed, batches[b]) && offset < |batches[b]|
      && normalize(embed(Texts(batches[b])).value[offset]).Some?
      && !Regular(normalize, AllRaws(embed, batches))
    case _ => error.index < |input| && !Usable(count, limits, input[error.index].text)
  }

  // Succeeds exactly when every text can be batched, every greedy batch is answered and every
  // answer is regular; then each input gets its own vector.
  method Generate(count: Counter, limits: Limits, input: seq<Input>, embed: Embedder, normalize: Normalizer)
    returns (result: Result<seq<Vector>, BatchError>, ghost batches: seq<seq<Input>>)
    requires limits.size > 0 && Normalizes(normalize)
    ensures AllUsable(count, limits, input) ==> AreBatches(count, limits, input, batches)
    ensures result.Ok? <==>
      && AllUsable(count, limits, input)
      && forall bs :: AreBatches(count, limits, input, bs) ==> AllAnswered(embed, bs) && Regular(normalize, AllRaws(embed, bs))
    ensures result.Ok? ==> forall bs :: AreBatches(count, limits, input, bs) ==>
      |AllRaws(embed, bs)| == |input| && VectorsFor(input, AllRaws(embed, bs), normalize, result.value)
    ensures result.Ok? ==> VectorsOf(input, batches, embed, normalize, result.value)
    ensures AllUsable(count, limits, input) ==>
      InLimits(count, limits, batches) && CannotGrow(count, limits, batches) && Concat(batches) == input
    ensures result.Err? ==> Explains(count, limits, input, embed, normalize, batches, result.error)
  {
    batches := [];
    if input == [] {
      EmptyInput(count, limits, input, embed, normalize);
      return Ok([]), batches;
    }
    var batched;
    ghost var cuts;
    batched, cuts := Batches(count, limits, input);
    if batched.Err? { return Err(batched.error), batches; }
    var split, starts := batched.value.0, batched.value.1;
    batches := split;
    OnlyBatches(count, limits, input, cuts, split, starts);
    var responses: seq<seq<Raw>> := [];
    for b := 0 to |split|
      invariant |responses| == b
      invariant forall k :: 0 <= k < b ==> BatchAnswered(embed, split[k]) && responses[k] == embed(Texts(split[k])).value
    {
      var response := embed(Texts(split[b]));
      assert BatchAnswered(embed, split[b]) <==> response.Some? && |response.value| == |split[b]|;
      if response.None? { return Err(EmbeddingFailed(b)), batches; }
      if |response.value| != |split[b]| { return Err(WrongVectorCount(b)), batches; }
      responses := responses + [response.value];
    }
    result := Scatter(input, cuts, split, starts, responses, embed, normalize, count, limits);
    if result.Ok? { VectorsAreOf(count, limits, input, split, embed, normalize, result.value); }
  }

  lemma OnlyBatches(
      count: Counter, limits: Limits, input: seq<Input>, cuts: seq<nat>, batches: seq<seq<Input>>, starts: seq<nat>)
    requires IsSplit(Counts(count, input), limits, cuts) && IsGreedy(Counts(count, input), limits, cuts)
    requires BatchesAt(input, cuts, batches, starts)
    ensures forall bs :: AreBatches(count, limits, input, bs) <==> bs == batches
  {
    forall bs | AreBatches(count, limits, input, bs) ensures bs == batches {
      BatchesAreUnique(count, limits, input, bs, batches);
    }
  }

  lemma EmptyInput(count: Counter, limits: Limits, input: seq<Input>, embed: Embedder, normalize: Normalizer)
    requires input == []
    ensures forall bs :: AreBatches(count, limits, input, bs) <==> bs == []
    ensures AllUsable(count, limits, input) && AllAnswered(embed, []) && Regular(normalize, AllRaws(embed, []))
  {
    assert BatchesAt(input, [0], [], []);
    OnlyBatches(count, limits, input, [0], [], []);
  }

  // Answers of the right sizes lie where their batches lie.
  lemma {:induction false} AnswersLieAtCuts(
      input: seq<Input>, cuts: seq<nat>, batches: seq<seq<Input>>, starts: seq<nat>, embed: Embedder, n: nat)
    requires BatchesAt(input, cuts, batches, starts) && cuts[0] == 0 && AllAnswered(embed, batches) && n <= |batches|
    ensures AnswersAt(cuts, batches, embed, AllRaws(embed, batches[..n]), n)
  {
    if n == 0 {
    } else {
      AnswersLieAtCuts(input, cuts, batches, starts, embed, n - 1);
      assert BatchAt(input, cuts, batches, starts, n - 1) && BatchAnswered(embed, batches[n - 1]);
      assert batches[..n][..n - 1] == batches[..n - 1];
      AnswersGrow(cuts, batches, embed, AllRaws(embed, batches[..n - 1]), n - 1, embed(Texts(batches[n - 1])).value);
    }
  }

  lemma AnswersGrow(cuts: seq<nat>, batches: seq<seq<Input>>, embed: Embedder, raws: seq<Raw>, n: nat, response: seq<Raw>)
    requires AnswersAt(cuts, batches, embed, raws, n) && n < |batches| && n + 1 < |cuts|
    requires embed(Texts(batches[n])) == Some(response) && cuts[n + 1] == cuts[n] + |response|
    ensures AnswersAt(cuts, batches, embed, raws + response, n + 1)
  {
    var all := raws + response;
    forall k | 0 <= k < n + 1 ensures AnswerAt(cuts, batches, embed, all, k) {
      if k < n {
        assert AnswerAt(cuts, batches, embed, raws, k);
        assert all[cuts[k]..cuts[k + 1]] == raws[cuts[k]..cuts[k + 1]];
      } else {
        assert all[cuts[n]..cuts[n + 1]] == response;
      }
    }
  }

  // The first `n` vectors are written, all of the dimension found so far.
  ghost predicate Written(
      input: seq<Input>, raws: seq<Raw>, n: nat, normalize: Normalizer, vectors: seq<Vector>, dimension: nat)
  {
    && n <= |raws| && VectorsFor(input, raws[..n], normalize, vectors) && SameDimension(vectors, n, dimension)
  }

  lemma VectorWritten(
      input: seq<Input>, raws: seq<Raw>, n: nat, normalize: Normalizer, vectors: seq<Vector>, dimension: nat, values: Values)
    requires n < |raws| == |input| && normalize(raws[n]) == Some(values) && |values| == dimension > 0
    requires VectorsFor(input, raws[..n], normalize, vectors) && (n > 0 ==> SameDimension(vectors, n, dimension))
    ensures Written(input, raws, n + 1, normalize, vectors[n := Vector(input[n].id, values)], dimension)
  {
    var written := vectors[n := Vector(input[n].id, values)];
    forall i | 0 <= i < n + 1
      ensures written[i].id == input[i].id && normalize(raws[i]) == Some(written[i].values) && |written[i].values| == dimension
    {
      if i < n { assert raws[..n][i] == raws[i]; }
    }
  }

  lemma Irregular(
      input: seq<Input>, raws: seq<Raw>, n: nat, normalize: Normalizer, vectors: seq<Vector>, dimension: nat)
    requires Written(input, raws, n, normalize, vectors, dimension) && n < |raws| && dimension > 0
    requires normalize(raws[n]).Some? && |normalize(raws[n]).value| != dimension
    ensures !Regular(normalize, raws)
  {
    assert raws[..n][0] == raws[0];
  }

  lemma WrittenIsRegular(
      input: seq<Input>, raws: seq<Raw>, normalize: Normalizer, vectors: seq<Vector>, dimension: nat)
    requires Written(input, raws, |raws|, normalize, vectors, dimension)
    ensures Regular(normalize, raws) && VectorsFor(input, raws, normalize, vectors)
  {
    assert raws[..|raws|] == raws;
  }

  // The write loop fills the result array at `starts[batch] + offset`.
  method Scatter(
      input: seq<Input>, ghost cuts: seq<nat>, ghost batches: seq<seq<Input>>, starts: seq<nat>, responses: seq<seq<Raw>>,
      ghost embed: Embedder, normalize: Normalizer, ghost count: Counter, ghost limits: Limits)
    returns (result: Result<seq<Vector>, BatchError>)
    requires Normalizes(normalize)
    requires IsSplit(Counts(count, input), limits, cuts) && BatchesAt(input, cuts, batches, starts)
    requires |responses| == |batches| && AllAnswered(embed, batches)
    requires forall k :: 0 <= k < |batches| ==> responses[k] == embed(Texts(batches[k])).value
    ensures AnswersAt(cuts, batches, embed, AllRaws(embed, batches), |batches|) && |AllRaws(embed, batches)| == |input|
    ensures result.Ok? <==> Regular(normalize, AllRaws(embed, batches))
    ensures result.Ok? ==> VectorsFor(input, AllRaws(embed, batches), normalize, result.value)
    ensures result.Err? ==> Explains(count, limits, input, embed, normalize, batches, result.error)
  {
    AnswersLieAtCuts(input, cuts, batches, starts, embed, |batches|);
    assert batches[..|batches|] == batches;
    ghost var raws := AllRaws(embed, batches);
    var vectors := new Vector[|input|];
    var dimension: nat := 0;
    ghost var n := 0;
    for b := 0 to |responses|
      invariant n == cuts[b] <= |raws| == |input|
      invariant Written(input, raws, n, normalize, vectors[..], dimension)
    {
      var response := responses[b];
      assert BatchAt(input, cuts, batches, starts, b) && AnswerAt(cuts, batches, embed, raws, b);
      assert BatchAnswered(embed, batches[b]);
      for offset := 0 to |response|
        invariant n == cuts[b] + offset <= |raws|
        invariant Written(input, raws, n, normalize, vectors[..], dimension)
      {
        assert response[offset] == raws[n];
        var normalized := normalize(response[offset]);
        if normalized.None? { return Err(BadVector(b, offset)); }
        if dimension == 0 {
          dimension := |normalized.value|;
        } else if |normalized.value| != dimension {
          Irregular(input, raws, n, normalize, vectors[..], dimension);
          return Err(DimensionMismatch(b, offset));
        }
        var inputIndex := starts[b] + offset;
        VectorWritten(input, raws, n, normalize, vectors[..], dimension, normalized.value);
        vectors[inputIndex] := Vector(input[inputIndex].id, normalized.value);
        n := n + 1;
      }
    }
    WrittenIsRegular(input, raws, normalize, vectors[..], dimension);
    result := Ok(vectors[..]);
  }

  // A provider that embeds each text on its own gives every input its own vector, however the
  // inputs were batched.
  lemma BatchingIsInvisible(
      counts: seq<nat>, limits: Limits, input: seq<Input>, cuts: seq<nat>, batches: seq<seq<Input>>, starts: seq<nat>,
      embed: Embedder, own: Text -> Raw, i: nat)
    requires |counts| == |input| && IsSplit(counts, limits, cuts) && BatchesAt(input, cuts, batches, starts)
    requires AllAnswered(embed, batches) && i < |input|
    requires forall texts, k :: embed(texts).Some? && 0 <= k < |texts| == |embed(texts).value| ==> embed(texts).value[k] == own(texts[k])
    ensures |AllRaws(embed, batches)| == |input| && AllRaws(embed, batches)[i] == own(input[i].text)
  {
    var raws := AllRaws(embed, batches);
    AnswersLieAtCuts(input, cuts, batches, starts, embed, |batches|);
    assert batches[..|batches|] == batches;
    var k := BatchOf(counts, limits, cuts, i);
    assert BatchAt(input, cuts, batches, starts, k);
    var o := i - cuts[k];
    AnswerLiesAt(input, cuts, batches, starts, embed, raws, k, o);
    var texts := Texts(batches[k]);
    assert texts[o] == input[i].text && embed(texts).value[o] == own(texts[o]);
  }

  lemma BatchOf(counts: seq<nat>, limits: Limits, cuts: seq<nat>, i: nat) returns (k: nat)
    requires IsSplit(counts, limits, cuts) && i < |counts|
    ensures k < |cuts| - 1 && cuts[k] <= i < cuts[k + 1]
  {
    k := 0;
    while cuts[k + 1] <= i
      invariant k < |cuts| - 1 && cuts[k] <= i
      decreases |cuts| - k
    {
      k := k + 1;
    }
  }
}
