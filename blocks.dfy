/** The block scorer (`find_contiguous_blocks`): score every circular run of
    `blockSize` consecutive pockets by the probabilities of the pockets it
    holds, sort the 37 runs by score, highest first and stably, and return
    the pocket numbers of the first `numBlocks` of them.

    The scan and the ranking are stated for any wheel order `w`; the
    operation itself runs on `Wheel.Sequence`. */
module BlockScorer {
  import Wheel
  import Ranking
  import opened IndexErrors

  /** `num_blocks` and `block_size` as the request handler passes them. */
  const HandlerNumBlocks: nat := 3
  const HandlerBlockSize: nat := 5

  /** One entry of `block_scores`: a block's pocket numbers and its score. */
  datatype Candidate = Candidate(numbers: seq<int>, score: real)

  function Min(a: nat, b: nat): nat {
    if a <= b then a else b
  }

  /** Scoring `number` reads no probability past the end of the array:
      either the range guard skips it or the array covers it. */
  predicate Readable(probabilities: seq<real>, number: int) {
    0 <= number <= 36 ==> number < |probabilities|
  }

  /** Scoring `numbers` reads no probability past the end of the array. */
  predicate Indexable(probabilities: seq<real>, numbers: seq<int>) {
    forall k | 0 <= k < |numbers| :: Readable(probabilities, numbers[k])
  }

  /** The first wheel index from `m` on whose pocket's probability cannot be
      read, or 37 when there is none. */
  function FirstUnreadable(w: seq<int>, probabilities: seq<real>, m: nat): (r: nat)
    requires |w| == Wheel.Size && m <= Wheel.Size
    ensures m <= r <= Wheel.Size
    ensures forall k | m <= k < r :: Readable(probabilities, w[k])
    ensures r < Wheel.Size ==> !Readable(probabilities, w[r])
    decreases Wheel.Size - m
  {
    if m == Wheel.Size then Wheel.Size
    else if !Readable(probabilities, w[m]) then m
    else FirstUnreadable(w, probabilities, m + 1)
  }

  /** The scan reads past the end of the probability array: every block is
      non-empty, so every pocket is read, and pocket 36 is not covered. */
  predicate Raises(probabilities: seq<real>, blockSize: nat) {
    blockSize > 0 && |probabilities| < Wheel.Size
  }

  /** What one number adds to its block's score: its probability, behind the
      range guard `0 <= number <= 36`. */
  function Weight(probabilities: seq<real>, number: int): real
    requires Readable(probabilities, number)
  {
    if 0 <= number <= 36 then probabilities[number] else 0.0
  }

  /** The score accumulated over `numbers` from left to right, starting at 0. */
  function Score(probabilities: seq<real>, numbers: seq<int>): real
    requires Indexable(probabilities, numbers)
  {
    if numbers == [] then 0.0
    else
      var init := numbers[..|numbers| - 1];
      assert forall k | 0 <= k < |init| :: init[k] == numbers[k];
      Score(probabilities, init) + Weight(probabilities, numbers[|numbers| - 1])
  }

  /** `block_scores` after a scan that does not raise: entry `s` is the block
      that starts at wheel index `s`. */
  function Candidates(w: seq<int>, probabilities: seq<real>, blockSize: nat): (cs: seq<Candidate>)
    requires |w| == Wheel.Size && !Raises(probabilities, blockSize)
    ensures |cs| == Wheel.Size
    ensures forall s | 0 <= s < Wheel.Size :: Indexable(probabilities, Wheel.Span(w, s, blockSize))
  {
    seq(Wheel.Size, s requires 0 <= s < Wheel.Size =>
      Candidate(Wheel.Span(w, s, blockSize), Score(probabilities, Wheel.Span(w, s, blockSize))))
  }

  /** The sort key of each candidate, by position. */
  function Scores(cs: seq<Candidate>): (keys: seq<real>)
    ensures |keys| == |cs|
  {
    seq(|cs|, j requires 0 <= j < |cs| => cs[j].score)
  }

  /** `sorted(block_scores, key=lambda x: x['score'], reverse=True)`: the
      candidates listed in the stable descending order of their scores. */
  function SortByScore(cs: seq<Candidate>): (sorted: seq<Candidate>)
    ensures |sorted| == |cs|
  {
    var order := Ranking.Order(Scores(cs));
    seq(|cs|, k requires 0 <= k < |cs| => cs[order[k]])
  }

  /** The blocks `find_contiguous_blocks` returns when the scan does not raise. */
  function TopBlocks(w: seq<int>, probabilities: seq<real>, numBlocks: nat, blockSize: nat): seq<seq<int>>
    requires |w| == Wheel.Size && !Raises(probabilities, blockSize)
  {
    var sorted := SortByScore(Candidates(w, probabilities, blockSize));
    seq(Min(numBlocks, |sorted|), k requires 0 <= k < Min(numBlocks, |sorted|) => sorted[k].numbers)
  }

  /** The wheel indices at which the returned blocks start, in returned order. */
  ghost function TopStarts(w: seq<int>, probabilities: seq<real>, numBlocks: nat, blockSize: nat): seq<nat>
    requires |w| == Wheel.Size && !Raises(probabilities, blockSize)
  {
    Ranking.Order(Scores(Candidates(w, probabilities, blockSize)))[..Min(numBlocks, Wheel.Size)]
  }

  /** The scan: for every start index build the block of `blockSize`
      consecutive pockets and add up its score. */
  method ScoreBlocks(w: seq<int>, probabilities: seq<real>, blockSize: nat) returns (r: Result<seq<Candidate>>)
    requires Wheel.IsWheel(w)
    ensures r.Ok? <==> !Raises(probabilities, blockSize)
    ensures r.Ok? ==> r.value == Candidates(w, probabilities, blockSize)
    ensures r.IndexOutOfRange? ==>
      && r.size == |probabilities| && Wheel.IsPocket(r.index) && r.index >= |probabilities|
      && FirstUnreadable(w, probabilities, 0) < Wheel.Size && r.index == w[FirstUnreadable(w, probabilities, 0)]
  {
    var blockScores: seq<Candidate> := [];
    var start := 0;
    while start < Wheel.Size
      invariant 0 <= start <= Wheel.Size && |blockScores| == start
      invariant forall s | 0 <= s < start ::
        Indexable(probabilities, Wheel.Span(w, s, blockSize)) &&
        blockScores[s] == Candidate(Wheel.Span(w, s, blockSize), Score(probabilities, Wheel.Span(w, s, blockSize)))
      invariant blockSize > 0 ==> forall s | 0 <= s < start :: Readable(probabilities, w[s])
    {
      var block, at := ScoreBlock(w, probabilities, start, blockSize);
      if block.IndexOutOfRange? {
        FirstFailure(w, probabilities, start, at);
        return IndexOutOfRange(block.index, block.size);
      }
      SpanWithin(w, start, blockSize, probabilities);
      blockScores := blockScores + [block.value];
      start := start + 1;
    }
    ScanComplete(w, probabilities, blockSize, blockScores);
    r := Ok(blockScores);
  }

  /** One pass of the scan: the block of `blockSize` pockets from wheel index
      `start` on and its score, reading the probability of each in-range
      pocket; the first read past the end of the array interrupts it. */
  method ScoreBlock(w: seq<int>, probabilities: seq<real>, start: nat, blockSize: nat)
    returns (r: Result<Candidate>, ghost at: nat)
    requires |w| == Wheel.Size && forall a | 0 <= a < |w| :: Wheel.IsPocket(w[a])
    ensures r.Ok? <==> Indexable(probabilities, Wheel.Span(w, start, blockSize))
    ensures r.Ok? ==>
      r.value == Candidate(Wheel.Span(w, start, blockSize), Score(probabilities, Wheel.Span(w, start, blockSize)))
    ensures r.IndexOutOfRange? ==>
      && r.size == |probabilities| && Wheel.IsPocket(r.index) && r.index >= |probabilities|
      && at < blockSize && r.index == w[(start + at) % Wheel.Size]
      && Indexable(probabilities, Wheel.Span(w, start, at))
  {
    at := 0;
    var numbers: seq<int> := [];
    var score: real := 0.0;
    var i := 0;
    while i < blockSize
      invariant 0 <= i <= blockSize
      invariant numbers == Wheel.Span(w, start, i)
      invariant Indexable(probabilities, numbers)
      invariant score == Score(probabilities, numbers)
    {
      var wheelIndex := (start + i) % Wheel.Size;
      var number := w[wheelIndex];
      numbers := numbers + [number];
      if 0 <= number <= 36 && number >= |probabilities| {
        SpanReads(w, probabilities, start, i, blockSize);
        return IndexOutOfRange(number, |probabilities|), i;
      }
      ScoreStep(w, probabilities, start, i);
      if 0 <= number <= 36 {
        score := score + probabilities[number];
      }
      i := i + 1;
    }
    r := Ok(Candidate(numbers, score));
  }

  /** `find_contiguous_blocks(probabilities, num_blocks, block_size)` on the
      European wheel: the top `numBlocks` blocks, or the out-of-bounds read
      that interrupts the scan when fewer than 37 probabilities are given. */
  method FindContiguousBlocks(probabilities: seq<real>, numBlocks: nat, blockSize: nat)
    returns (r: Result<seq<seq<int>>>)
    ensures r.Ok? <==> !Raises(probabilities, blockSize)
    ensures r.Ok? ==> r.value == TopBlocks(Wheel.Sequence, probabilities, numBlocks, blockSize)
    ensures r.Ok? ==> |r.value| == Min(numBlocks, Wheel.Size)
    ensures r.Ok? ==> forall k | 0 <= k < |r.value| :: |r.value[k]| == blockSize
    ensures r.IndexOutOfRange? ==>
      && r.size == |probabilities| && Wheel.IsPocket(r.index) && r.index >= |probabilities|
      && FirstUnreadable(Wheel.Sequence, probabilities, 0) < Wheel.Size
      && r.index == Wheel.Sequence[FirstUnreadable(Wheel.Sequence, probabilities, 0)]
  {
    Wheel.WheelIsPermutation();
    var scanned := ScoreBlocks(Wheel.Sequence, probabilities, blockSize);
    if scanned.IndexOutOfRange? {
      return IndexOutOfRange(scanned.index, scanned.size);
    }
    var sorted := SortByScore(scanned.value);
    r := Ok(seq(Min(numBlocks, |sorted|), k requires 0 <= k < Min(numBlocks, |sorted|) => sorted[k].numbers));
  }

  /** Growing a span by the next pocket on the wheel adds that pocket's
      weight to its score. */
  lemma ScoreStep(w: seq<int>, probabilities: seq<real>, start: nat, size: nat)
    requires |w| == Wheel.Size && Indexable(probabilities, Wheel.Span(w, start, size))
    requires Readable(probabilities, w[(start + size) % Wheel.Size])
    ensures Wheel.Span(w, start, size + 1) == Wheel.Span(w, start, size) + [w[(start + size) % Wheel.Size]]
    ensures Indexable(probabilities, Wheel.Span(w, start, size + 1))
    ensures Score(probabilities, Wheel.Span(w, start, size + 1)) ==
      Score(probabilities, Wheel.Span(w, start, size)) + Weight(probabilities, w[(start + size) % Wheel.Size])
  {
    var s := Wheel.Span(w, start, size + 1);
    Wheel.SpanExtend(w, start, size);
    assert s[..|s| - 1] == Wheel.Span(w, start, size);
  }

  /** A block holding a pocket whose probability cannot be read is not
      indexable. */
  lemma SpanReads(w: seq<int>, probabilities: seq<real>, start: nat, i: nat, blockSize: nat)
    requires |w| == Wheel.Size && i < blockSize
    requires !Readable(probabilities, w[(start + i) % Wheel.Size])
    ensures !Indexable(probabilities, Wheel.Span(w, start, blockSize))
  {
    assert Wheel.Span(w, start, blockSize)[i] == w[(start + i) % Wheel.Size];
  }

  /** A scan that visited every start index without raising read every
      pocket, so it did not raise because pocket 36 was covered, and it
      built exactly the candidate list. */
  lemma ScanComplete(w: seq<int>, probabilities: seq<real>, blockSize: nat, blockScores: seq<Candidate>)
    requires Wheel.IsWheel(w) && |blockScores| == Wheel.Size
    requires forall s | 0 <= s < Wheel.Size ::
      Indexable(probabilities, Wheel.Span(w, s, blockSize)) &&
      blockScores[s] == Candidate(Wheel.Span(w, s, blockSize), Score(probabilities, Wheel.Span(w, s, blockSize)))
    requires blockSize > 0 ==> forall s | 0 <= s < Wheel.Size :: Readable(probabilities, w[s])
    ensures !Raises(probabilities, blockSize)
    ensures blockScores == Candidates(w, probabilities, blockSize)
  {
    if blockSize > 0 {
      Wheel.WheelCoversPockets(w);
      assert 36 in w;
    }
  }

  /** The scan reads the pockets in wheel order, each once before it wraps
      round: when the block from `start` fails at its entry `at` after every
      earlier pocket was read, that entry is the first unreadable pocket on
      the wheel. */
  lemma FirstFailure(w: seq<int>, probabilities: seq<real>, start: nat, at: nat)
    requires |w| == Wheel.Size && start < Wheel.Size
    requires forall s | 0 <= s < start :: Readable(probabilities, w[s])
    requires Indexable(probabilities, Wheel.Span(w, start, at))
    requires !Readable(probabilities, w[(start + at) % Wheel.Size])
    ensures FirstUnreadable(w, probabilities, 0) == (start + at) % Wheel.Size
  {
    var span, m := Wheel.Span(w, start, at), (start + at) % Wheel.Size;
    forall k | 0 <= k < Wheel.Size && (k < m || start + at >= Wheel.Size)
      ensures Readable(probabilities, w[k])
    {
      if k >= start {
        var j := k - start;
        assert j < at && (start + j) % Wheel.Size == k;
        assert span[j] == w[k];
      }
    }
    var r := FirstUnreadable(w, probabilities, 0);
    assert !(r < m);
  }

  /** When the scan raises, some pocket of a wheel order is unreadable:
      pocket 36 lies somewhere on the wheel and the array does not reach it. */
  lemma RaisingHasCulprit(w: seq<int>, probabilities: seq<real>, blockSize: nat)
    requires Wheel.IsWheel(w) && Raises(probabilities, blockSize)
    ensures FirstUnreadable(w, probabilities, 0) < Wheel.Size
  {
    Wheel.WheelCoversPockets(w);
    assert 36 in w;
    var k :| 0 <= k < |w| && w[k] == 36;
    assert !Readable(probabilities, w[k]);
  }

  /** A span's first entry is the pocket at its start index. */
  lemma SpanWithin(w: seq<int>, start: nat, blockSize: nat, probabilities: seq<real>)
    requires Wheel.IsWheel(w) && start < Wheel.Size
    requires blockSize > 0 ==> Indexable(probabilities, Wheel.Span(w, start, blockSize))
    ensures blockSize > 0 ==> Readable(probabilities, w[start])
  {
    if blockSize > 0 {
      assert Wheel.Span(w, start, blockSize)[0] == w[start];
    }
  }

  /** Each returned block is the span that starts at its wheel index, and the
      start indices of the returned blocks are distinct wheel indices. */
  lemma TopBlocksAreSpans(w: seq<int>, probabilities: seq<real>, numBlocks: nat, blockSize: nat)
    requires |w| == Wheel.Size && !Raises(probabilities, blockSize)
    ensures |TopBlocks(w, probabilities, numBlocks, blockSize)| == Min(numBlocks, Wheel.Size)
    ensures |TopStarts(w, probabilities, numBlocks, blockSize)| == Min(numBlocks, Wheel.Size)
    ensures forall k | 0 <= k < Min(numBlocks, Wheel.Size) ::
      TopStarts(w, probabilities, numBlocks, blockSize)[k] < Wheel.Size &&
      TopBlocks(w, probabilities, numBlocks, blockSize)[k] ==
        Wheel.Span(w, TopStarts(w, probabilities, numBlocks, blockSize)[k], blockSize)
    ensures forall a, b | 0 <= a < b < Min(numBlocks, Wheel.Size) ::
      TopStarts(w, probabilities, numBlocks, blockSize)[a] != TopStarts(w, probabilities, numBlocks, blockSize)[b]
  {
    var keys := Scores(Candidates(w, probabilities, blockSize));
    Ranking.OrderIsRanking(keys);
    var starts := TopStarts(w, probabilities, numBlocks, blockSize);
    forall a, b | 0 <= a < b < |starts|
      ensures starts[a] != starts[b]
    {
      assert Ranking.Before(keys, starts[a], starts[b]);
    }
  }

  /** On a wheel order, every returned block holds `blockSize` pocket
      numbers, repeats none of them when it is no longer than the wheel, and
      lists neighbours on the wheel: the first sits at the block's start
      index and each next one one place further round. */
  lemma TopBlocksContiguous(w: seq<int>, probabilities: seq<real>, numBlocks: nat, blockSize: nat)
    requires Wheel.IsWheel(w) && !Raises(probabilities, blockSize)
    ensures |TopStarts(w, probabilities, numBlocks, blockSize)| == |TopBlocks(w, probabilities, numBlocks, blockSize)|
    ensures forall k | 0 <= k < |TopBlocks(w, probabilities, numBlocks, blockSize)| ::
      IsBlock(w, TopBlocks(w, probabilities, numBlocks, blockSize)[k],
        TopStarts(w, probabilities, numBlocks, blockSize)[k], blockSize)
  {
    TopBlocksAreSpans(w, probabilities, numBlocks, blockSize);
    var starts := TopStarts(w, probabilities, numBlocks, blockSize);
    forall k | 0 <= k < |TopBlocks(w, probabilities, numBlocks, blockSize)|
      ensures IsBlock(w, TopBlocks(w, probabilities, numBlocks, blockSize)[k], starts[k], blockSize)
    {
      SpanIsBlock(w, starts[k], blockSize);
    }
  }

  /** The returned blocks, seen without their start indices: runs of
      `blockSize` pockets, none repeated when no longer than the wheel, each
      pocket the wheel neighbour of the one before it. */
  lemma TopBlocksAreRuns(w: seq<int>, probabilities: seq<real>, numBlocks: nat, blockSize: nat)
    requires Wheel.IsWheel(w) && !Raises(probabilities, blockSize)
    ensures var blocks := TopBlocks(w, probabilities, numBlocks, blockSize);
      && |blocks| == Min(numBlocks, Wheel.Size)
      && forall k | 0 <= k < |blocks| ::
        && |blocks[k]| == blockSize && (blockSize <= Wheel.Size ==> Wheel.Distinct(blocks[k]))
        && (forall i | 0 <= i < |blocks[k]| :: Wheel.IsPocket(blocks[k][i]))
        && Wheel.IsRun(w, blocks[k])
  {
    var blocks := TopBlocks(w, probabilities, numBlocks, blockSize);
    TopBlocksAreSpans(w, probabilities, numBlocks, blockSize);
    TopBlocksContiguous(w, probabilities, numBlocks, blockSize);
    var starts := TopStarts(w, probabilities, numBlocks, blockSize);
    forall k | 0 <= k < |blocks|
      ensures Wheel.IsRun(w, blocks[k])
    {
      Wheel.SpanContiguous(w, starts[k], blockSize);
    }
  }

  /** `block` holds `blockSize` pocket numbers, none twice when it is no
      longer than the wheel, and its entry `i` sits at wheel index
      `(start + i) % 37`. */
  ghost predicate IsBlock(w: seq<int>, block: seq<int>, start: nat, blockSize: nat) {
    && |block| == blockSize
    && (forall i | 0 <= i < blockSize :: Wheel.IsPocket(block[i]))
    && (blockSize <= Wheel.Size ==> Wheel.Distinct(block))
    && (forall i | 0 <= i < blockSize ::
          block[i] in Wheel.IndexMapOf(w) && Wheel.IndexMapOf(w)[block[i]] == (start + i) % Wheel.Size)
  }

  lemma SpanIsBlock(w: seq<int>, start: nat, blockSize: nat)
    requires Wheel.IsWheel(w)
    ensures IsBlock(w, Wheel.Span(w, start, blockSize), start, blockSize)
  {
    Wheel.IndexMapOfDistinct(w);
    Wheel.SpanHoldsPockets(w, start, blockSize);
    if blockSize <= Wheel.Size {
      Wheel.SpanDistinct(w, start, blockSize);
    }
    Wheel.SpanPlaces(w, Wheel.IndexMapOf(w), start, blockSize);
  }

  /** The returned blocks come in non-increasing score order, and blocks with
      equal scores come in increasing order of their start index. */
  lemma TopBlocksRanked(w: seq<int>, probabilities: seq<real>, numBlocks: nat, blockSize: nat)
    requires |w| == Wheel.Size && !Raises(probabilities, blockSize)
    ensures |TopStarts(w, probabilities, numBlocks, blockSize)| == |TopBlocks(w, probabilities, numBlocks, blockSize)|
    ensures forall k | 0 <= k < |TopBlocks(w, probabilities, numBlocks, blockSize)| ::
      Indexable(probabilities, TopBlocks(w, probabilities, numBlocks, blockSize)[k])
    ensures forall a, b | 0 <= a < b < |TopBlocks(w, probabilities, numBlocks, blockSize)| ::
      var top, starts := TopBlocks(w, probabilities, numBlocks, blockSize), TopStarts(w, probabilities, numBlocks, blockSize);
      Score(probabilities, top[a]) > Score(probabilities, top[b]) ||
      (Score(probabilities, top[a]) == Score(probabilities, top[b]) && starts[a] < starts[b])
  {
    var keys := Scores(Candidates(w, probabilities, blockSize));
    Ranking.OrderIsRanking(keys);
    TopBlocksAreSpans(w, probabilities, numBlocks, blockSize);
    var top, starts := TopBlocks(w, probabilities, numBlocks, blockSize), TopStarts(w, probabilities, numBlocks, blockSize);
    forall a, b | 0 <= a < b < |top|
      ensures Score(probabilities, top[a]) > Score(probabilities, top[b]) ||
        (Score(probabilities, top[a]) == Score(probabilities, top[b]) && starts[a] < starts[b])
    {
      assert Ranking.Before(keys, starts[a], starts[b]);
    }
  }

  /** No block left out scores higher than a block returned. */
  lemma TopBlocksDominate(w: seq<int>, probabilities: seq<real>, numBlocks: nat, blockSize: nat)
    requires |w| == Wheel.Size && !Raises(probabilities, blockSize)
    ensures forall k | 0 <= k < |TopBlocks(w, probabilities, numBlocks, blockSize)| ::
      Indexable(probabilities, TopBlocks(w, probabilities, numBlocks, blockSize)[k])
    ensures forall k, s | 0 <= k < |TopBlocks(w, probabilities, numBlocks, blockSize)| && 0 <= s < Wheel.Size &&
        s !in TopStarts(w, probabilities, numBlocks, blockSize) ::
      Score(probabilities, TopBlocks(w, probabilities, numBlocks, blockSize)[k]) >=
        Score(probabilities, Wheel.Span(w, s, blockSize))
  {
    var keys := Scores(Candidates(w, probabilities, blockSize));
    var order := Ranking.Order(keys);
    Ranking.OrderIsRanking(keys);
    TopBlocksAreSpans(w, probabilities, numBlocks, blockSize);
    var top, starts := TopBlocks(w, probabilities, numBlocks, blockSize), TopStarts(w, probabilities, numBlocks, blockSize);
    forall k, s | 0 <= k < |top| && 0 <= s < Wheel.Size && s !in starts
      ensures Score(probabilities, top[k]) >= Score(probabilities, Wheel.Span(w, s, blockSize))
    {
      assert s in order;
      var j :| 0 <= j < |order| && order[j] == s;
      assert Ranking.Before(keys, order[k], order[j]);
    }
  }

  /** The plain sum of the probabilities of `numbers`, first number first. */
  function ProbabilitySum(probabilities: seq<real>, numbers: seq<int>): real
    requires forall k | 0 <= k < |numbers| :: 0 <= numbers[k] < |probabilities|
  {
    if numbers == [] then 0.0
    else probabilities[numbers[0]] + ProbabilitySum(probabilities, numbers[1..])
  }

  /** On numbers that are all pockets the range guard never skips one: the
      score is the plain sum of their probabilities. */
  lemma {:induction false} ScoreIsSum(probabilities: seq<real>, numbers: seq<int>)
    requires forall k | 0 <= k < |numbers| :: 0 <= numbers[k] <= 36 && numbers[k] < |probabilities|
    ensures Indexable(probabilities, numbers)
    ensures Score(probabilities, numbers) == ProbabilitySum(probabilities, numbers)
  {
    if numbers != [] {
      var init, last := numbers[..|numbers| - 1], numbers[|numbers| - 1];
      ScoreIsSum(probabilities, init);
      SumAppend(probabilities, init, last);
      assert init + [last] == numbers;
    }
  }

  lemma {:induction false} SumAppend(probabilities: seq<real>, numbers: seq<int>, x: int)
    requires forall k | 0 <= k < |numbers| :: 0 <= numbers[k] < |probabilities|
    requires 0 <= x < |probabilities|
    ensures forall k | 0 <= k < |numbers + [x]| :: 0 <= (numbers + [x])[k] < |probabilities|
    ensures ProbabilitySum(probabilities, numbers + [x]) == ProbabilitySum(probabilities, numbers) + probabilities[x]
  {
    if numbers != [] {
      assert (numbers + [x])[1..] == numbers[1..] + [x];
      SumAppend(probabilities, numbers[1..], x);
    }
  }

  /** Every candidate's score is the sum of the probabilities of its pockets. */
  lemma CandidateScoresAreSums(w: seq<int>, probabilities: seq<real>, blockSize: nat)
    requires Wheel.IsWheel(w) && !Raises(probabilities, blockSize)
    ensures forall s | 0 <= s < Wheel.Size ::
      (forall k | 0 <= k < blockSize :: 0 <= Wheel.Span(w, s, blockSize)[k] < |probabilities|) &&
      Candidates(w, probabilities, blockSize)[s].score == ProbabilitySum(probabilities, Wheel.Span(w, s, blockSize))
  {
    forall s | 0 <= s < Wheel.Size
      ensures forall k | 0 <= k < blockSize :: 0 <= Wheel.Span(w, s, blockSize)[k] < |probabilities|
      ensures Candidates(w, probabilities, blockSize)[s].score == ProbabilitySum(probabilities, Wheel.Span(w, s, blockSize))
    {
      Wheel.SpanHoldsPockets(w, s, blockSize);
      ScoreIsSum(probabilities, Wheel.Span(w, s, blockSize));
    }
  }

  /** When every pocket has the same probability every block has the same
      score, and the stable sort keeps the scan order: the blocks starting at
      wheel indices 0, 1, 2, ... come back. */
  lemma UniformKeepsScanOrder(w: seq<int>, probabilities: seq<real>, numBlocks: nat, blockSize: nat, p: real)
    requires Wheel.IsWheel(w) && |probabilities| >= Wheel.Size
    requires forall n | Wheel.IsPocket(n) :: probabilities[n] == p
    ensures TopBlocks(w, probabilities, numBlocks, blockSize) ==
      seq(Min(numBlocks, Wheel.Size), k requires 0 <= k < Min(numBlocks, Wheel.Size) => Wheel.Span(w, k, blockSize))
  {
    var keys := Scores(Candidates(w, probabilities, blockSize));
    UniformScores(w, probabilities, blockSize, p);
    var scan := Ranking.Positions(0, Wheel.Size);
    Ranking.TiesKeepPositions(keys);
    Ranking.OrderIsRanking(keys);
    Ranking.RankingUnique(keys, Ranking.Order(keys), scan);
  }

  lemma UniformScores(w: seq<int>, probabilities: seq<real>, blockSize: nat, p: real)
    requires Wheel.IsWheel(w) && |probabilities| >= Wheel.Size
    requires forall n | Wheel.IsPocket(n) :: probabilities[n] == p
    ensures forall s | 0 <= s < Wheel.Size :: Scores(Candidates(w, probabilities, blockSize))[s] == blockSize as real * p
  {
    forall s | 0 <= s < Wheel.Size
      ensures Candidates(w, probabilities, blockSize)[s].score == blockSize as real * p
    {
      Wheel.SpanHoldsPockets(w, s, blockSize);
      ScoreUniform(probabilities, Wheel.Span(w, s, blockSize), p);
    }
  }

  lemma {:induction false} ScoreUniform(probabilities: seq<real>, numbers: seq<int>, p: real)
    requires |probabilities| >= Wheel.Size
    requires forall n | Wheel.IsPocket(n) :: probabilities[n] == p
    requires forall k | 0 <= k < |numbers| :: Wheel.IsPocket(numbers[k])
    ensures Indexable(probabilities, numbers)
    ensures Score(probabilities, numbers) == |numbers| as real * p
  {
    if numbers != [] {
      ScoreUniform(probabilities, numbers[..|numbers| - 1], p);
    }
  }

  /** A model certain of zero (probability 1 on pocket 0, 0 on every other
      pocket) gets back, from the handler's call, the block starting at zero
      and then the two blocks that end on zero and on the pocket after it. */
  lemma CertainOfZero(probabilities: seq<real>)
    requires |probabilities| >= Wheel.Size && probabilities[0] == 1.0
    requires forall n | 1 <= n < Wheel.Size :: probabilities[n] == 0.0
    ensures TopBlocks(Wheel.Sequence, probabilities, HandlerNumBlocks, HandlerBlockSize) ==
      [[0, 32, 15, 19, 4], [12, 35, 3, 26, 0], [35, 3, 26, 0, 32]]
  {
    Wheel.WheelIsPermutation();
    CertainTop(Wheel.Sequence, probabilities);
    EuropeanAroundZero();
    SpansAroundZero(Wheel.Sequence);
  }

  /** The pockets either side of zero on the European wheel. */
  lemma EuropeanAroundZero()
    ensures Wheel.Sequence[0] == 0 && Wheel.Sequence[1] == 32 && Wheel.Sequence[2] == 15
    ensures Wheel.Sequence[3] == 19 && Wheel.Sequence[4] == 4
    ensures Wheel.Sequence[33] == 12 && Wheel.Sequence[34] == 35
    ensures Wheel.Sequence[35] == 3 && Wheel.Sequence[36] == 26
  {
  }

  /** The three blocks of five that start at wheel indices 0, 33 and 34 of
      a wheel laid out like the European one around zero. */
  lemma SpansAroundZero(w: seq<int>)
    requires |w| == Wheel.Size && w[0] == 0 && w[1] == 32 && w[2] == 15 && w[3] == 19 && w[4] == 4
    requires w[33] == 12 && w[34] == 35 && w[35] == 3 && w[36] == 26
    ensures Wheel.Span(w, 0, 5) == [0, 32, 15, 19, 4]
    ensures Wheel.Span(w, 33, 5) == [12, 35, 3, 26, 0]
    ensures Wheel.Span(w, 34, 5) == [35, 3, 26, 0, 32]
  {
    assert Wheel.Span(w, 0, 5) == [w[0], w[1], w[2], w[3], w[4]];
    assert Wheel.Span(w, 33, 5) == [w[33], w[34], w[35], w[36], w[0]];
    assert Wheel.Span(w, 34, 5) == [w[34], w[35], w[36], w[0], w[1]];
  }

  /** On any wheel order that starts at zero, a model certain of zero gets
      back the blocks starting at wheel indices 0, 33 and 34: the five
      blocks holding zero score 1, the rest 0, and ties keep scan order. */
  lemma CertainTop(w: seq<int>, probabilities: seq<real>)
    requires Wheel.IsWheel(w) && w[0] == 0
    requires |probabilities| >= Wheel.Size && probabilities[0] == 1.0
    requires forall n | 1 <= n < Wheel.Size :: probabilities[n] == 0.0
    ensures TopBlocks(w, probabilities, HandlerNumBlocks, HandlerBlockSize) ==
      [Wheel.Span(w, 0, 5), Wheel.Span(w, 33, 5), Wheel.Span(w, 34, 5)]
  {
    var keys := Scores(Candidates(w, probabilities, HandlerBlockSize));
    forall s | 0 <= s < Wheel.Size
      ensures keys[s] == if s == 0 || s >= 33 then 1.0 else 0.0
    {
      var span := Wheel.Span(w, s, 5);
      Wheel.SpanHoldsPockets(w, s, 5);
      Wheel.SpanDistinct(w, s, 5);
      ScoreIndicator(probabilities, span);
      ZeroInSpan(w, s);
    }
    var order := [0, 33, 34, 35, 36] + Ranking.Positions(1, 33);
    IndicatorRanking(keys, order);
    Ranking.OrderIsRanking(keys);
    Ranking.RankingUnique(keys, Ranking.Order(keys), order);
  }

  /** A score over distinct pockets, with probability 1 on zero and 0
      elsewhere, is 1 exactly when zero is among them. */
  lemma {:induction false} ScoreIndicator(probabilities: seq<real>, numbers: seq<int>)
    requires |probabilities| >= Wheel.Size && probabilities[0] == 1.0
    requires forall n | 1 <= n < Wheel.Size :: probabilities[n] == 0.0
    requires forall k | 0 <= k < |numbers| :: Wheel.IsPocket(numbers[k])
    requires Wheel.Distinct(numbers)
    ensures Indexable(probabilities, numbers)
    ensures Score(probabilities, numbers) == if 0 in numbers then 1.0 else 0.0
  {
    if numbers != [] {
      var init, last := numbers[..|numbers| - 1], numbers[|numbers| - 1];
      assert Wheel.Distinct(init);
      ScoreIndicator(probabilities, init);
      assert numbers == init + [last];
    }
  }

  /** Zero lies in the block of five from wheel index `s` exactly when the
      block starts at zero or wraps round onto it. */
  lemma ZeroInSpan(w: seq<int>, s: nat)
    requires Wheel.IsWheel(w) && w[0] == 0 && s < Wheel.Size
    ensures 0 in Wheel.Span(w, s, 5) <==> s == 0 || s >= 33
  {
    var span := Wheel.Span(w, s, 5);
    if s == 0 {
      assert span[0] == 0;
    } else if s >= 33 {
      assert span[37 - s] == w[0];
    } else {
      forall i | 0 <= i < 5
        ensures span[i] != 0
      {
        assert span[i] == w[s + i] && 0 < s + i < Wheel.Size;
        assert w[0] != w[s + i];
      }
    }
  }

  /** With key 1 at positions 0 and 33..36 and key 0 elsewhere, the ranking
      lists 0, 33, 34, 35, 36 and then 1..32. */
  lemma IndicatorRanking(keys: seq<real>, order: seq<nat>)
    requires |keys| == Wheel.Size
    requires forall s | 0 <= s < Wheel.Size :: keys[s] == if s == 0 || s >= 33 then 1.0 else 0.0
    requires order == [0, 33, 34, 35, 36] + Ranking.Positions(1, 33)
    ensures Ranking.IsRanking(keys, order)
  {
    assert forall a | 5 <= a < |order| :: order[a] == a - 4;
    forall j | 0 <= j < Wheel.Size
      ensures j in order
    {
      if 1 <= j < 33 {
        assert order[j + 4] == j;
      } else if j == 0 {
        assert order[0] == j;
      } else {
        assert order[j - 33 + 1] == j;
      }
    }
    forall a, b | 0 <= a < b < |order|
      ensures Ranking.Before(keys, order[a], order[b])
    {
    }
  }
}
