/** The crossword builder of src/crossword.rs: words sorted longest first, the first laid
    Across at the origin, every later one placed against the words already laid, choosing among
    candidate positions in an order given by a shuffle. */
module Crossword {
  import opened Wrappers

  datatype Direction = Across | Down

  datatype Position = Position(x: int, y: int)

  /** `Position::default()`. */
  const Origin := Position(0, 0)

  datatype Word = Word(answer: string, clue: string, direction: Direction, position: Position)

  datatype Crossword = Crossword(words: seq<Word>)

  /** An (answer, clue) pair as given to the builder. */
  type Pair = (string, string)

  /** A candidate (direction, position) for the word being placed. */
  datatype Placement = Placement(direction: Direction, position: Position)

  /** The (position, direction, length) triple that `intersect_words` compares. */
  datatype Span = Span(position: Position, direction: Direction, length: nat)

  function SpanOf(w: Word): Span
  {
    Span(w.position, w.direction, |w.answer|)
  }

  /** The cell `k` steps from `p` in direction `d`. */
  function Step(p: Position, d: Direction, k: int): Position
  {
    match d
    case Across => Position(p.x + k, p.y)
    case Down => Position(p.x, p.y + k)
  }

  /** The cell holding letter `k` of word `w`. */
  function Cell(w: Word, k: int): Position
  {
    Step(w.position, w.direction, k)
  }

  // ---------------------------------------------------------------- intersect_words

  /** `intersect_words`: the collision test between a word being placed (`a`) and a word
      already laid (`b`). Every upper bound is inclusive of `length`. */
  function IntersectWords(a: Span, b: Span): bool
  {
    match (a.direction, b.direction)
    case (Across, Down) =>
      a.position.x <= b.position.x <= a.position.x + a.length
      && b.position.y <= a.position.y <= b.position.y + b.length
    case (Down, Across) =>
      b.position.x <= a.position.x <= b.position.x + b.length
      && a.position.y <= b.position.y <= a.position.y + a.length
    case (Across, Across) =>
      a.position.y == b.position.y && a.position.x <= b.position.x <= a.position.x + a.length
    case (Down, Down) =>
      a.position.x == b.position.x && a.position.y <= b.position.y <= a.position.y + a.length
  }

  /** What the test detects: for words in one direction, that `b` starts on one of the
      `a.length + 1` cells from `a`'s start; for perpendicular words, that the two runs of
      `length + 1` cells from each start share a cell. */
  lemma IntersectMeaning(a: Span, b: Span)
    ensures a.direction == b.direction ==>
      (IntersectWords(a, b) <==>
        exists k :: 0 <= k <= a.length && Step(a.position, a.direction, k) == b.position)
    ensures a.direction != b.direction ==>
      (IntersectWords(a, b) <==>
        exists k, m :: 0 <= k <= a.length && 0 <= m <= b.length
                       && Step(a.position, a.direction, k) == Step(b.position, b.direction, m))
  {
    match (a.direction, b.direction)
    case (Across, Down) =>
      if IntersectWords(a, b) {
        var k, m := b.position.x - a.position.x, a.position.y - b.position.y;
        assert Step(a.position, a.direction, k) == Step(b.position, b.direction, m);
      }
    case (Down, Across) =>
      if IntersectWords(a, b) {
        var k, m := b.position.y - a.position.y, a.position.x - b.position.x;
        assert Step(a.position, a.direction, k) == Step(b.position, b.direction, m);
      }
    case (Across, Across) =>
      if IntersectWords(a, b) {
        assert Step(a.position, a.direction, b.position.x - a.position.x) == b.position;
      }
    case (Down, Down) =>
      if IntersectWords(a, b) {
        assert Step(a.position, a.direction, b.position.y - a.position.y) == b.position;
      }
  }

  /** For perpendicular words the test does not depend on the order of its arguments. */
  lemma IntersectPerpendicularSymmetric(a: Span, b: Span)
    requires a.direction != b.direction
    ensures IntersectWords(a, b) == IntersectWords(b, a)
  {
  }

  /** For words in one direction it does: a word starting inside `a` is detected, but `a`
      starting inside a longer word `b` is not. */
  lemma IntersectParallelAsymmetric()
    ensures IntersectWords(Span(Origin, Across, 3), Span(Position(2, 0), Across, 1))
    ensures !IntersectWords(Span(Position(2, 0), Across, 1), Span(Origin, Across, 3))
  {
  }

  /** The cell just past the end of `a` counts as a hit, for `b` in either direction. */
  lemma IntersectPastEnd(a: Span, d: Direction, length: nat)
    ensures IntersectWords(a, Span(Step(a.position, a.direction, a.length), d, length))
  {
  }

  // ---------------------------------------------------------------- candidate positions

  /** The position the code computes for the new word when letter `index` of its answer
      matches letter `existingIndex` of `existing`. */
  function CandidatePosition(existing: Word, existingIndex: int, index: int): Position
  {
    match existing.direction
    case Across => Position(existing.position.x + existingIndex, existing.position.y - index)
    case Down => Position(existing.position.x - index, existing.position.y + existingIndex)
  }

  /** The candidates from letter `existingIndex` of `existing`, over the letters of `answer`
      from `from` on. Both arms of the source's match produce `Down`. */
  function MatchesFrom(existing: Word, answer: string, existingIndex: nat, from: nat): (r: seq<Placement>)
    requires existingIndex < |existing.answer|
    decreases |answer| - from
    ensures forall c :: c in r <==>
      exists index :: from <= index < |answer| && answer[index] == existing.answer[existingIndex]
                      && c == Placement(Down, CandidatePosition(existing, existingIndex, index))
  {
    if from >= |answer| then []
    else
      (if answer[from] == existing.answer[existingIndex]
       then [Placement(Down, CandidatePosition(existing, existingIndex, from))]
       else [])
      + MatchesFrom(existing, answer, existingIndex, from + 1)
  }

  function CandidatesFrom(existing: Word, answer: string, existingIndex: nat): (r: seq<Placement>)
    decreases |existing.answer| - existingIndex
    ensures forall c :: c in r <==>
      exists e, index :: existingIndex <= e < |existing.answer| && 0 <= index < |answer|
                         && answer[index] == existing.answer[e]
                         && c == Placement(Down, CandidatePosition(existing, e, index))
  {
    if existingIndex >= |existing.answer| then []
    else
      (if existing.answer[existingIndex] in answer
       then MatchesFrom(existing, answer, existingIndex, 0)
       else [])
      + CandidatesFrom(existing, answer, existingIndex + 1)
  }

  /** Every (direction, position) the code generates for `answer` against `existing`: one per
      pair of equal letters, always `Down`. */
  function Candidates(existing: Word, answer: string): (r: seq<Placement>)
    ensures forall c :: c in r ==> c.direction == Down
    ensures forall c :: c in r <==>
      exists e, index :: 0 <= e < |existing.answer| && 0 <= index < |answer|
                         && answer[index] == existing.answer[e]
                         && c == Placement(Down, CandidatePosition(existing, e, index))
  {
    CandidatesFrom(existing, answer, 0)
  }

  /** Against an Across word, the new word read `index` cells down lands on exactly the cell
      of the letter it matched. */
  lemma AcrossCandidateCrosses(existing: Word, answer: string, clue: string, e: nat, index: nat)
    requires existing.direction == Across
    requires e < |existing.answer| && index < |answer| && answer[index] == existing.answer[e]
    ensures Placement(Down, CandidatePosition(existing, e, index)) in Candidates(existing, answer)
    ensures Cell(Word(answer, clue, Down, CandidatePosition(existing, e, index)), index) == Cell(existing, e)
  {
  }

  /** Against a Down word the new word also runs Down, shifted `index` columns to the left, so
      the matched letters share a cell only when `index` is 0. */
  lemma DownCandidateRunsParallel(existing: Word, answer: string, clue: string, e: nat, index: nat)
    requires existing.direction == Down
    requires e < |existing.answer| && index < |answer| && answer[index] == existing.answer[e]
    ensures Placement(Down, CandidatePosition(existing, e, index)) in Candidates(existing, answer)
    ensures Cell(Word(answer, clue, Down, CandidatePosition(existing, e, index)), index) == Cell(existing, e)
            <==> index == 0
  {
  }

  // ---------------------------------------------------------------- choosing a placement

  /** The permutation `positions.shuffle(&mut thread_rng())` applies, for word `i` placed against
      laid word `j`. */
  type Shuffle = (nat, nat, seq<Placement>) -> seq<Placement>

  ghost predicate IsShuffle(shuffle: Shuffle)
  {
    forall i, j, cands :: multiset(shuffle(i, j, cands)) == multiset(cands)
  }

  /** The condition the `find` tests: the placement collides with no laid word other than
      `existing` (compared by value, as `*word != existing` does). */
  predicate Clear(p: Placement, length: nat, placed: seq<Word>, existing: Word)
  {
    forall w :: w in placed && w != existing ==>
      !IntersectWords(Span(p.position, p.direction, length), SpanOf(w))
  }

  /** `positions.iter().find(...)`: the index of the first clear placement from `from` on. */
  function FirstClear(cands: seq<Placement>, length: nat, placed: seq<Word>, existing: Word, from: nat)
    : (r: Option<nat>)
    requires from <= |cands|
    decreases |cands| - from
    ensures r.Some? ==>
      from <= r.value < |cands| && Clear(cands[r.value], length, placed, existing)
      && forall m :: from <= m < r.value ==> !Clear(cands[m], length, placed, existing)
    ensures r.None? ==> forall m :: from <= m < |cands| ==> !Clear(cands[m], length, placed, existing)
  {
    if from == |cands| then None
    else if Clear(cands[from], length, placed, existing) then Some(from)
    else FirstClear(cands, length, placed, existing, from + 1)
  }

  /** One pass of the inner loop: the placement of `answer` (word `i`) against laid word `j`,
      or None where the source's `unwrap` panics. */
  function PlaceAgainst(placed: seq<Word>, j: nat, answer: string, i: nat, shuffle: Shuffle)
    : Option<Placement>
    requires j < |placed|
  {
    var shuffled := shuffle(i, j, Candidates(placed[j], answer));
    match FirstClear(shuffled, |answer|, placed, placed[j], 0)
    case None => None
    case Some(k) => Some(shuffled[k])
  }

  /** Whatever the shuffle, the placement found is a candidate clear of every laid word but
      `placed[j]`, and there is none exactly when no candidate is clear. */
  lemma PlaceAgainstMeaning(placed: seq<Word>, j: nat, answer: string, i: nat, shuffle: Shuffle)
    requires j < |placed|
    requires IsShuffle(shuffle)
    ensures var r := PlaceAgainst(placed, j, answer, i, shuffle);
      (r.Some? ==> r.value in Candidates(placed[j], answer) && Clear(r.value, |answer|, placed, placed[j]))
      && (r.None? <==>
          forall c :: c in Candidates(placed[j], answer) ==> !Clear(c, |answer|, placed, placed[j]))
  {
    var cands := Candidates(placed[j], answer);
    var shuffled := shuffle(i, j, cands);
    assert multiset(shuffled) == multiset(cands);
    match FirstClear(shuffled, |answer|, placed, placed[j], 0)
    case None =>
      assert forall c :: c in cands ==> c in multiset(shuffled);
    case Some(k) =>
      assert shuffled[k] in multiset(cands);
  }

  /** A word with no letter in common with `placed[j]` has no candidate, so it cannot be
      placed against it. */
  lemma NoSharedLetterPanics(placed: seq<Word>, j: nat, answer: string, i: nat, shuffle: Shuffle)
    requires j < |placed| && IsShuffle(shuffle)
    requires forall k :: 0 <= k < |answer| ==> answer[k] !in placed[j].answer
    ensures PlaceAgainst(placed, j, answer, i, shuffle) == None
  {
    PlaceAgainstMeaning(placed, j, answer, i, shuffle);
  }

  // ---------------------------------------------------------------- the built crossword

  function PairsOf(words: seq<Word>): (r: seq<Pair>)
    ensures |r| == |words|
    ensures forall k :: 0 <= k < |words| ==> r[k] == (words[k].answer, words[k].clue)
  {
    seq(|words|, k requires 0 <= k < |words| => (words[k].answer, words[k].clue))
  }

  predicate NonIncreasing(pairs: seq<Pair>)
  {
    forall p, q :: 0 <= p < q < |pairs| ==> |pairs[p].0| >= |pairs[q].0|
  }

  /** Word `k` is what the builder pushes after the words before it: the inner loop reached
      every laid word, and the last pass, against word `k - 1`, set the placement. */
  ghost predicate PlacedAt(words: seq<Word>, k: nat, shuffle: Shuffle)
    requires 1 <= k < |words|
  {
    (forall j :: 0 <= j < k ==> PlaceAgainst(words[..k], j, words[k].answer, k, shuffle).Some?)
    && PlaceAgainst(words[..k], k - 1, words[k].answer, k, shuffle)
       == Some(Placement(words[k].direction, words[k].position))
  }

  /** The words form a crossword the builder produces for the shuffle. */
  ghost predicate WellPlaced(words: seq<Word>, shuffle: Shuffle)
  {
    |words| >= 1 && words[0].direction == Across && words[0].position == Origin
    && forall k :: 1 <= k < |words| ==> PlacedAt(words, k, shuffle)
  }

  datatype BuildError =
    | NoWords                                              // `words.next().unwrap()` on no input
    | Unplaceable(placed: seq<Word>, pair: Pair, against: nat) // the `find(...).unwrap()` panic

  /** The state of the builder when it panics: the words laid so far, the pair being placed,
      and the laid word that left no clear candidate. The pair being placed is next in the
      sorted order: no pair still waiting is longer. */
  ghost predicate Stuck(e: BuildError, pairs: seq<Pair>, shuffle: Shuffle)
    requires e.Unplaceable?
  {
    1 <= |e.placed| < |pairs|
    && WellPlaced(e.placed, shuffle)
    && NonIncreasing(PairsOf(e.placed) + [e.pair])
    && multiset(PairsOf(e.placed) + [e.pair]) <= multiset(pairs)
    && (forall p :: p in multiset(pairs) - multiset(PairsOf(e.placed) + [e.pair]) ==> |p.0| <= |e.pair.0|)
    && e.against < |e.placed|
    && (forall j :: 0 <= j < e.against ==> PlaceAgainst(e.placed, j, e.pair.0, |e.placed|, shuffle).Some?)
    && PlaceAgainst(e.placed, e.against, e.pair.0, |e.placed|, shuffle).None?
  }

  /** `sort_unstable_by_key(|(word, _)| -(word.len()))`: longest answers first. Equal lengths
      may end in any order; the contract says nothing about it. */
  method SortByLengthDescending(a: array<Pair>)
    modifies a
    ensures NonIncreasing(a[..])
    ensures multiset(a[..]) == multiset(old(a[..]))
  {
    if a.Length == 0 {
      return;
    }
    var i := 1;
    while i < a.Length
      invariant 1 <= i <= a.Length
      invariant NonIncreasing(a[..i])
      invariant multiset(a[..]) == multiset(old(a[..]))
    {
      SinkLeft(a, i);
      i := i + 1;
    }
    assert a[..i] == a[..];
  }

  /** `s[..hi + 1]` is longest first, leaving out index `j`. */
  ghost predicate NonIncreasingExcept(s: seq<Pair>, hi: nat, j: nat)
    requires hi < |s|
  {
    forall p, q :: 0 <= p < q <= hi && p != j && q != j ==> |s[p].0| >= |s[q].0|
  }

  /** Mid-way through moving `s[j]` left: the rest of `s[..hi + 1]` is longest first and
      everything after `j` is shorter than `s[j]`. */
  ghost predicate Sinking(s: seq<Pair>, hi: nat, j: nat)
    requires j <= hi < |s|
  {
    NonIncreasingExcept(s, hi, j) && forall q :: j < q <= hi ==> |s[j].0| > |s[q].0|
  }

  function Swapped(s: seq<Pair>, j: nat): seq<Pair>
    requires 0 < j < |s|
  {
    s[j - 1 := s[j]][j := s[j - 1]]
  }

  /** One insertion step: moves `a[i]` left past every shorter answer. */
  method SinkLeft(a: array<Pair>, i: nat)
    requires i < a.Length && NonIncreasing(a[..i])
    modifies a
    ensures NonIncreasing(a[..i + 1])
    ensures multiset(a[..]) == multiset(old(a[..]))
    ensures a[i + 1..] == old(a[i + 1..])
  {
    var j := i;
    SinkStart(a[..], i);
    while j > 0 && |a[j - 1].0| < |a[j].0|
      invariant 0 <= j <= i
      invariant multiset(a[..]) == multiset(old(a[..]))
      invariant Sinking(a[..], i, j)
      invariant a[i + 1..] == old(a[i + 1..])
    {
      ghost var before := a[..];
      a[j - 1], a[j] := a[j], a[j - 1];
      assert a[..] == Swapped(before, j);
      SwapStep(before, i, j);
      j := j - 1;
    }
    SinkDone(a[..], i, j);
  }

  lemma SinkStart(s: seq<Pair>, i: nat)
    requires i < |s| && NonIncreasing(s[..i])
    ensures Sinking(s, i, i)
  {
    forall p, q | 0 <= p < q <= i && p != i && q != i
      ensures |s[p].0| >= |s[q].0|
    {
      assert s[..i][p] == s[p] && s[..i][q] == s[q];
    }
  }

  lemma SwapStep(s: seq<Pair>, i: nat, j: nat)
    requires 0 < j <= i < |s|
    requires Sinking(s, i, j) && |s[j - 1].0| < |s[j].0|
    ensures Sinking(Swapped(s, j), i, j - 1)
    ensures multiset(Swapped(s, j)) == multiset(s)
  {
  }

  lemma SinkDone(s: seq<Pair>, i: nat, j: nat)
    requires j <= i < |s|
    requires Sinking(s, i, j)
    requires j == 0 || |s[j - 1].0| >= |s[j].0|
    ensures NonIncreasing(s[..i + 1])
  {
    forall p, q | 0 <= p < q < i + 1
      ensures |s[p].0| >= |s[q].0|
    {
      if q == j && p < j - 1 {
        assert |s[p].0| >= |s[j - 1].0|;
      }
    }
  }

  /** The body of the builder's outer loop: the inner loop over every laid word, each pass
      overwriting `place_word`; the error is the index of the laid word where `unwrap` panics. */
  method PlaceWord(words: seq<Word>, answer: string, clue: string, shuffle: Shuffle)
    returns (r: Result<Word, nat>)
    requires words != []
    ensures r.Success? ==>
      (forall j :: 0 <= j < |words| ==> PlaceAgainst(words, j, answer, |words|, shuffle).Some?)
      && r.value.answer == answer && r.value.clue == clue
      && PlaceAgainst(words, |words| - 1, answer, |words|, shuffle)
         == Some(Placement(r.value.direction, r.value.position))
    ensures r.Failure? ==>
      r.error < |words|
      && (forall j :: 0 <= j < r.error ==> PlaceAgainst(words, j, answer, |words|, shuffle).Some?)
      && PlaceAgainst(words, r.error, answer, |words|, shuffle).None?
  {
    var placeWord: Option<Word> := None;
    for j := 0 to |words|
      invariant j == 0 ==> placeWord == None
      invariant forall m :: 0 <= m < j ==> PlaceAgainst(words, m, answer, |words|, shuffle).Some?
      invariant 0 < j ==>
        var p := PlaceAgainst(words, j - 1, answer, |words|, shuffle).value;
        placeWord == Some(Word(answer, clue, p.direction, p.position))
    {
      var existing := words[j];
      var positions := shuffle(|words|, j, Candidates(existing, answer));
      var found := FirstClear(positions, |answer|, words, existing, 0);
      if found.None? {
        return Failure(j);
      }
      var position := positions[found.value];
      placeWord := Some(Word(answer, clue, position.direction, position.position));
    }
    return Success(placeWord.value);
  }

  /** `Crossword::from_words_and_clues`. */
  method FromWordsAndClues(pairs: seq<Pair>, shuffle: Shuffle) returns (r: Result<Crossword, BuildError>)
    ensures r == Failure(NoWords) <==> pairs == []
    ensures r.Success? ==>
      var ws := r.value.words;
      |ws| == |pairs|
      && multiset(PairsOf(ws)) == multiset(pairs)
      && NonIncreasing(PairsOf(ws))
      && (forall p :: p in pairs ==> |p.0| <= |ws[0].answer|)
      && WellPlaced(ws, shuffle)
    ensures r.Failure? && r.error.Unplaceable? ==> Stuck(r.error, pairs, shuffle)
  {
    var a := new Pair[|pairs|](k requires 0 <= k < |pairs| => pairs[k]);
    assert a[..] == pairs;
    SortByLengthDescending(a);
    var sorted := a[..];
    if |sorted| == 0 {
      return Failure(NoWords);
    }
    var (firstAnswer, firstClue) := sorted[0];
    var words := [Word(firstAnswer, firstClue, Across, Origin)];
    var i: nat := 1;
    while i < |sorted|
      invariant 1 <= i <= |sorted|
      invariant |words| == i
      invariant PairsOf(words) == sorted[..i]
      invariant WellPlaced(words, shuffle)
    {
      var (answer, clue) := sorted[i];
      var placed := PlaceWord(words, answer, clue, shuffle);
      assert sorted[..i + 1] == sorted[..i] + [(answer, clue)];
      if placed.Failure? {
        var e := Unplaceable(words, (answer, clue), placed.error);
        StuckAtPass(pairs, sorted, e, shuffle);
        return Failure(e);
      }
      WellPlacedPush(words, placed.value, shuffle);
      PairsOfSnoc(words, placed.value);
      words := words + [placed.value];
      i := i + 1;
    }
    assert sorted[..i] == sorted;
    FirstIsLongest(pairs, sorted, words[0].answer);
    return Success(Crossword(words));
  }

  lemma NonIncreasingPrefix(s: seq<Pair>, n: nat)
    requires n <= |s| && NonIncreasing(s)
    ensures NonIncreasing(s[..n])
  {
  }

  /** A pass of the outer loop whose inner loop panics leaves the builder stuck. */
  lemma StuckAtPass(pairs: seq<Pair>, sorted: seq<Pair>, e: BuildError, shuffle: Shuffle)
    requires NonIncreasing(sorted) && multiset(sorted) == multiset(pairs)
    requires e.Unplaceable? && 1 <= |e.placed| < |sorted|
    requires PairsOf(e.placed) == sorted[..|e.placed|] && sorted[|e.placed|] == e.pair
    requires WellPlaced(e.placed, shuffle) && e.against < |e.placed|
    requires forall j :: 0 <= j < e.against ==> PlaceAgainst(e.placed, j, e.pair.0, |e.placed|, shuffle).Some?
    requires PlaceAgainst(e.placed, e.against, e.pair.0, |e.placed|, shuffle).None?
    ensures Stuck(e, pairs, shuffle)
  {
    var n := |e.placed| + 1;
    assert sorted[..n] == PairsOf(e.placed) + [e.pair];
    PrefixSubMultiset(sorted, n);
    NonIncreasingPrefix(sorted, n);
    RestNoLonger(pairs, sorted, n);
  }

  /** What is left after a prefix of a non-increasing order of `pairs` is no longer than the
      prefix's last pair. */
  lemma RestNoLonger(pairs: seq<Pair>, sorted: seq<Pair>, n: nat)
    requires 1 <= n <= |sorted| && NonIncreasing(sorted) && multiset(sorted) == multiset(pairs)
    ensures forall p :: p in multiset(pairs) - multiset(sorted[..n]) ==> |p.0| <= |sorted[n - 1].0|
  {
    assert sorted == sorted[..n] + sorted[n..];
    assert multiset(pairs) - multiset(sorted[..n]) == multiset(sorted[n..]);
    forall p | p in multiset(pairs) - multiset(sorted[..n])
      ensures |p.0| <= |sorted[n - 1].0|
    {
      assert p in sorted[n..];
      var k :| 0 <= k < |sorted[n..]| && sorted[n..][k] == p;
      assert sorted[n + k] == p;
    }
  }

  lemma PairsOfSnoc(words: seq<Word>, w: Word)
    ensures PairsOf(words + [w]) == PairsOf(words) + [(w.answer, w.clue)]
  {
  }

  lemma PrefixSubMultiset<T>(s: seq<T>, n: nat)
    requires n <= |s|
    ensures multiset(s[..n]) <= multiset(s)
  {
    assert s == s[..n] + s[n..];
  }

  lemma FirstIsLongest(pairs: seq<Pair>, sorted: seq<Pair>, first: string)
    requires sorted != [] && sorted[0].0 == first && NonIncreasing(sorted)
    requires multiset(sorted) == multiset(pairs)
    ensures forall p :: p in pairs ==> |p.0| <= |first|
  {
    forall p | p in pairs
      ensures |p.0| <= |first|
    {
      assert p in multiset(sorted);
      var k :| 0 <= k < |sorted| && sorted[k] == p;
    }
  }

  /** Pushing the placement of the last inner-loop pass keeps the words well placed. */
  lemma WellPlacedPush(words: seq<Word>, w: Word, shuffle: Shuffle)
    requires WellPlaced(words, shuffle)
    requires forall j :: 0 <= j < |words| ==> PlaceAgainst(words, j, w.answer, |words|, shuffle).Some?
    requires PlaceAgainst(words, |words| - 1, w.answer, |words|, shuffle) == Some(Placement(w.direction, w.position))
    ensures WellPlaced(words + [w], shuffle)
  {
    var ws := words + [w];
    assert ws[..|words|] == words;
    forall k | 1 <= k < |ws|
      ensures PlacedAt(ws, k, shuffle)
    {
      if k < |words| {
        assert ws[..k] == words[..k] && ws[k] == words[k];
        assert PlacedAt(words, k, shuffle);
      }
    }
  }

  // ---------------------------------------------------------------- properties of the result

  /** Word `k` sits at a candidate computed against word `k - 1`, clear of every earlier word
      but that one. */
  lemma PlacedIsCandidate(words: seq<Word>, shuffle: Shuffle, k: nat)
    requires IsShuffle(shuffle) && WellPlaced(words, shuffle) && 1 <= k < |words|
    ensures var p := Placement(words[k].direction, words[k].position);
      p in Candidates(words[k - 1], words[k].answer) && Clear(p, |words[k].answer|, words[..k], words[k - 1])
  {
    assert PlacedAt(words, k, shuffle);
    PlaceAgainstMeaning(words[..k], k - 1, words[k].answer, k, shuffle);
    assert words[..k][k - 1] == words[k - 1];
  }

  /** Every word after the first runs Down. */
  lemma LaterWordsAreDown(words: seq<Word>, shuffle: Shuffle)
    requires IsShuffle(shuffle) && WellPlaced(words, shuffle)
    ensures forall k :: 1 <= k < |words| ==> words[k].direction == Down
  {
    forall k | 1 <= k < |words|
      ensures words[k].direction == Down
    {
      PlacedIsCandidate(words, shuffle, k);
    }
  }

  /** Word `k` collides with no earlier word except those equal to word `k - 1`, the one it
      was placed against. */
  lemma ClearOfEarlierWords(words: seq<Word>, shuffle: Shuffle, k: nat, m: nat)
    requires IsShuffle(shuffle) && WellPlaced(words, shuffle)
    requires 1 <= k < |words| && m < k && words[m] != words[k - 1]
    ensures !IntersectWords(SpanOf(words[k]), SpanOf(words[m]))
  {
    PlacedIsCandidate(words, shuffle, k);
    assert words[m] in words[..k];
  }

  /** The second word crosses the first: it shares a letter with it, and that letter of each
      lies on the same cell. */
  lemma SecondWordCrossesFirst(words: seq<Word>, shuffle: Shuffle)
    requires IsShuffle(shuffle) && WellPlaced(words, shuffle) && |words| >= 2
    ensures exists e, index :: 0 <= e < |words[0].answer| && 0 <= index < |words[1].answer|
                               && words[1].answer[index] == words[0].answer[e]
                               && Cell(words[1], index) == Cell(words[0], e)
  {
    PlacedIsCandidate(words, shuffle, 1);
    var p := Placement(words[1].direction, words[1].position);
    var e, index :| 0 <= e < |words[0].answer| && 0 <= index < |words[1].answer|
                    && words[1].answer[index] == words[0].answer[e]
                    && p == Placement(Down, CandidatePosition(words[0], e, index));
    assert Cell(words[1], index) == Cell(words[0], e);
  }

  /** The built words are determined by the answers and clues in sorted order and by the
      shuffle. */
  lemma {:induction false} Deterministic(a: seq<Word>, b: seq<Word>, shuffle: Shuffle, n: nat)
    requires IsShuffle(shuffle) && WellPlaced(a, shuffle) && WellPlaced(b, shuffle)
    requires PairsOf(a) == PairsOf(b) && n <= |a|
    ensures a[..n] == b[..n]
  {
    if n > 1 {
      Deterministic(a, b, shuffle, n - 1);
      assert PlacedAt(a, n - 1, shuffle) && PlacedAt(b, n - 1, shuffle);
      assert a[n - 1].answer == b[n - 1].answer && a[n - 1].clue == b[n - 1].clue;
      assert a[..n] == a[..n - 1] + [a[n - 1]];
      assert b[..n] == b[..n - 1] + [b[n - 1]];
    } else if n == 1 {
      assert a[0].answer == b[0].answer && a[0].clue == b[0].clue;
    }
  }

  /** Two words sharing a letter: when the build succeeds, "CAR" goes Down through the C or
      through the A of "CAT", whatever the shuffle. That it does not get stuck on this input is
      `SharedLetterPairBuilds`. */
  lemma CatThenCar(words: seq<Word>, shuffle: Shuffle)
    requires IsShuffle(shuffle) && WellPlaced(words, shuffle)
    requires PairsOf(words) == [("CAT", "feline"), ("CAR", "vehicle")]
    ensures words[1].direction == Down
    ensures words[1].position == Origin || words[1].position == Position(1, -1)
  {
    assert words[0].answer == "CAT" && words[1].answer == "CAR";
    PlacedIsCandidate(words, shuffle, 1);
    var p := Placement(words[1].direction, words[1].position);
    var e, index :| 0 <= e < 3 && 0 <= index < 3 && "CAR"[index] == "CAT"[e]
                    && p == Placement(Down, CandidatePosition(words[0], e, index));
    assert (e == 0 && index == 0) || (e == 1 && index == 1);
  }

  /** `a` and `b` have a letter in common. */
  predicate SharesLetter(a: string, b: string)
  {
    exists e, index :: 0 <= e < |a| && 0 <= index < |b| && b[index] == a[e]
  }

  /** With a single laid word, an answer sharing a letter with it is always placed: some
      candidate exists, and no other word is there to collide with. */
  lemma OneLaidWordPlaces(w: Word, answer: string, i: nat, shuffle: Shuffle)
    requires IsShuffle(shuffle) && SharesLetter(w.answer, answer)
    ensures PlaceAgainst([w], 0, answer, i, shuffle).Some?
  {
    PlaceAgainstMeaning([w], 0, answer, i, shuffle);
    var e, index :| 0 <= e < |w.answer| && 0 <= index < |answer| && answer[index] == w.answer[e];
    var c := Placement(Down, CandidatePosition(w, e, index));
    assert c in Candidates(w, answer);
    assert Clear(c, |answer|, [w], w);
  }

  /** Two answers sharing a letter never leave the builder stuck, whatever the shuffle, so
      `FromWordsAndClues` succeeds on them. */
  lemma SharedLetterPairBuilds(pairs: seq<Pair>, shuffle: Shuffle)
    requires IsShuffle(shuffle) && |pairs| == 2 && SharesLetter(pairs[0].0, pairs[1].0)
    ensures forall err: BuildError :: err.Unplaceable? ==> !Stuck(err, pairs, shuffle)
  {
    forall err: BuildError | err.Unplaceable?
      ensures !Stuck(err, pairs, shuffle)
    {
      if |err.placed| == 1 && multiset(PairsOf(err.placed) + [err.pair]) <= multiset(pairs) {
        var w := err.placed[0];
        assert err.placed == [w];
        var both := PairsOf(err.placed) + [err.pair];
        assert both[0] == (w.answer, w.clue) && both[1] == err.pair;
        assert both[0] in multiset(pairs) && both[1] in multiset(pairs);
        var i :| 0 <= i < 2 && pairs[i] == both[0];
        var j :| 0 <= j < 2 && pairs[j] == both[1];
        var e, index :| 0 <= e < |pairs[0].0| && 0 <= index < |pairs[1].0| && pairs[1].0[index] == pairs[0].0[e];
        if i == j {
          assert |w.answer| > 0 && err.pair.0[0] == w.answer[0];
        } else if i == 1 {
          assert w.answer[index] == err.pair.0[e];
        }
        assert SharesLetter(w.answer, err.pair.0);
        OneLaidWordPlaces(w, err.pair.0, 1, shuffle);
      }
    }
  }
}
