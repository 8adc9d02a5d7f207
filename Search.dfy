/** The exhaustive search: every dictionary word is compared with the
    target, and for each desired pattern, mode and round the best rating
    and the words tied at it are kept in a ModeResult. */
module WordSearch {
  import opened Common
  import opened Text
  import opened WordCompare
  import opened PatternRating

  /** Number of rounds of a game. */
  const Rounds := 6
  /** The only round in which the target itself may be suggested. */
  const LastRound := 5

  /** The arguments that stay fixed during a search. */
  datatype Query = Query(target: string, desired: seq<seq<seq<int>>>, modes: seq<string>)

  // ---------------------------------------------------------------------
  // Which words are considered in which round
  // ---------------------------------------------------------------------

  /** A normalised word is kept only when it is non-empty and five long. */
  predicate Eligible(n: string)
  {
    |n| == 5
  }

  /** The target is not suggested before the last round. The comparison is
      with the target exactly as given, without lower-casing it. */
  predicate Skipped(n: string, target: string, round: int)
  {
    n == target && round != LastRound
  }

  /** The normalised words considered in `round`, in word-list order and
      with repeats. */
  function Considered(words: seq<string>, target: string, round: int): (c: seq<string>)
    ensures |c| <= |words|
    ensures forall k :: 0 <= k < |c| ==> Eligible(c[k]) && !Skipped(c[k], target, round)
  {
    if words == [] then []
    else
      var k := |words| - 1;
      var n := Normalize(words[k]);
      Considered(words[..k], target, round) + (if Eligible(n) && !Skipped(n, target, round) then [n] else [])
  }

  // ---------------------------------------------------------------------
  // Ratings
  // ---------------------------------------------------------------------

  /** The pattern `compare_words` gives for a normalised word. */
  function WordPattern(n: string, target: string): seq<int>
    requires |n| == |target|
  {
    Colouring(LowerStr(n), LowerStr(target))
  }

  /** The rating of word `n` in `round` of desired pattern `dp` under
      `mode`; indexing `dp` past its end fails. */
  function RatingOf(n: string, target: string, dp: seq<seq<int>>, round: nat, mode: string): Result<int>
    requires |n| == 5 && |target| == 5
  {
    if round >= |dp| then Failure(IndexError)
    else PatternMatchRating(WordPattern(n, target), dp[round], mode)
  }

  /** The rating as a number (0 where none can be computed; only used
      when the search raises nothing). */
  function Score(n: string, target: string, dp: seq<seq<int>>, round: nat, mode: string): int
  {
    if |n| == 5 && |target| == 5 then
      match RatingOf(n, target, dp, round, mode)
      case Success(v) => v
      case Failure(_) => 0
    else 0
  }

  function ScoreOf(q: Query, pi: nat, j: nat, round: nat): string -> int
    requires pi < |q.desired| && j < |q.modes|
  {
    n => Score(n, q.target, q.desired[pi], round, q.modes[j])
  }

  // ---------------------------------------------------------------------
  // Best rating and tied words
  // ---------------------------------------------------------------------

  /** The rating a slot holds after the words `ws`: it starts at 0 and
      rises to any higher rating. */
  function Best(ws: seq<string>, f: string -> int): int
  {
    if ws == [] then 0
    else
      var k := |ws| - 1;
      var b := Best(ws[..k], f);
      if f(ws[k]) > b then f(ws[k]) else b
  }

  /** The candidate list a slot holds after the words `ws`: a higher
      rating replaces it by the word alone, an equal one appends the word. */
  function Kept(ws: seq<string>, f: string -> int): seq<string>
  {
    if ws == [] then []
    else
      var k := |ws| - 1;
      var b := Best(ws[..k], f);
      if f(ws[k]) > b then [ws[k]]
      else if f(ws[k]) == b then Kept(ws[..k], f) + [ws[k]]
      else Kept(ws[..k], f)
  }

  /** The words of `ws` rated `v`, in order and with repeats. */
  function Ties(ws: seq<string>, f: string -> int, v: int): seq<string>
  {
    if ws == [] then []
    else
      var k := |ws| - 1;
      Ties(ws[..k], f, v) + (if f(ws[k]) == v then [ws[k]] else [])
  }

  // ---------------------------------------------------------------------
  // Errors, in the order the scan meets them
  // ---------------------------------------------------------------------

  function OrElse(a: Option<Error>, b: Option<Error>): Option<Error>
  {
    if a.Some? then a else b
  }

  /** The first failing rating over the first `k` modes. */
  function ModesError(n: string, q: Query, dp: seq<seq<int>>, round: nat, k: nat): Option<Error>
    requires |n| == 5 && |q.target| == 5 && k <= |q.modes|
  {
    if k == 0 then None
    else
      var step := match RatingOf(n, q.target, dp, round, q.modes[k - 1])
        case Failure(e) => Some(e)
        case Success(_) => None;
      OrElse(ModesError(n, q, dp, round, k - 1), step)
  }

  /** The first failure over the first `m` desired patterns. */
  function PatternsError(n: string, q: Query, round: nat, m: nat): Option<Error>
    requires |n| == 5 && |q.target| == 5 && m <= |q.desired|
  {
    if m == 0 then None
    else OrElse(PatternsError(n, q, round, m - 1), ModesError(n, q, q.desired[m - 1], round, |q.modes|))
  }

  /** The first failure over the first `k` rounds, skipping the rounds in
      which the word is not considered. */
  function RoundsError(n: string, q: Query, k: nat): Option<Error>
    requires |n| == 5 && |q.target| == 5 && k <= Rounds
  {
    if k == 0 then None
    else
      OrElse(RoundsError(n, q, k - 1),
             if Skipped(n, q.target, k - 1) then None else PatternsError(n, q, k - 1, |q.desired|))
  }

  /** The failure one dictionary word causes: none when it is skipped, a
      ValueError from `compare_words` when the target is not five long,
      and otherwise the first failing rating. */
  function WordError(w: string, q: Query): Option<Error>
  {
    var n := Normalize(w);
    if !Eligible(n) then None
    else if |q.target| != 5 then Some(ValueError)
    else RoundsError(n, q, Rounds)
  }

  /** The first failure `e` reports over the words `ws`, in order. */
  function FirstFailure(ws: seq<string>, e: string -> Option<Error>): Option<Error>
  {
    if ws == [] then None
    else
      var k := |ws| - 1;
      OrElse(FirstFailure(ws[..k], e), e(ws[k]))
  }

  /** The failure of each dictionary word, as a function. */
  function WordErrors(q: Query): string -> Option<Error>
  {
    w => WordError(w, q)
  }

  /** The first failure of the whole scan. */
  function ScanError(words: seq<string>, q: Query): Option<Error>
  {
    FirstFailure(words, WordErrors(q))
  }

  // ---------------------------------------------------------------------
  // Properties of the reference definitions
  // ---------------------------------------------------------------------

  /** A considered word is a normalised word of the list. */
  lemma {:induction false} ConsideredSound(words: seq<string>, target: string, round: int, n: string)
    requires n in Considered(words, target, round)
    ensures exists i :: 0 <= i < |words| && Normalize(words[i]) == n
  {
    var k := |words| - 1;
    if n in Considered(words[..k], target, round) {
      ConsideredSound(words[..k], target, round, n);
      var i :| 0 <= i < k && Normalize(words[..k][i]) == n;
      assert words[..k][i] == words[i];
    }
  }

  /** Every eligible word of the list that is not skipped is considered. */
  lemma {:induction false} ConsideredComplete(words: seq<string>, target: string, round: int, i: nat)
    requires i < |words| && Eligible(Normalize(words[i])) && !Skipped(Normalize(words[i]), target, round)
    ensures Normalize(words[i]) in Considered(words, target, round)
  {
    var k := |words| - 1;
    assert words == words[..k] + [words[k]];
    ConsideredSnoc(words[..k], words[k], target, round);
    if i < k {
      assert words[..k][i] == words[i];
      ConsideredComplete(words[..k], target, round, i);
    }
  }

  /** A word is considered in a round exactly when it is the normalised
      form of some word of the list, is eligible and is not skipped. */
  lemma ConsideredMembers(words: seq<string>, target: string, round: int, n: string)
    ensures n in Considered(words, target, round) <==>
      Eligible(n) && !Skipped(n, target, round) &&
      exists i :: 0 <= i < |words| && Normalize(words[i]) == n
  {
    if n in Considered(words, target, round) {
      ConsideredSound(words, target, round, n);
    } else if Eligible(n) && !Skipped(n, target, round) && exists i :: 0 <= i < |words| && Normalize(words[i]) == n {
      var i :| 0 <= i < |words| && Normalize(words[i]) == n;
      ConsideredComplete(words, target, round, i);
    }
  }

  /** The target is never considered before the last round. */
  lemma TargetNotConsideredEarly(words: seq<string>, target: string, round: int)
    requires round != LastRound
    ensures target !in Considered(words, target, round)
  {
    ConsideredMembers(words, target, round, target);
  }

  /** In the last round the target is considered when the list holds it. */
  lemma TargetConsideredLast(words: seq<string>, target: string, i: nat)
    requires i < |words| && Normalize(words[i]) == target && |target| == 5
    ensures target in Considered(words, target, LastRound)
  {
    ConsideredMembers(words, target, LastRound, target);
  }

  /** A slot's rating is the maximum of 0 and the ratings of the words. */
  lemma {:induction false} BestIsMax(ws: seq<string>, f: string -> int)
    ensures Best(ws, f) >= 0
    ensures forall i :: 0 <= i < |ws| ==> f(ws[i]) <= Best(ws, f)
    ensures Best(ws, f) == 0 || exists i :: 0 <= i < |ws| && f(ws[i]) == Best(ws, f)
  {
    if ws != [] {
      var k := |ws| - 1;
      BestIsMax(ws[..k], f);
      forall i | 0 <= i < k
        ensures f(ws[i]) <= Best(ws, f)
      {
        assert ws[i] == ws[..k][i];
      }
      if Best(ws, f) != 0 && Best(ws, f) == Best(ws[..k], f) {
        var i :| 0 <= i < k && f(ws[..k][i]) == Best(ws[..k], f);
        assert f(ws[i]) == Best(ws, f);
      }
    }
  }

  /** A slot's rating never decreases as words are scanned. */
  lemma BestNeverDecreases(ws: seq<string>, w: string, f: string -> int)
    ensures Best(ws, f) <= Best(ws + [w], f)
  {
    assert (ws + [w])[..|ws|] == ws;
  }

  /** No word of `ws` is rated `v` or more: none is tied at `v`. */
  lemma {:induction false} TiesAboveAll(ws: seq<string>, f: string -> int, v: int)
    requires forall i :: 0 <= i < |ws| ==> f(ws[i]) < v
    ensures Ties(ws, f, v) == []
  {
    if ws != [] {
      var k := |ws| - 1;
      TiesAboveAll(ws[..k], f, v);
    }
  }

  /** The kept candidates are exactly the words rated at the slot's best,
      in order and with repeats. */
  lemma {:induction false} KeptIsTies(ws: seq<string>, f: string -> int)
    ensures Kept(ws, f) == Ties(ws, f, Best(ws, f))
  {
    if ws != [] {
      var k := |ws| - 1;
      var b := Best(ws[..k], f);
      KeptIsTies(ws[..k], f);
      if f(ws[k]) > b {
        BestIsMax(ws[..k], f);
        TiesAboveAll(ws[..k], f, f(ws[k]));
      }
    }
  }

  /** A tied word is a word of the list with that rating. */
  lemma {:induction false} TiesMembers(ws: seq<string>, f: string -> int, v: int, x: string)
    ensures x in Ties(ws, f, v) <==> x in ws && f(x) == v
  {
    if ws != [] {
      var k := |ws| - 1;
      TiesMembers(ws[..k], f, v, x);
      assert ws == ws[..k] + [ws[k]];
    }
  }

  /** Once a failure is met, later words do not change it. */
  lemma {:induction false} FirstFailureSticks(ws: seq<string>, e: string -> Option<Error>, i: nat)
    requires i <= |ws| && FirstFailure(ws[..i], e).Some?
    ensures FirstFailure(ws, e) == FirstFailure(ws[..i], e)
  {
    if i < |ws| {
      var k := |ws| - 1;
      assert ws[..k][..i] == ws[..i];
      FirstFailureSticks(ws[..k], e, i);
    } else {
      assert ws[..i] == ws;
    }
  }

  /** There is no failure exactly when no word fails. */
  lemma {:induction false} FirstFailureNone(ws: seq<string>, e: string -> Option<Error>)
    ensures FirstFailure(ws, e) == None <==> forall i :: 0 <= i < |ws| ==> e(ws[i]) == None
  {
    if ws != [] {
      var k := |ws| - 1;
      FirstFailureNone(ws[..k], e);
      assert forall i :: 0 <= i < k ==> ws[..k][i] == ws[i];
    }
  }

  /** When every word either passes or fails with `v`, and one fails,
      the scan fails with `v`. */
  lemma {:induction false} FirstFailureIs(ws: seq<string>, e: string -> Option<Error>, v: Error, i: nat)
    requires i < |ws| && e(ws[i]) == Some(v)
    requires forall j :: 0 <= j < |ws| ==> e(ws[j]) == None || e(ws[j]) == Some(v)
    ensures FirstFailure(ws, e) == Some(v)
  {
    var k := |ws| - 1;
    assert forall j :: 0 <= j < k ==> ws[..k][j] == ws[j];
    if i < k {
      FirstFailureIs(ws[..k], e, v, i);
    } else if FirstFailure(ws[..k], e).Some? {
      FirstFailureValues(ws[..k], e, v);
    }
  }

  lemma {:induction false} FirstFailureValues(ws: seq<string>, e: string -> Option<Error>, v: Error)
    requires forall j :: 0 <= j < |ws| ==> e(ws[j]) == None || e(ws[j]) == Some(v)
    ensures FirstFailure(ws, e) == None || FirstFailure(ws, e) == Some(v)
  {
    if ws != [] {
      var k := |ws| - 1;
      assert forall j :: 0 <= j < k ==> ws[..k][j] == ws[j];
      FirstFailureValues(ws[..k], e, v);
    }
  }

  /** Once a failure is met, later words do not change it. */
  lemma ScanErrorSticks(words: seq<string>, q: Query, i: nat)
    requires i <= |words| && ScanError(words[..i], q).Some?
    ensures ScanError(words, q) == ScanError(words[..i], q)
  {
    FirstFailureSticks(words, WordErrors(q), i);
  }

  /** Errors surface lazily: a list with no eligible word raises nothing,
      whatever the target, desired patterns and modes. */
  lemma NoEligibleWordNoError(words: seq<string>, q: Query)
    requires forall i :: 0 <= i < |words| ==> !Eligible(Normalize(words[i]))
    ensures ScanError(words, q) == None
  {
    FirstFailureNone(words, WordErrors(q));
  }

  /** A target that is not five long fails the scan with a ValueError as
      soon as one word is eligible. */
  lemma BadTargetFails(words: seq<string>, q: Query, i: nat)
    requires |q.target| != 5 && i < |words| && Eligible(Normalize(words[i]))
    ensures ScanError(words, q) == Some(ValueError)
  {
    FirstFailureIs(words, WordErrors(q), ValueError, i);
  }

  /** When no mode fails, every mode rates the word. */
  lemma {:induction false} ModesRated(n: string, q: Query, dp: seq<seq<int>>, round: nat, k: nat, j: nat)
    requires |n| == 5 && |q.target| == 5 && j < k <= |q.modes|
    requires ModesError(n, q, dp, round, k) == None
    ensures RatingOf(n, q.target, dp, round, q.modes[j]).Success?
  {
    if j < k - 1 {
      ModesRated(n, q, dp, round, k - 1, j);
    }
  }

  lemma {:induction false} PatternsRated(n: string, q: Query, round: nat, m: nat, pi: nat, j: nat)
    requires |n| == 5 && |q.target| == 5 && pi < m <= |q.desired| && j < |q.modes|
    requires PatternsError(n, q, round, m) == None
    ensures RatingOf(n, q.target, q.desired[pi], round, q.modes[j]).Success?
  {
    if pi < m - 1 {
      PatternsRated(n, q, round, m - 1, pi, j);
    } else {
      ModesRated(n, q, q.desired[pi], round, |q.modes|, j);
    }
  }

  lemma {:induction false} RoundsRated(n: string, q: Query, k: nat, round: nat, pi: nat, j: nat)
    requires |n| == 5 && |q.target| == 5 && round < k <= Rounds && pi < |q.desired| && j < |q.modes|
    requires RoundsError(n, q, k) == None && !Skipped(n, q.target, round)
    ensures RatingOf(n, q.target, q.desired[pi], round, q.modes[j]).Success?
  {
    if round < k - 1 {
      RoundsRated(n, q, k - 1, round, pi, j);
    } else {
      PatternsRated(n, q, round, |q.desired|, pi, j);
    }
  }

  /** When the scan raises nothing, every considered word was rated for
      every slot of its round, so the slot ratings are true ratings. */
  lemma NoErrorMeansRated(words: seq<string>, q: Query, round: nat, pi: nat, j: nat, n: string)
    requires round < Rounds && pi < |q.desired| && j < |q.modes|
    requires ScanError(words, q) == None && n in Considered(words, q.target, round)
    ensures |n| == 5 && |q.target| == 5
    ensures RatingOf(n, q.target, q.desired[pi], round, q.modes[j]).Success?
  {
    ConsideredMembers(words, q.target, round, n);
    var i :| 0 <= i < |words| && Normalize(words[i]) == n;
    FirstFailureNone(words, WordErrors(q));
    assert WordError(words[i], q) == None;
    RoundsRated(n, q, Rounds, round, pi, j);
  }

  // ---------------------------------------------------------------------
  // Slot values
  // ---------------------------------------------------------------------

  /** What a ModeResult holds: per round, the best rating and the words
      tied at it. */
  datatype Slot = Slot(ratings: seq<int>, candidates: seq<seq<string>>)

  /** A slot as created before the scan: rating 0 and no candidates in
      each of the six rounds. */
  function EmptySlot(): (s: Slot)
    ensures |s.ratings| == Rounds && |s.candidates| == Rounds
    ensures forall r :: 0 <= r < Rounds ==> s.ratings[r] == 0 && s.candidates[r] == []
  {
    Slot(seq(Rounds, _ => 0), seq(Rounds, _ => []))
  }

  /** The update the scan applies when word `n` is rated `rating` in
      `round`: a higher rating replaces the candidates by `n` alone, an
      equal one appends `n`, a lower one changes nothing. */
  function Offered(s: Slot, round: nat, rating: int, n: string): Slot
    requires round < |s.ratings| && round < |s.candidates|
  {
    if rating > s.ratings[round] then Slot(s.ratings[round := rating], s.candidates[round := [n]])
    else if rating == s.ratings[round] then Slot(s.ratings, s.candidates[round := s.candidates[round] + [n]])
    else s
  }

  /** The slot that per-round word lists `cs` leave behind when round `r`
      rates words with `fs[r]`: the best rating of `cs[r]` and the words
      the update rule keeps. */
  function SlotOf(cs: seq<seq<string>>, fs: seq<string -> int>): Slot
    requires |cs| == Rounds && |fs| == Rounds
  {
    Slot(seq(Rounds, (r: int) requires 0 <= r < Rounds => Best(cs[r], fs[r])),
         seq(Rounds, (r: int) requires 0 <= r < Rounds => Kept(cs[r], fs[r])))
  }

  /** The per-round rating functions of desired pattern `pi` under mode `j`. */
  function Scores(q: Query, pi: nat, j: nat): (fs: seq<string -> int>)
    requires pi < |q.desired| && j < |q.modes|
    ensures |fs| == Rounds
  {
    seq(Rounds, (r: int) requires 0 <= r < Rounds => ScoreOf(q, pi, j, r))
  }

  /** The words considered in each round once the words `ws` have been
      scanned. */
  function Lists(target: string, ws: seq<string>): (cs: seq<seq<string>>)
    ensures |cs| == Rounds
  {
    seq(Rounds, (r: int) requires 0 <= r < Rounds => Considered(ws, target, r))
  }

  /** The per-round lists `cs` once every round that does not skip the
      normalised word `n` has taken it. */
  function Taken(cs: seq<seq<string>>, n: string, target: string): (cs': seq<seq<string>>)
    requires |cs| == Rounds
    ensures |cs'| == Rounds
  {
    seq(Rounds, (r: int) requires 0 <= r < Rounds => if Skipped(n, target, r) then cs[r] else cs[r] + [n])
  }

  /** The slot of desired pattern `pi` and mode `j` once `words` have been
      scanned: in each round, the largest of 0 and the ratings of the
      words considered there, and the considered words rated exactly
      that, in list order with repeats. */
  function Final(words: seq<string>, q: Query, pi: nat, j: nat): Slot
    requires pi < |q.desired| && j < |q.modes|
  {
    var cs := Lists(q.target, words);
    var fs := Scores(q, pi, j);
    Slot(seq(Rounds, (r: int) requires 0 <= r < Rounds => Best(cs[r], fs[r])),
         seq(Rounds, (r: int) requires 0 <= r < Rounds => Ties(cs[r], fs[r], Best(cs[r], fs[r]))))
  }

  /** Appending a word appends its normalised form to the words considered
      in a round when it is eligible and not skipped. */
  lemma ConsideredSnoc(before: seq<string>, w: string, target: string, round: int)
    ensures var n := Normalize(w);
      Considered(before + [w], target, round) ==
        Considered(before, target, round) + (if Eligible(n) && !Skipped(n, target, round) then [n] else [])
  {
    assert (before + [w])[..|before|] == before;
  }

  /** Adding one word to a list updates its best rating and its kept
      candidates exactly as the scan's update rule does. */
  lemma BestKeptSnoc(c: seq<string>, n: string, f: string -> int)
    ensures Best(c + [n], f) == (if f(n) > Best(c, f) then f(n) else Best(c, f))
    ensures Kept(c + [n], f) == (if f(n) > Best(c, f) then [n]
                                 else if f(n) == Best(c, f) then Kept(c, f) + [n]
                                 else Kept(c, f))
  {
    assert (c + [n])[..|c|] == c;
  }

  /** With no words scanned a slot is empty. */
  lemma SlotOfEmpty(cs: seq<seq<string>>, fs: seq<string -> int>)
    requires |cs| == Rounds && |fs| == Rounds
    requires forall r :: 0 <= r < Rounds ==> cs[r] == []
    ensures SlotOf(cs, fs) == EmptySlot()
  {
    var s, e := SlotOf(cs, fs), EmptySlot();
    assert s.ratings == e.ratings && s.candidates == e.candidates;
  }

  /** Appending `n` to the list of round `r` is the update rule applied
      with `n`'s rating. */
  lemma SlotOfSnoc(cs: seq<seq<string>>, fs: seq<string -> int>, r: nat, n: string)
    requires |cs| == Rounds && |fs| == Rounds && r < Rounds
    ensures SlotOf(cs[r := cs[r] + [n]], fs) == Offered(SlotOf(cs, fs), r, fs[r](n), n)
  {
    var s, s' := SlotOf(cs, fs), SlotOf(cs[r := cs[r] + [n]], fs);
    var o := Offered(s, r, fs[r](n), n);
    BestKeptSnoc(cs[r], n, fs[r]);
    forall x | 0 <= x < Rounds
      ensures s'.ratings[x] == o.ratings[x] && s'.candidates[x] == o.candidates[x]
    {
    }
    assert s'.ratings == o.ratings && s'.candidates == o.candidates;
  }

  /** Before the scan no round has seen any word. */
  lemma ListsEmpty(target: string)
    ensures forall r :: 0 <= r < Rounds ==> Lists(target, [])[r] == []
  {
    forall r | 0 <= r < Rounds
      ensures Lists(target, [])[r] == []
    {
      assert Lists(target, [])[r] == Considered([], target, r);
    }
  }

  /** One more word: when its normalised form is five long, every round
      that does not skip it takes it; otherwise no round changes. */
  lemma ListsSnoc(target: string, before: seq<string>, w: string)
    ensures var n := Normalize(w);
      Lists(target, before + [w]) == if Eligible(n) then Taken(Lists(target, before), n, target) else Lists(target, before)
  {
    var n := Normalize(w);
    var cs, cs' := Lists(target, before), Lists(target, before + [w]);
    var expected := if Eligible(n) then Taken(cs, n, target) else cs;
    forall r | 0 <= r < Rounds
      ensures cs'[r] == expected[r]
    {
      ConsideredSnoc(before, w, target, r);
      assert cs'[r] == Considered(before + [w], target, r);
      assert cs[r] == Considered(before, target, r);
    }
    assert cs' == expected;
  }

  /** The slot kept by the update rule is the one the final description
      gives: the kept candidates are the ties at the best rating. */
  lemma SlotOfIsFinal(q: Query, pi: nat, j: nat, words: seq<string>)
    requires pi < |q.desired| && j < |q.modes|
    ensures SlotOf(Lists(q.target, words), Scores(q, pi, j)) == Final(words, q, pi, j)
  {
    var cs, fs := Lists(q.target, words), Scores(q, pi, j);
    forall r | 0 <= r < Rounds
      ensures Kept(cs[r], fs[r]) == Ties(cs[r], fs[r], Best(cs[r], fs[r]))
    {
      KeptIsTies(cs[r], fs[r]);
    }
  }

  /** What a finished slot means, round by round: its rating is at least
      0 and at least every considered word's rating, and is 0 or the
      rating of some considered word; its candidates are exactly the
      considered words with that rating. */
  lemma FinalSlotFacts(words: seq<string>, q: Query, pi: nat, j: nat, r: nat)
    requires pi < |q.desired| && j < |q.modes| && r < Rounds
    ensures var s := Final(words, q, pi, j);
      var c := Considered(words, q.target, r);
      var f := ScoreOf(q, pi, j, r);
      && s.ratings[r] >= 0
      && (forall i :: 0 <= i < |c| ==> f(c[i]) <= s.ratings[r])
      && (s.ratings[r] == 0 || exists i :: 0 <= i < |c| && f(c[i]) == s.ratings[r])
      && (forall x :: x in s.candidates[r] <==> x in c && f(x) == s.ratings[r])
  {
    var c := Considered(words, q.target, r);
    var f := ScoreOf(q, pi, j, r);
    var s := Final(words, q, pi, j);
    assert s.ratings[r] == Best(c, f);
    assert s.candidates[r] == Ties(c, f, Best(c, f));
    BestIsMax(c, f);
    forall x
      ensures x in s.candidates[r] <==> x in c && f(x) == s.ratings[r]
    {
      TiesMembers(c, f, Best(c, f), x);
    }
  }

  /** The target is never a candidate before the last round. */
  lemma TargetNeverEarlyCandidate(words: seq<string>, q: Query, pi: nat, j: nat, r: nat)
    requires pi < |q.desired| && j < |q.modes| && r < Rounds && r != LastRound
    ensures q.target !in Final(words, q, pi, j).candidates[r]
  {
    FinalSlotFacts(words, q, pi, j, r);
    TargetNotConsideredEarly(words, q.target, r);
  }

  // ---------------------------------------------------------------------
  // The result objects
  // ---------------------------------------------------------------------

  /** Best-matching words and their rating, for each of the six rounds of
      one desired pattern under one mode. */
  class ModeResult {
    var candidates: seq<seq<string>>
    var ratings: seq<int>

    ghost function Value(): Slot
      reads this
    {
      Slot(ratings, candidates)
    }

    /** Every round starts with no candidates and rating 0. */
    constructor ()
      ensures Value() == EmptySlot()
    {
      candidates := seq(Rounds, _ => []);
      ratings := seq(Rounds, _ => 0);
    }

    /** Word `n` rated `rating` in `round`: a higher rating than the
        round's best replaces the candidates by `n` alone, an equal one
        appends `n`, a lower one changes nothing. */
    method Offer(round: nat, rating: int, n: string)
      requires round < |ratings| && round < |candidates|
      modifies this
      ensures Value() == Offered(old(Value()), round, rating, n)
    {
      if rating > ratings[round] {
        ratings := ratings[round := rating];
        candidates := candidates[round := [n]];
      } else if rating == ratings[round] {
        candidates := candidates[round := candidates[round] + [n]];
      }
    }
  }

  /** One dict per desired pattern, from mode string to its ModeResult,
      held as an association list in insertion order. */
  type Results = seq<seq<(string, ModeResult)>>

  ghost function Objects(results: Results): set<ModeResult>
  {
    set pi, j | 0 <= pi < |results| && 0 <= j < |results[pi]| :: results[pi][j].1
  }

  /** No string is listed twice (the modes given to the search, the keys
      of a dict). */
  predicate Distinct(ms: seq<string>)
  {
    forall a, b :: 0 <= a < b < |ms| ==> ms[a] != ms[b]
  }

  /** One dict per desired pattern, keyed by the modes in order, with a
      separate ModeResult for every slot. */
  ghost predicate Shaped(results: Results, q: Query)
  {
    |results| == |q.desired| && RowsShaped(results, q.modes)
  }

  ghost predicate RowsShaped(results: Results, modes: seq<string>)
  {
    && (forall pi :: 0 <= pi < |results| ==> |results[pi]| == |modes|)
    && (forall pi, j :: 0 <= pi < |results| && 0 <= j < |results[pi]| ==> results[pi][j].0 == modes[j])
    && (forall pi, j, pi', j' ::
          (0 <= pi < |results| && 0 <= j < |results[pi]| && 0 <= pi' < |results| && 0 <= j' < |results[pi']| &&
           (pi != pi' || j != j')) ==> results[pi][j].1 != results[pi'][j'].1)
  }

  /** Every slot before the one at (`pi0`, `j0`) holds what the per-round
      word lists `done` leave behind, and every other slot what `todo`
      leaves behind. */
  ghost predicate Progress(results: Results, q: Query, done: seq<seq<string>>, todo: seq<seq<string>>,
                           pi0: int, j0: int)
    reads Objects(results)
  {
    && |done| == Rounds && |todo| == Rounds
    && forall pi, j :: 0 <= pi < |q.desired| && 0 <= j < |q.modes| && pi < |results| && j < |results[pi]| ==>
         results[pi][j].1.Value() == SlotOf(if pi < pi0 || (pi == pi0 && j < j0) then done else todo, Scores(q, pi, j))
  }

  /** Every slot holds what the words `ws` leave behind. */
  ghost predicate Scanned(results: Results, q: Query, ws: seq<string>)
    reads Objects(results)
  {
    var cs := Lists(q.target, ws);
    Progress(results, q, cs, cs, 0, 0)
  }

  // ---------------------------------------------------------------------
  // How failures propagate
  // ---------------------------------------------------------------------


  lemma {:induction false} ModesErrorSticks(n: string, q: Query, dp: seq<seq<int>>, round: nat, k: nat, k': nat)
    requires |n| == 5 && |q.target| == 5 && k <= k' <= |q.modes|
    requires ModesError(n, q, dp, round, k).Some?
    ensures ModesError(n, q, dp, round, k') == ModesError(n, q, dp, round, k)
  {
    if k < k' {
      ModesErrorSticks(n, q, dp, round, k, k' - 1);
    }
  }

  lemma ModesErrorStep(n: string, q: Query, dp: seq<seq<int>>, round: nat, j: nat, v: int)
    requires |n| == 5 && |q.target| == 5 && j < |q.modes|
    requires ModesError(n, q, dp, round, j) == None
    requires RatingOf(n, q.target, dp, round, q.modes[j]) == Success(v)
    ensures ModesError(n, q, dp, round, j + 1) == None
  {
  }

  lemma {:induction false} PatternsErrorSticks(n: string, q: Query, round: nat, m: nat, m': nat)
    requires |n| == 5 && |q.target| == 5 && m <= m' <= |q.desired|
    requires PatternsError(n, q, round, m).Some?
    ensures PatternsError(n, q, round, m') == PatternsError(n, q, round, m)
  {
    if m < m' {
      PatternsErrorSticks(n, q, round, m, m' - 1);
    }
  }

  lemma {:induction false} RoundsErrorSticks(n: string, q: Query, k: nat, k': nat)
    requires |n| == 5 && |q.target| == 5 && k <= k' <= Rounds
    requires RoundsError(n, q, k).Some?
    ensures RoundsError(n, q, k') == RoundsError(n, q, k)
  {
    if k < k' {
      RoundsErrorSticks(n, q, k, k' - 1);
    }
  }

  /** Without an earlier failure, the rounds up to `k` + 1 fail as round
      `k` does. */
  lemma RoundsErrorStep(n: string, q: Query, k: nat)
    requires |n| == 5 && |q.target| == 5 && k < Rounds && RoundsError(n, q, k) == None
    ensures RoundsError(n, q, k + 1) == if Skipped(n, q.target, k) then None else PatternsError(n, q, k, |q.desired|)
  {
  }

  /** Normalising keeps a word free of NUL characters. */
  lemma NormalizeKeepsNoNul(w: string)
    requires '\0' !in w
    ensures '\0' !in Normalize(w)
  {
    var s := Strip(w);
    var l := StripLeft(w);
    assert forall c :: c in l ==> c in w;
    assert forall c :: c in s ==> c in l;
  }


  // ---------------------------------------------------------------------
  // The search as the source performs it
  // ---------------------------------------------------------------------

  /** A new row with keys `modes` and objects of its own keeps the result
      structure shaped. */
  lemma AppendRowShaped(results: Results, row: seq<(string, ModeResult)>, modes: seq<string>)
    requires RowsShaped(results, modes)
    requires |row| == |modes| && forall j :: 0 <= j < |row| ==> row[j].0 == modes[j]
    requires forall j, j' :: 0 <= j < j' < |row| ==> row[j].1 != row[j'].1
    requires forall j :: 0 <= j < |row| ==> row[j].1 !in Objects(results)
    ensures RowsShaped(results + [row], modes)
    ensures forall o :: o in Objects(results + [row]) ==> o in Objects(results) || exists j :: 0 <= j < |row| && o == row[j].1
  {
    var rs: Results := results + [row];
    var last := |results|;
    forall pi, j, pi', j' |
      0 <= pi < |rs| && 0 <= j < |rs[pi]| && 0 <= pi' < |rs| && 0 <= j' < |rs[pi']| && (pi != pi' || j != j')
      ensures rs[pi][j].1 != rs[pi'][j'].1
    {
      if pi < last && pi' == last {
        assert rs[pi][j].1 in Objects(results);
      } else if pi == last && pi' < last {
        assert rs[pi'][j'].1 in Objects(results);
      }
    }
    forall o | o in Objects(rs)
      ensures o in Objects(results) || exists j :: 0 <= j < |row| && o == row[j].1
    {
      var p, j :| 0 <= p < |rs| && 0 <= j < |rs[p]| && o == rs[p][j].1;
      if p < last {
        assert o == results[p][j].1;
      }
    }
  }

  /** The result structure: one dict per desired pattern, each holding a
      fresh ModeResult per mode. */
  method NewResults(q: Query) returns (results: Results)
    requires Distinct(q.modes)
    ensures Shaped(results, q)
    ensures forall o :: o in Objects(results) ==> fresh(o)
    ensures Scanned(results, q, [])
  {
    results := [];
    for pi := 0 to |q.desired|
      invariant |results| == pi && RowsShaped(results, q.modes)
      invariant forall o :: o in Objects(results) ==> fresh(o)
      invariant forall p, j :: 0 <= p < pi && 0 <= j < |q.modes| ==> results[p][j].1.Value() == EmptySlot()
    {
      var row := NewRow(q);
      AppendRowShaped(results, row, q.modes);
      results := results + [row];
    }
    ProgressEmpty(results, q);
  }

  /** Freshly made slots are where the scan starts. */
  lemma ProgressEmpty(results: Results, q: Query)
    requires Shaped(results, q)
    requires forall p, j :: 0 <= p < |q.desired| && 0 <= j < |q.modes| ==> results[p][j].1.Value() == EmptySlot()
    ensures Scanned(results, q, [])
  {
    var cs := Lists(q.target, []);
    ListsEmpty(q.target);
    forall pi, j | 0 <= pi < |q.desired| && 0 <= j < |q.modes|
      ensures results[pi][j].1.Value() == SlotOf(cs, Scores(q, pi, j))
    {
      SlotOfEmpty(cs, Scores(q, pi, j));
    }
  }

  /** One dict of the result structure: a fresh ModeResult per mode. */
  method NewRow(q: Query) returns (row: seq<(string, ModeResult)>)
    ensures |row| == |q.modes|
    ensures forall j :: 0 <= j < |row| ==> row[j].0 == q.modes[j]
    ensures forall j :: 0 <= j < |row| ==> fresh(row[j].1)
    ensures forall j, j' :: 0 <= j < j' < |row| ==> row[j].1 != row[j'].1
    ensures forall j :: 0 <= j < |row| ==> row[j].1.Value() == EmptySlot()
  {
    row := [];
    for j := 0 to |q.modes|
      invariant |row| == j
      invariant forall j' :: 0 <= j' < j ==> row[j'].0 == q.modes[j']
      invariant forall j' :: 0 <= j' < j ==> fresh(row[j'].1)
      invariant forall j', j'' :: 0 <= j' < j'' < j ==> row[j'].1 != row[j''].1
      invariant forall j' :: 0 <= j' < j ==> row[j'].1.Value() == EmptySlot()
    {
      var modeResult := new ModeResult();
      row := row + [(q.modes[j], modeResult)];
    }
  }

  /** The scan's failure after one more word. */
  lemma ScanErrorSnoc(before: seq<string>, w: string, q: Query)
    ensures ScanError(before + [w], q) == OrElse(ScanError(before, q), WordError(w, q))
  {
    assert (before + [w])[..|before|] == before;
  }

  /** `find_words`: every word of the list is stripped and lower-cased,
      skipped unless five long, compared once with the target, and then
      rated in each round (the target itself only in the last one) for
      each desired pattern and mode. The first failure is raised; without
      one, every slot holds in each round the best rating of the words
      considered there (0 if none rates higher) and exactly the considered
      words tied at it, in list order. */
  method FindWords(words: seq<string>, q: Query) returns (r: Result<Results>)
    requires Distinct(q.modes)
    requires forall i :: 0 <= i < |words| ==> '\0' !in words[i]
    ensures r.Failure? <==> ScanError(words, q).Some?
    ensures r.Failure? ==> ScanError(words, q) == Some(r.error)
    ensures r.Success? ==> Shaped(r.value, q) && forall o :: o in Objects(r.value) ==> fresh(o)
    ensures r.Success? ==> forall pi, j :: 0 <= pi < |q.desired| && 0 <= j < |q.modes| ==>
      r.value[pi][j].1.Value() == Final(words, q, pi, j)
  {
    var results := NewResults(q);
    assert words[..0] == [];
    for i := 0 to |words|
      invariant Shaped(results, q)
      invariant forall o :: o in Objects(results) ==> fresh(o)
      invariant ScanError(words[..i], q) == None
      invariant Scanned(results, q, words[..i])
    {
      assert words[..i + 1] == words[..i] + [words[i]];
      ScanErrorSnoc(words[..i], words[i], q);
      var err := ScanWord(results, q, words[..i], words[i]);
      if err.Some? {
        ScanErrorSticks(words, q, i + 1);
        return Failure(err.value);
      }
    }
    assert words[..|words|] == words;
    ScannedIsFinal(results, q, words);
    return Success(results);
  }

  /** Once every word is scanned, every slot holds the reference result. */
  lemma ScannedIsFinal(results: Results, q: Query, words: seq<string>)
    requires Shaped(results, q) && Scanned(results, q, words)
    ensures forall pi, j :: 0 <= pi < |q.desired| && 0 <= j < |q.modes| ==>
      results[pi][j].1.Value() == Final(words, q, pi, j)
  {
    forall pi, j | 0 <= pi < |q.desired| && 0 <= j < |q.modes|
      ensures results[pi][j].1.Value() == Final(words, q, pi, j)
    {
      SlotOfIsFinal(q, pi, j, words);
    }
  }

  /** The body of the loop over the words: word `w` is normalised, skipped
      unless five long, compared with the target, and rated everywhere. */
  method ScanWord(results: Results, q: Query, ghost before: seq<string>, w: string) returns (err: Option<Error>)
    requires Shaped(results, q) && '\0' !in w
    requires Scanned(results, q, before)
    modifies Objects(results)
    ensures err == WordError(w, q)
    ensures err.None? ==> Scanned(results, q, before + [w])
  {
    var n := Normalize(w);
    ListsSnoc(q.target, before, w);
    if |n| == 0 || |n| != 5 {
      return None;
    }
    var compared := CompareWords(n, q.target);
    if compared.Failure? {
      return Some(compared.error);
    }
    NormalizeKeepsNoNul(w);
    err := ScanRounds(results, q, n, compared.value, Lists(q.target, before));
  }

  /** What holds of the word being rated throughout its scan: the
      normalised word `n` is five long, it compares with the target as
      `pattern`, and the result structure is shaped. */
  ghost predicate Ready(results: Results, q: Query, n: string, pattern: seq<int>)
  {
    && Shaped(results, q) && Eligible(n) && |q.target| == 5
    && pattern == WordPattern(n, q.target)
  }

  /** The loop over the rounds for one word: each round that does not
      skip the word takes it into its list. */
  method ScanRounds(results: Results, q: Query, n: string, pattern: seq<int>, ghost cs0: seq<seq<string>>)
    returns (err: Option<Error>)
    requires Ready(results, q, n, pattern) && |cs0| == Rounds
    requires Progress(results, q, cs0, cs0, 0, 0)
    modifies Objects(results)
    ensures err == RoundsError(n, q, Rounds)
    ensures err.None? ==> Progress(results, q, Taken(cs0, n, q.target), Taken(cs0, n, q.target), 0, 0)
  {
    ghost var cs := cs0;
    for round := 0 to Rounds
      invariant |cs| == Rounds && Progress(results, q, cs, cs, 0, 0)
      invariant forall r :: 0 <= r < Rounds ==> cs[r] == if r < round && !Skipped(n, q.target, r) then cs0[r] + [n] else cs0[r]
      invariant RoundsError(n, q, round) == None
    {
      ghost var cs' := if Skipped(n, q.target, round) then cs else cs[round := cs[round] + [n]];
      RoundsErrorStep(n, q, round);
      err := ScanRound(results, q, n, pattern, round, cs, cs');
      if err.Some? {
        RoundsErrorSticks(n, q, round + 1, Rounds);
        return;
      }
      cs := cs';
    }
    TakenAll(cs0, cs, n, q.target);
    return None;
  }

  /** Lists that took `n` in exactly the rounds that do not skip it are
      the taken lists. */
  lemma TakenAll(cs0: seq<seq<string>>, cs: seq<seq<string>>, n: string, target: string)
    requires |cs0| == Rounds && |cs| == Rounds
    requires forall r :: 0 <= r < Rounds ==> cs[r] == if r < Rounds && !Skipped(n, target, r) then cs0[r] + [n] else cs0[r]
    ensures cs == Taken(cs0, n, target)
  {
  }

  /** One round for one word: nothing when the word is skipped in this
      round, otherwise the loop over the desired patterns, after which
      every slot has taken the word into the round's list. */
  method ScanRound(results: Results, q: Query, n: string, pattern: seq<int>, round: nat,
                   ghost cs: seq<seq<string>>, ghost cs': seq<seq<string>>) returns (err: Option<Error>)
    requires Ready(results, q, n, pattern) && round < Rounds && |cs| == Rounds
    requires cs' == if Skipped(n, q.target, round) then cs else cs[round := cs[round] + [n]]
    requires Progress(results, q, cs, cs, 0, 0)
    modifies Objects(results)
    ensures err == if Skipped(n, q.target, round) then None else PatternsError(n, q, round, |q.desired|)
    ensures err.None? ==> Progress(results, q, cs', cs', 0, 0)
  {
    if n == q.target && round != LastRound {
      return None;
    }
    for pi := 0 to |q.desired|
      invariant Progress(results, q, cs', cs, pi, 0)
      invariant PatternsError(n, q, round, pi) == None
    {
      err := ScanModes(results, q, n, pattern, round, pi, cs, cs');
      if err.Some? {
        PatternsErrorSticks(n, q, round, pi + 1, |q.desired|);
        return;
      }
    }
    return None;
  }

  /** The innermost loop, over the modes, for one desired pattern in one
      round. */
  method ScanModes(results: Results, q: Query, n: string, pattern: seq<int>, round: nat, pi: nat,
                   ghost cs: seq<seq<string>>, ghost cs': seq<seq<string>>) returns (err: Option<Error>)
    requires Ready(results, q, n, pattern) && pi < |q.desired| && round < Rounds && |cs| == Rounds
    requires !Skipped(n, q.target, round) && cs' == cs[round := cs[round] + [n]]
    requires Progress(results, q, cs', cs, pi, 0)
    modifies Objects(results)
    ensures err == ModesError(n, q, q.desired[pi], round, |q.modes|)
    ensures err.None? ==> Progress(results, q, cs', cs, pi + 1, 0)
  {
    for j := 0 to |q.modes|
      invariant Progress(results, q, cs', cs, pi, j)
      invariant ModesError(n, q, q.desired[pi], round, j) == None
    {
      err := ScanSlot(results, q, n, pattern, round, pi, j, cs, cs');
      if err.Some? {
        ModesErrorSticks(n, q, q.desired[pi], round, j + 1, |q.modes|);
        return;
      }
    }
    return None;
  }

  /** One step of the innermost loop: the word is rated for desired
      pattern `pi` in `round` under mode `j`, and the rating either raises
      the slot's best (the word alone becomes the candidate list), ties it
      (the word is appended) or is ignored. Indexing a desired pattern
      past its last round and a failing rating raise. */
  method ScanSlot(results: Results, q: Query, n: string, pattern: seq<int>, round: nat, pi: nat, j: nat,
                  ghost cs: seq<seq<string>>, ghost cs': seq<seq<string>>) returns (err: Option<Error>)
    requires Ready(results, q, n, pattern) && pi < |q.desired| && j < |q.modes| && round < Rounds && |cs| == Rounds
    requires !Skipped(n, q.target, round) && cs' == cs[round := cs[round] + [n]]
    requires Progress(results, q, cs', cs, pi, j)
    requires ModesError(n, q, q.desired[pi], round, j) == None
    modifies Objects(results)
    ensures ModesError(n, q, q.desired[pi], round, j + 1) == err
    ensures err.None? ==> Progress(results, q, cs', cs, pi, j + 1)
  {
    var desiredPattern := q.desired[pi];
    if round >= |desiredPattern| {
      return Some(IndexError);
    }
    var rating := RatePattern(pattern, desiredPattern[round], q.modes[j]);
    if rating.Failure? {
      return Some(rating.error);
    }
    assert RatingOf(n, q.target, desiredPattern, round, q.modes[j]) == rating;
    ModesErrorStep(n, q, desiredPattern, round, j, rating.value);
    var modeResult := results[pi][j].1;
    assert modeResult in Objects(results);
    SlotOfSnoc(cs, Scores(q, pi, j), round, n);
    assert Scores(q, pi, j)[round](n) == rating.value;
    modeResult.Offer(round, rating.value, n);
    return None;
  }
}
