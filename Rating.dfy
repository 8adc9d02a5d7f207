/** Rating a colour pattern against a requested pattern of group indices:
    ten points for each tile whose colour lies in the requested group, plus
    a bonus of 2 - offset for each such tile, where offset is the colour's
    position inside its group under the mode. */
module PatternRating {
  import opened Common
  import opened ModeCodec

  /** A value accepted by the `in (0, 1, 2)` checks. */
  predicate IsCode(v: int)
  {
    0 <= v < 3
  }

  predicate AllCodes(s: seq<int>)
  {
    forall i :: 0 <= i < |s| ==> IsCode(s[i])
  }

  /** Every colour code has an entry. */
  predicate Complete(mp: Mapping)
  {
    forall c :: 0 <= c < 3 ==> c in mp
  }

  /** Tile colour `p` lies in requested group `rp`. */
  predicate Hit(mp: Mapping, p: int, rp: int)
    requires Complete(mp) && IsCode(p)
  {
    mp[p].0 == rp
  }

  /** The bonus for a tile in its requested group. */
  function OffsetBonus(mp: Mapping, p: int): int
    requires Complete(mp) && IsCode(p)
  {
    if 2 - mp[p].1 > 0 then 2 - mp[p].1 else 0
  }

  /** The number of positions whose colour lies in the requested group. */
  function Matches(pattern: seq<int>, requested: seq<int>, mp: Mapping): (n: nat)
    requires |pattern| == |requested| && AllCodes(pattern) && Complete(mp)
    ensures n <= |pattern|
  {
    if pattern == [] then 0
    else
      var k := |pattern| - 1;
      Matches(pattern[..k], requested[..k], mp) + (if Hit(mp, pattern[k], requested[k]) then 1 else 0)
  }

  /** The sum of the offset bonuses over those positions. */
  function Bonus(pattern: seq<int>, requested: seq<int>, mp: Mapping): int
    requires |pattern| == |requested| && AllCodes(pattern) && Complete(mp)
  {
    if pattern == [] then 0
    else
      var k := |pattern| - 1;
      Bonus(pattern[..k], requested[..k], mp) + (if Hit(mp, pattern[k], requested[k]) then OffsetBonus(mp, pattern[k]) else 0)
  }

  function Rate(pattern: seq<int>, requested: seq<int>, mp: Mapping): int
    requires |pattern| == |requested| && AllCodes(pattern) && Complete(mp)
  {
    10 * Matches(pattern, requested, mp) + Bonus(pattern, requested, mp)
  }

  /** A parsed mode has an entry for each colour, at offset at most 2, so
      the `max(0, 2 - offset)` bonus never clamps. */
  lemma ParsedComplete(mode: string)
    requires ParseModeSpec(mode).Success?
    ensures Complete(ParseModeSpec(mode).value)
    ensures forall c :: 0 <= c < 3 ==> 0 <= ParseModeSpec(mode).value[c].0 <= 2
    ensures forall c :: 0 <= c < 3 ==> 0 <= ParseModeSpec(mode).value[c].1 <= 2
    ensures forall c :: 0 <= c < 3 ==> OffsetBonus(ParseModeSpec(mode).value, c) == 2 - ParseModeSpec(mode).value[c].1
  {
    ModeMappingFacts(mode);
  }

  /** `pattern_match_rating`: the mode is parsed first, then both patterns
      must have length 5 and hold only values 0, 1 and 2. */
  function PatternMatchRating(pattern: seq<int>, requested: seq<int>, mode: string): Result<int>
  {
    var parsed := ParseModeSpec(mode);
    if parsed.Failure? then Failure(parsed.error)
    else if |pattern| != 5 || |requested| != 5 then Failure(ValueError)
    else if !AllCodes(pattern) || !AllCodes(requested) then Failure(ValueError)
    else
      ParsedComplete(mode);
      Success(Rate(pattern, requested, parsed.value))
  }

  // ---------------------------------------------------------------------
  // Properties
  // ---------------------------------------------------------------------

  /** The bonus of each matching tile is at most 2. */
  lemma {:induction false} BonusBounds(pattern: seq<int>, requested: seq<int>, mp: Mapping)
    requires |pattern| == |requested| && AllCodes(pattern) && Complete(mp)
    requires forall c :: 0 <= c < 3 ==> mp[c].1 >= 0
    ensures 0 <= Bonus(pattern, requested, mp) <= 2 * Matches(pattern, requested, mp)
  {
    if pattern != [] {
      var k := |pattern| - 1;
      BonusBounds(pattern[..k], requested[..k], mp);
    }
  }

  /** A rating lies in 0..60. */
  lemma RatingBounds(pattern: seq<int>, requested: seq<int>, mode: string)
    requires PatternMatchRating(pattern, requested, mode).Success?
    ensures 0 <= PatternMatchRating(pattern, requested, mode).value <= 60
  {
    ParsedComplete(mode);
    BonusBounds(pattern, requested, ParseModeSpec(mode).value);
  }

  /** Under one mode, a pattern with strictly more group matches scores
      strictly higher. */
  lemma MoreMatchesScoreHigher(p1: seq<int>, r1: seq<int>, p2: seq<int>, r2: seq<int>, mode: string, mp: Mapping)
    requires PatternMatchRating(p1, r1, mode).Success? && PatternMatchRating(p2, r2, mode).Success?
    requires ParseModeSpec(mode) == Success(mp) && Complete(mp)
    requires |p1| == |r1| == |p2| == |r2| && AllCodes(p1) && AllCodes(p2)
    ensures Matches(p1, r1, mp) > Matches(p2, r2, mp) ==>
      PatternMatchRating(p1, r1, mode).value > PatternMatchRating(p2, r2, mode).value
  {
    ParsedComplete(mode);
    BonusBounds(p1, r1, mp);
    BonusBounds(p2, r2, mp);
  }

  /** Positions whose requested group holds no colour of the mode never
      match: when no requested value names a group of the mode, the
      rating is accepted and is 0. */
  lemma {:induction false} AbsentGroupsNeverMatch(pattern: seq<int>, requested: seq<int>, mp: Mapping)
    requires |pattern| == |requested| && AllCodes(pattern) && Complete(mp)
    requires forall i, c :: 0 <= i < |requested| && 0 <= c < 3 ==> mp[c].0 != requested[i]
    ensures Matches(pattern, requested, mp) == 0 && Bonus(pattern, requested, mp) == 0
  {
    if pattern != [] {
      var k := |pattern| - 1;
      AbsentGroupsNeverMatch(pattern[..k], requested[..k], mp);
    }
  }

  /** For a mode that parses to `mp` and well-formed patterns, the rating
      is the one computed on `mp`. */
  lemma RatingUnder(pattern: seq<int>, requested: seq<int>, mode: string, mp: Mapping)
    requires ParseModeSpec(mode) == Success(mp)
    requires |pattern| == 5 && |requested| == 5 && AllCodes(pattern) && AllCodes(requested)
    ensures Complete(mp)
    ensures PatternMatchRating(pattern, requested, mode) == Success(Rate(pattern, requested, mp))
  {
    ParsedComplete(mode);
  }

  /** A valid mode four characters long has two groups, so no colour
      lies in group 2. */
  lemma NoGroupTwo(mode: string)
    requires ValidMode(mode) && |mode| == 4
    ensures forall c :: 0 <= c < 3 ==> c in ModeMapping(mode) && ModeMapping(mode)[c].0 < 2
  {
    ShapeGroups(mode);
    ModeMappingFacts(mode);
  }

  /** A valid mode of two groups (such as 'x/gy') has no group 2, so
      requesting group 2 everywhere is accepted and rates 0. */
  lemma RequestingMissingGroupRatesZero(pattern: seq<int>, mode: string)
    requires ValidMode(mode) && |mode| == 4
    requires |pattern| == 5 && AllCodes(pattern)
    ensures PatternMatchRating(pattern, [2, 2, 2, 2, 2], mode) == Success(0)
  {
    var mp := ModeMapping(mode);
    var requested: seq<int> := [2, 2, 2, 2, 2];
    NoGroupTwo(mode);
    assert AllCodes(requested);
    RatingUnder(pattern, requested, mode, mp);
    forall i, c | 0 <= i < |requested| && 0 <= c < 3
      ensures mp[c].0 != requested[i]
    {
      assert requested[i] == 2;
    }
    AbsentGroupsNeverMatch(pattern, requested, mp);
  }

  /** The worked example: under 'x/gy', or any mode parsed the same way,
      [2,1,0,0,0] against [1,1,1,1,1] rates 23 (g and y lie in group 1 at
      offsets 0 and 1). */
  lemma WorkedExample(mode: string)
    requires ParseModeSpec(mode) == Success(map[0 := (0, 0), 2 := (1, 0), 1 := (1, 1)])
    ensures PatternMatchRating([2, 1, 0, 0, 0], [1, 1, 1, 1, 1], mode) == Success(23)
  {
    var mp := map[0 := (0, 0), 2 := (1, 0), 1 := (1, 1)];
    WorkedExampleRate(mp);
    assert AllCodes([1, 1, 1, 1, 1]);
    RatingUnder([2, 1, 0, 0, 0], [1, 1, 1, 1, 1], mode, mp);
  }

  lemma WorkedExampleRate(mp: Mapping)
    requires mp == map[0 := (0, 0), 2 := (1, 0), 1 := (1, 1)]
    ensures Complete(mp) && AllCodes([2, 1, 0, 0, 0])
    ensures Rate([2, 1, 0, 0, 0], [1, 1, 1, 1, 1], mp) == 23
  {
    var p: seq<int> := [2, 1, 0, 0, 0];
    var q: seq<int> := [1, 1, 1, 1, 1];
    assert p[..4] == [2, 1, 0, 0] && p[..3] == [2, 1, 0] && p[..2] == [2, 1] && p[..1] == [2];
    assert q[..4] == [1, 1, 1, 1] && q[..3] == [1, 1, 1] && q[..2] == [1, 1] && q[..1] == [1];
    assert Matches(p[..1], q[..1], mp) == 1 && Bonus(p[..1], q[..1], mp) == 2;
    assert p[..2][..1] == p[..1] && q[..2][..1] == q[..1];
    assert Matches(p[..2], q[..2], mp) == 2 && Bonus(p[..2], q[..2], mp) == 3;
    assert p[..3][..2] == p[..2] && q[..3][..2] == q[..2];
    assert Matches(p[..3], q[..3], mp) == 2 && Bonus(p[..3], q[..3], mp) == 3;
    assert p[..4][..3] == p[..3] && q[..4][..3] == q[..3];
    assert Matches(p[..4], q[..4], mp) == 2 && Bonus(p[..4], q[..4], mp) == 3;
  }

  // ---------------------------------------------------------------------
  // The rating loop as the source performs it
  // ---------------------------------------------------------------------

  /** `pattern_match_rating`: parses the mode, checks the lengths, then
      walks both patterns together, checking each value before use and
      counting group matches and offset bonuses. */
  method RatePattern(pattern: seq<int>, requested: seq<int>, mode: string) returns (r: Result<int>)
    ensures r == PatternMatchRating(pattern, requested, mode)
  {
    var parsed := ParseMode(mode);
    if parsed.Failure? {
      return Failure(parsed.error);
    }
    if |pattern| != 5 || |requested| != 5 {
      return Failure(ValueError);
    }
    ParsedComplete(mode);
    r := ScoreTiles(pattern, requested, parsed.value);
  }

  /** The loop of `pattern_match_rating` over the zipped patterns. */
  method ScoreTiles(pattern: seq<int>, requested: seq<int>, mp: Mapping) returns (r: Result<int>)
    requires |pattern| == 5 && |requested| == 5 && Complete(mp)
    ensures AllCodes(pattern) && AllCodes(requested) ==> r == Success(Rate(pattern, requested, mp))
    ensures !(AllCodes(pattern) && AllCodes(requested)) ==> r == Failure(ValueError)
  {
    var groupScore := 0;
    var colourScore := 0;
    for i := 0 to 5
      invariant AllCodes(pattern[..i]) && AllCodes(requested[..i])
      invariant groupScore == Matches(pattern[..i], requested[..i], mp)
      invariant colourScore == Bonus(pattern[..i], requested[..i], mp)
    {
      var p, rp := pattern[i], requested[i];
      if !IsCode(p) {
        return Failure(ValueError);
      }
      var (groupIndex, colourPos) := mp[p];
      if !IsCode(rp) {
        return Failure(ValueError);
      }
      assert pattern[..i + 1][..i] == pattern[..i] && requested[..i + 1][..i] == requested[..i];
      if groupIndex == rp {
        groupScore := groupScore + 1;
        colourScore := colourScore + (if 2 - colourPos > 0 then 2 - colourPos else 0);
      }
    }
    assert pattern[..5] == pattern && requested[..5] == requested;
    return Success(groupScore * 10 + colourScore);
  }
}
