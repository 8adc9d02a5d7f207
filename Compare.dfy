/** The Wordle colouring rule: a guess compared with a target gives one
    tile per position, 2 (green), 1 (yellow) or 0 (gray). */
module WordCompare {
  import opened Common
  import opened Text

  const Gray := 0
  const Yellow := 1
  const Green := 2

  /** Five tiles, each a colour code. */
  predicate IsPattern(p: seq<int>)
  {
    |p| == 5 && forall i :: 0 <= i < 5 ==> 0 <= p[i] <= 2
  }

  // ---------------------------------------------------------------------
  // Reference definition of the colouring
  // ---------------------------------------------------------------------

  /** The letters of the target that are not matched by a green, counted
      with multiplicity: the pool from which yellows are drawn. */
  function NonGreenTarget(g: string, t: string): multiset<char>
    requires |g| == |t|
  {
    if g == [] then multiset{}
    else (if g[0] == t[0] then multiset{} else multiset{t[0]}) + NonGreenTarget(g[1..], t[1..])
  }

  /** Colours the positions left to right: a green stays green; any other
      position is yellow while the pool still holds its letter (taking one
      copy out of the pool), and gray otherwise. */
  function YellowPass(g: string, t: string, pool: multiset<char>): (col: seq<int>)
    requires |g| == |t|
    ensures |col| == |g|
  {
    if g == [] then []
    else if g[0] == t[0] then [Green] + YellowPass(g[1..], t[1..], pool)
    else if g[0] in pool then [Yellow] + YellowPass(g[1..], t[1..], pool - multiset{g[0]})
    else [Gray] + YellowPass(g[1..], t[1..], pool)
  }

  /** The pattern of guess `g` against target `t` (both already lower-case). */
  function Colouring(g: string, t: string): (col: seq<int>)
    requires |g| == |t|
    ensures |col| == |g|
  {
    YellowPass(g, t, NonGreenTarget(g, t))
  }

  // ---------------------------------------------------------------------
  // Counting helpers
  // ---------------------------------------------------------------------

  /** Number of positions outside the greens where the guess shows `c`. */
  function NonGreenGuessCount(g: string, t: string, c: char): nat
    requires |g| == |t|
  {
    if g == [] then 0
    else (if g[0] != t[0] && g[0] == c then 1 else 0) + NonGreenGuessCount(g[1..], t[1..], c)
  }

  /** Number of greens showing `c`. */
  function GreenCount(g: string, t: string, c: char): nat
    requires |g| == |t|
  {
    if g == [] then 0
    else (if g[0] == t[0] && g[0] == c then 1 else 0) + GreenCount(g[1..], t[1..], c)
  }

  /** Number of tiles of colour `v` that show the letter `c`. */
  function TileCount(col: seq<int>, g: string, c: char, v: int): nat
    requires |col| == |g|
  {
    if g == [] then 0
    else (if col[0] == v && g[0] == c then 1 else 0) + TileCount(col[1..], g[1..], c, v)
  }

  /** Number of non-gray tiles that show the letter `c`. */
  function NonGrayCount(col: seq<int>, g: string, c: char): nat
    requires |col| == |g|
  {
    if g == [] then 0
    else (if col[0] != Gray && g[0] == c then 1 else 0) + NonGrayCount(col[1..], g[1..], c)
  }

  /** Number of positions before `j` outside the greens where the guess shows `c`. */
  function NonGreenBefore(g: string, t: string, c: char, j: nat): nat
    requires |g| == |t| && j <= |g|
  {
    if j == 0 then 0
    else (if g[j - 1] != t[j - 1] && g[j - 1] == c then 1 else 0) + NonGreenBefore(g, t, c, j - 1)
  }

  // ---------------------------------------------------------------------
  // Properties of the reference definition
  // ---------------------------------------------------------------------

  /** The pass gives one colour code per position, and a tile is green
      exactly where guess and target agree. */
  lemma {:induction false} YellowPassShape(g: string, t: string, pool: multiset<char>)
    requires |g| == |t|
    ensures var col := YellowPass(g, t, pool);
      |col| == |g| &&
      forall i :: 0 <= i < |g| ==> 0 <= col[i] <= 2 && (col[i] == Green <==> g[i] == t[i])
  {
    if g != [] {
      var pool' := if g[0] != t[0] && g[0] in pool then pool - multiset{g[0]} else pool;
      YellowPassShape(g[1..], t[1..], pool');
      var col := YellowPass(g, t, pool);
      assert col[1..] == YellowPass(g[1..], t[1..], pool');
      forall i | 0 < i < |g|
        ensures 0 <= col[i] <= 2 && (col[i] == Green <==> g[i] == t[i])
      {
        assert col[i] == col[1..][i - 1];
      }
    }
  }

  lemma ColouringShape(g: string, t: string)
    requires |g| == |t|
    ensures |Colouring(g, t)| == |g|
    ensures forall i :: 0 <= i < |g| ==> 0 <= Colouring(g, t)[i] <= 2
    ensures forall i :: 0 <= i < |g| ==> (Colouring(g, t)[i] == Green <==> g[i] == t[i])
  {
    YellowPassShape(g, t, NonGreenTarget(g, t));
  }

  /** A word compared with itself is all green. */
  lemma SelfIsAllGreen(w: string)
    requires |w| == 5
    ensures Colouring(w, w) == [Green, Green, Green, Green, Green]
  {
    ColouringShape(w, w);
  }

  /** A yellow tile's letter is always drawn from the pool. */
  lemma {:induction false} YellowFromPool(g: string, t: string, pool: multiset<char>, i: nat)
    requires |g| == |t| && i < |g|
    ensures YellowPass(g, t, pool)[i] == Yellow ==> g[i] in pool
  {
    YellowPassShape(g, t, pool);
    if g != [] && i > 0 {
      var pool' := if g[0] != t[0] && g[0] in pool then pool - multiset{g[0]} else pool;
      YellowFromPool(g[1..], t[1..], pool', i - 1);
      assert YellowPass(g, t, pool)[i] == YellowPass(g[1..], t[1..], pool')[i - 1];
    }
  }

  lemma {:induction false} NonGreenTargetInTarget(g: string, t: string)
    requires |g| == |t|
    ensures NonGreenTarget(g, t) <= multiset(t)
  {
    if g != [] {
      NonGreenTargetInTarget(g[1..], t[1..]);
      assert t == [t[0]] + t[1..];
    }
  }

  /** A letter that does not occur in the target is always gray. */
  lemma AbsentLetterIsGray(g: string, t: string, i: nat)
    requires |g| == |t| && i < |g|
    requires g[i] !in t
    ensures Colouring(g, t)[i] == Gray
  {
    ColouringShape(g, t);
    YellowFromPool(g, t, NonGreenTarget(g, t), i);
    NonGreenTargetInTarget(g, t);
  }

  /** Yellows go to the leftmost non-green guess positions: tile `j`
      (not green) showing `c` is yellow iff fewer than `pool[c]` non-green
      positions between `i` and `j` show `c`. */
  lemma {:induction false} YellowLeftmostFrom(g: string, t: string, pool: multiset<char>, i: nat, j: nat)
    requires |g| == |t| && i <= j < |g| && g[j] != t[j]
    ensures (YellowPass(g[i..], t[i..], pool)[j - i] == Yellow
        <==> NonGreenBefore(g, t, g[j], j) - NonGreenBefore(g, t, g[j], i) < pool[g[j]])
    decreases j - i
  {
    var gi, ti := g[i..], t[i..];
    var c := g[j];
    if i == j {
      assert gi[0] == c && ti[0] != c;
    } else {
      var taken := g[i] != t[i] && g[i] in pool;
      var pool' := if taken then pool - multiset{g[i]} else pool;
      assert gi[0] == g[i] && ti[0] == t[i];
      assert gi[1..] == g[i + 1..] && ti[1..] == t[i + 1..];
      assert YellowPass(gi, ti, pool)[j - i] == YellowPass(g[i + 1..], t[i + 1..], pool')[j - i - 1];
      YellowLeftmostFrom(g, t, pool', i + 1, j);
      NonGreenBeforeMono(g, t, c, i + 1, j);
      assert NonGreenBefore(g, t, c, i + 1)
        == (if g[i] != t[i] && g[i] == c then 1 else 0) + NonGreenBefore(g, t, c, i);
      assert pool'[c] == pool[c] - (if taken && g[i] == c then 1 else 0);
    }
  }

  lemma {:induction false} NonGreenBeforeMono(g: string, t: string, c: char, i: nat, j: nat)
    requires |g| == |t| && i <= j <= |g|
    ensures NonGreenBefore(g, t, c, i) <= NonGreenBefore(g, t, c, j)
    decreases j - i
  {
    if i < j {
      NonGreenBeforeMono(g, t, c, i, j - 1);
    }
  }

  lemma {:induction false} NonGreenTargetCount(g: string, t: string, c: char)
    requires |g| == |t|
    ensures GreenCount(g, t, c) + NonGreenTarget(g, t)[c] == multiset(t)[c]
  {
    if g != [] {
      NonGreenTargetCount(g[1..], t[1..], c);
      assert t == [t[0]] + t[1..];
    }
  }

  /** Tile `j` of the pattern, when not green, is yellow exactly when fewer
      non-green positions to its left show its letter than there are
      non-green target positions holding that letter. */
  lemma YellowLeftmost(g: string, t: string, j: nat)
    requires |g| == |t| && j < |g| && g[j] != t[j]
    ensures (Colouring(g, t)[j] == Yellow <==> NonGreenBefore(g, t, g[j], j) < NonGreenTarget(g, t)[g[j]])
  {
    ColouringShape(g, t);
    YellowLeftmostFrom(g, t, NonGreenTarget(g, t), 0, j);
    assert g[0..] == g && t[0..] == t;
  }

  /** The number of yellows showing `c` is the smaller of the non-green
      occurrences of `c` in the guess and the size of the pool for `c`. */
  lemma {:induction false} YellowCountFrom(g: string, t: string, pool: multiset<char>, c: char)
    requires |g| == |t|
    ensures TileCount(YellowPass(g, t, pool), g, c, Yellow) == Min(NonGreenGuessCount(g, t, c), pool[c])
  {
    YellowPassShape(g, t, pool);
    if g != [] {
      var pool' := if g[0] != t[0] && g[0] in pool then pool - multiset{g[0]} else pool;
      YellowPassShape(g[1..], t[1..], pool');
      assert YellowPass(g, t, pool)[1..] == YellowPass(g[1..], t[1..], pool');
      YellowCountFrom(g[1..], t[1..], pool', c);
    }
  }

  function Min(a: int, b: int): int
  {
    if a < b then a else b
  }

  /** Non-gray tiles showing `c` are the greens and the yellows showing `c`. */
  lemma {:induction false} NonGraySplit(g: string, t: string, pool: multiset<char>, c: char)
    requires |g| == |t|
    ensures NonGrayCount(YellowPass(g, t, pool), g, c)
        == GreenCount(g, t, c) + TileCount(YellowPass(g, t, pool), g, c, Yellow)
  {
    YellowPassShape(g, t, pool);
    if g != [] {
      var pool' := if g[0] != t[0] && g[0] in pool then pool - multiset{g[0]} else pool;
      YellowPassShape(g[1..], t[1..], pool');
      assert YellowPass(g, t, pool)[1..] == YellowPass(g[1..], t[1..], pool');
      NonGraySplit(g[1..], t[1..], pool', c);
    }
  }

  /** For every letter `c`: the yellows showing `c` number exactly
      min(non-green guess positions with `c`, non-green target positions
      with `c`), and the non-gray tiles showing `c` never exceed the
      occurrences of `c` in the target. */
  lemma LetterBudget(g: string, t: string, c: char)
    requires |g| == |t|
    ensures TileCount(Colouring(g, t), g, c, Yellow) == Min(NonGreenGuessCount(g, t, c), NonGreenTarget(g, t)[c])
    ensures NonGrayCount(Colouring(g, t), g, c) <= multiset(t)[c]
  {
    ColouringShape(g, t);
    YellowCountFrom(g, t, NonGreenTarget(g, t), c);
    NonGraySplit(g, t, NonGreenTarget(g, t), c);
    NonGreenTargetCount(g, t, c);
  }

  /** The regression example: comparing "crazy" with "cigar" makes the
      first tile green. */
  lemma CrazyCigarStartsGreen()
    ensures Colouring("crazy", "cigar")[0] == Green
  {
    ColouringShape("crazy", "cigar");
  }

  // ---------------------------------------------------------------------
  // The two-pass comparison as the source performs it
  // ---------------------------------------------------------------------

  lemma MultisetUpdate(s: string, k: nat, v: char)
    requires k < |s|
    ensures multiset(s[k := v]) == multiset(s) - multiset{s[k]} + multiset{v}
  {
    assert s == s[..k] + [s[k]] + s[k + 1..];
    assert s[k := v] == s[..k] + [v] + s[k + 1..];
  }

  lemma {:induction false} ErasedGreensArePool(g: string, t: string, tc: string)
    requires |g| == |t| == |tc|
    requires forall p :: 0 <= p < |g| ==> tc[p] == (if g[p] == t[p] then '\0' else t[p])
    ensures forall c :: c != '\0' ==> multiset(tc)[c] == NonGreenTarget(g, t)[c]
  {
    if g != [] {
      ErasedGreensArePool(g[1..], t[1..], tc[1..]);
      assert tc == [tc[0]] + tc[1..];
    }
  }

  /** Positions `lo..i` that the second pass does not visit keep their
      first-pass colour in the reference definition too. */
  lemma {:induction false} SkipSpan(g: string, t: string, pool: multiset<char>, res: seq<int>,
                                    col: seq<int>, lo: nat, i: nat)
    requires |g| == |t| == |res| == |col| && lo <= i <= |g|
    requires forall p :: lo <= p < i ==> res[p] == (if g[p] == t[p] then Green else Gray)
    requires forall p :: lo <= p < i && g[p] != t[p] ==> g[p] !in pool
    requires col[lo..] == YellowPass(g[lo..], t[lo..], pool)
    ensures forall p :: lo <= p < i ==> col[p] == res[p]
    ensures col[i..] == YellowPass(g[i..], t[i..], pool)
    decreases i - lo
  {
    if lo < i {
      assert g[lo..][1..] == g[lo + 1..] && t[lo..][1..] == t[lo + 1..];
      assert col[lo..][1..] == col[lo + 1..];
      assert col[lo] == col[lo..][0];
      SkipSpan(g, t, pool, res, col, lo + 1, i);
    }
  }

  /** At a remembered position the reference definition draws from the pool
      exactly when the letter is still there. */
  lemma UnfoldAt(g: string, t: string, pool: multiset<char>, col: seq<int>, i: nat)
    requires |g| == |t| == |col| && i < |g| && g[i] != t[i]
    requires col[i..] == YellowPass(g[i..], t[i..], pool)
    ensures col[i] == (if g[i] in pool then Yellow else Gray)
    ensures col[i + 1..] == YellowPass(g[i + 1..], t[i + 1..], if g[i] in pool then pool - multiset{g[i]} else pool)
  {
    assert g[i..][1..] == g[i + 1..] && t[i..][1..] == t[i + 1..];
    assert col[i..][1..] == col[i + 1..];
    assert col[i] == col[i..][0];
  }

  /** Between two consecutive remembered positions the second pass changes
      nothing: those positions are green, or gray with a letter gone from
      the pool. */
  lemma SkipToPending(g: string, t: string, pool: multiset<char>, tc: string, res: seq<int>,
                      col: seq<int>, pending: seq<int>, k: nat, lo: nat)
    requires |g| == |t| == |res| == |tc| == |col| == 5 && '\0' !in g
    requires k < |pending|
    requires forall j :: 0 <= j < |pending| ==> 0 <= pending[j] < 5
    requires forall j, l :: 0 <= j < l < |pending| ==> pending[j] < pending[l]
    requires lo == (if k == 0 then 0 else pending[k - 1] + 1)
    requires forall p :: lo <= p < 5 ==> res[p] == (if g[p] == t[p] then Green else Gray)
    requires forall c :: c != '\0' ==> multiset(tc)[c] == pool[c]
    requires forall p :: 0 <= p < 5 && g[p] != t[p] && p !in pending ==> g[p] !in tc
    requires col[lo..] == YellowPass(g[lo..], t[lo..], pool)
    ensures lo <= pending[k]
    ensures forall p :: lo <= p < pending[k] ==> col[p] == res[p]
    ensures col[pending[k]..] == YellowPass(g[pending[k]..], t[pending[k]..], pool)
  {
    var i := pending[k];
    forall p | lo <= p < i && g[p] != t[p]
      ensures g[p] !in pool
    {
      assert p !in pending by {
        forall l | 0 <= l < |pending|
          ensures pending[l] != p
        {
          if l < k {
            assert k > 0 && pending[l] <= pending[k - 1];
          }
        }
      }
      assert multiset(tc)[g[p]] == 0;
    }
    SkipSpan(g, t, pool, res, col, lo, i);
  }

  /** Consuming a copy of a letter keeps the target buffer and the pool in
      step, and positions never remembered stay absent from the buffer. */
  lemma ConsumeStep(g: string, t: string, pool: multiset<char>, tc: string, pending: seq<int>, i: nat)
    requires |g| == |t| == |tc| == 5 && '\0' !in g && i < 5
    requires g[i] in tc
    requires forall c :: c != '\0' ==> multiset(tc)[c] == pool[c]
    requires forall p :: 0 <= p < 5 && g[p] != t[p] && p !in pending ==> g[p] !in tc
    ensures var tc' := tc[IndexOf(tc, g[i]) := '\0'];
      && (forall c :: c != '\0' ==> multiset(tc')[c] == (pool - multiset{g[i]})[c])
      && (forall p :: 0 <= p < 5 && g[p] != t[p] && p !in pending ==> g[p] !in tc')
  {
    var j := IndexOf(tc, g[i]);
    MultisetUpdate(tc, j, '\0');
    var tc' := tc[j := '\0'];
    forall p | 0 <= p < 5 && g[p] != t[p] && p !in pending
      ensures g[p] !in tc'
    {
      assert multiset(tc)[g[p]] == 0;
    }
  }

  /** First pass of `compare_words`: greens are marked and their target
      letters overwritten with the sentinel; every other position whose
      letter is still present is remembered, in increasing order. */
  method MarkGreens(g: string, t: string) returns (result: seq<int>, tc: string, pending: seq<int>)
    requires |g| == |t| == 5
    ensures |tc| == 5 && |result| == 5
    ensures forall p :: 0 <= p < 5 ==> tc[p] == (if g[p] == t[p] then '\0' else t[p])
    ensures forall p :: 0 <= p < 5 ==> result[p] == (if g[p] == t[p] then Green else Gray)
    ensures forall k :: 0 <= k < |pending| ==> 0 <= pending[k] < 5 && g[pending[k]] != t[pending[k]]
    ensures forall k, l :: 0 <= k < l < |pending| ==> pending[k] < pending[l]
    ensures '\0' !in g ==> forall p :: 0 <= p < 5 && g[p] != t[p] && p !in pending ==> g[p] !in tc
  {
    tc := t;
    result := [Gray, Gray, Gray, Gray, Gray];
    pending := [];
    for i := 0 to 5
      invariant |tc| == 5 && |result| == 5
      invariant forall p :: 0 <= p < i ==> tc[p] == (if g[p] == t[p] then '\0' else t[p])
      invariant forall p :: i <= p < 5 ==> tc[p] == t[p]
      invariant forall p :: 0 <= p < 5 ==> result[p] == (if p < i && g[p] == t[p] then Green else Gray)
      invariant forall k :: 0 <= k < |pending| ==> 0 <= pending[k] < i && g[pending[k]] != t[pending[k]]
      invariant forall k, l :: 0 <= k < l < |pending| ==> pending[k] < pending[l]
      invariant '\0' !in g ==> forall p :: 0 <= p < i && g[p] != t[p] && p !in pending ==> g[p] !in tc
    {
      if g[i] == tc[i] {
        result := result[i := Green];
        tc := tc[i := '\0'];
      } else if g[i] in tc {
        pending := pending + [i];
      }
    }
  }

  /** The remembered positions are in range, not green, and increasing. */
  predicate PendingOk(g: string, t: string, pending: seq<int>)
  {
    && |g| == |t| == 5
    && (forall k :: 0 <= k < |pending| ==> 0 <= pending[k] < 5 && g[pending[k]] != t[pending[k]])
    && (forall k, l :: 0 <= k < l < |pending| ==> pending[k] < pending[l])
  }

  /** The state of the second pass once `k` remembered positions are
      done: `lo` is the first position not yet settled. Positions from
      `lo` on keep their first-pass colour; for a guess without the
      sentinel, settled positions agree with the reference colouring, the
      rest of the reference is the yellow pass from `lo` with `pool`, the
      buffer holds exactly `pool`'s letters, and letters of positions
      never remembered are absent from it. */
  ghost predicate YellowState(g: string, t: string, pending: seq<int>, k: nat, lo: nat,
                              result: seq<int>, tc: string, pool: multiset<char>)
    requires PendingOk(g, t, pending) && k <= |pending|
  {
    && |tc| == 5 && |result| == 5
    && lo == (if k == 0 then 0 else pending[k - 1] + 1)
    && lo <= 5
    && (forall p :: lo <= p < 5 ==> result[p] == (if g[p] == t[p] then Green else Gray))
    && (forall p :: 0 <= p < lo ==> 0 <= result[p] <= 2 && (result[p] == Green <==> g[p] == t[p]))
    && ('\0' !in g ==>
          && (forall p :: 0 <= p < lo ==> result[p] == Colouring(g, t)[p])
          && Colouring(g, t)[lo..] == YellowPass(g[lo..], t[lo..], pool)
          && (forall c :: c != '\0' ==> multiset(tc)[c] == pool[c])
          && (forall p :: 0 <= p < 5 && g[p] != t[p] && p !in pending ==> g[p] !in tc))
  }

  /** One step of the second pass: remembered position `pending[k]` turns
      yellow when an unconsumed copy of its letter remains, consuming the
      first such copy. */
  method MarkYellow(g: string, ghost t: string, pending: seq<int>, k: nat, result: seq<int>, tc: string,
                    ghost lo: nat, ghost pool: multiset<char>)
    returns (result': seq<int>, tc': string, ghost pool': multiset<char>)
    requires PendingOk(g, t, pending) && k < |pending|
    requires YellowState(g, t, pending, k, lo, result, tc, pool)
    ensures YellowState(g, t, pending, k + 1, pending[k] + 1, result', tc', pool')
  {
    ghost var clean := '\0' !in g;
    ghost var col := Colouring(g, t);
    var i := pending[k];
    if clean {
      assert g[i] in tc <==> g[i] in pool by {
        assert multiset(tc)[g[i]] == pool[g[i]];
      }
      SkipToPending(g, t, pool, tc, result, col, pending, k, lo);
      UnfoldAt(g, t, pool, col, i);
      if g[i] in tc {
        ConsumeStep(g, t, pool, tc, pending, i);
      }
    }
    result', tc', pool' := result, tc, pool;
    if g[i] in tc {
      var j := IndexOf(tc, g[i]);
      result' := result[i := Yellow];
      tc' := tc[j := '\0'];
      if clean {
        pool' := pool - multiset{g[i]};
      }
    }
  }

  /** The state before the second pass: nothing settled, the buffer is
      the pool of non-green target letters. */
  lemma YellowStart(g: string, t: string, pending: seq<int>, result0: seq<int>, tc0: string)
    requires PendingOk(g, t, pending) && |tc0| == 5 && |result0| == 5
    requires forall p :: 0 <= p < 5 ==> tc0[p] == (if g[p] == t[p] then '\0' else t[p])
    requires forall p :: 0 <= p < 5 ==> result0[p] == (if g[p] == t[p] then Green else Gray)
    requires '\0' !in g ==> forall p :: 0 <= p < 5 && g[p] != t[p] && p !in pending ==> g[p] !in tc0
    ensures YellowState(g, t, pending, 0, 0, result0, tc0, NonGreenTarget(g, t))
  {
    ErasedGreensArePool(g, t, tc0);
    assert g[0..] == g && t[0..] == t && Colouring(g, t)[0..] == Colouring(g, t);
  }

  /** After the last remembered position the result is a pattern, green
      exactly where the letters agree, and for a guess without the
      sentinel it is the reference colouring. */
  lemma YellowDone(g: string, t: string, pending: seq<int>, lo: nat, result: seq<int>, tc: string,
                   pool: multiset<char>)
    requires PendingOk(g, t, pending)
    requires YellowState(g, t, pending, |pending|, lo, result, tc, pool)
    ensures IsPattern(result)
    ensures forall p :: 0 <= p < 5 ==> (result[p] == Green <==> g[p] == t[p])
    ensures '\0' !in g ==> result == Colouring(g, t)
  {
    if '\0' !in g {
      SkipSpan(g, t, pool, result, Colouring(g, t), lo, 5);
    }
  }

  /** Second pass of `compare_words`: each remembered position, in order,
      turns yellow while an unconsumed copy of its letter remains. */
  method MarkYellows(g: string, ghost t: string, result0: seq<int>, tc0: string, pending: seq<int>)
    returns (result: seq<int>)
    requires PendingOk(g, t, pending) && |tc0| == 5 && |result0| == 5
    requires forall p :: 0 <= p < 5 ==> tc0[p] == (if g[p] == t[p] then '\0' else t[p])
    requires forall p :: 0 <= p < 5 ==> result0[p] == (if g[p] == t[p] then Green else Gray)
    requires '\0' !in g ==> forall p :: 0 <= p < 5 && g[p] != t[p] && p !in pending ==> g[p] !in tc0
    ensures IsPattern(result)
    ensures forall p :: 0 <= p < 5 ==> (result[p] == Green <==> g[p] == t[p])
    ensures '\0' !in g ==> result == Colouring(g, t)
  {
    var tc := tc0;
    result := result0;
    ghost var pool := NonGreenTarget(g, t);
    ghost var lo: nat := 0;
    YellowStart(g, t, pending, result, tc);
    for k := 0 to |pending|
      invariant YellowState(g, t, pending, k, lo, result, tc, pool)
    {
      result, tc, pool := MarkYellow(g, t, pending, k, result, tc, lo, pool);
      lo := pending[k] + 1;
    }
    YellowDone(g, t, pending, lo, result, tc, pool);
  }

  /** `compare_words`: lower-cases both words, rejects any length but 5,
      then runs the green pass and the yellow pass. */
  method CompareWords(guess: string, target: string) returns (r: Result<seq<int>>)
    ensures r.Failure? <==> |guess| != 5 || |target| != 5
    ensures r.Failure? ==> r.error == ValueError
    ensures r.Success? ==> IsPattern(r.value)
    ensures r.Success? ==> forall i :: 0 <= i < 5 ==>
      (r.value[i] == Green <==> Lower(guess[i]) == Lower(target[i]))
    ensures r.Success? && '\0' !in guess ==> r.value == Colouring(LowerStr(guess), LowerStr(target))
  {
    var g := LowerStr(guess);
    var t := LowerStr(target);
    if !(|g| == |t| == 5) {
      return Failure(ValueError);
    }
    var result, tc, pending := MarkGreens(g, t);
    result := MarkYellows(g, t, result, tc, pending);
    return Success(result);
  }
}
