/** String helpers of the host language that the core relies on:
    lower-casing (`str.lower`, of ASCII capitals only) and whitespace
    stripping (`str.strip`). */
module Text {

  /** Lower-cases an ASCII capital; every other character is kept. */
  function Lower(c: char): (r: char)
    ensures r == c || ('A' <= c <= 'Z' && r as int == c as int + 32)
    ensures 'A' <= c <= 'Z' ==> 'a' <= r <= 'z'
  {
    if 'A' <= c <= 'Z' then (c as int + 32) as char else c
  }

  function LowerStr(s: string): (r: string)
    ensures |r| == |s|
    ensures forall i :: 0 <= i < |s| ==> r[i] == Lower(s[i])
  {
    seq(|s|, i requires 0 <= i < |s| => Lower(s[i]))
  }

  /** The characters Python's `str.isspace` accepts: the ASCII controls
      9 to 13 and 28 to 31, the space, and the Unicode separators. */
  predicate IsSpace(c: char)
  {
    var n := c as int;
    n == 32 || 9 <= n <= 13 || 28 <= n <= 31 || n == 0x85 || n == 0xA0
    || n == 0x1680 || 0x2000 <= n <= 0x200A || n == 0x2028 || n == 0x2029
    || n == 0x202F || n == 0x205F || n == 0x3000
  }

  function StripLeft(s: string): (r: string)
    ensures |r| <= |s| && r == s[|s| - |r|..]
    ensures r == [] || !IsSpace(r[0])
  {
    if s != [] && IsSpace(s[0]) then StripLeft(s[1..]) else s
  }

  function StripRight(s: string): (r: string)
    ensures |r| <= |s| && r == s[..|r|]
    ensures r == [] || !IsSpace(r[|r| - 1])
  {
    if s != [] && IsSpace(s[|s| - 1]) then StripRight(s[..|s| - 1]) else s
  }

  /** `str.strip()`: drops leading and trailing whitespace. */
  function Strip(s: string): (r: string)
    ensures |r| <= |s|
    ensures r == [] || (!IsSpace(r[0]) && !IsSpace(r[|r| - 1]))
  {
    StripRight(StripLeft(s))
  }

  /** Only whitespace is dropped from the front. */
  lemma {:induction false} StripLeftDrops(s: string)
    ensures forall k :: 0 <= k < |s| - |StripLeft(s)| ==> IsSpace(s[k])
    decreases |s|
  {
    if s != [] && IsSpace(s[0]) {
      StripLeftDrops(s[1..]);
      forall k | 1 <= k < |s| - |StripLeft(s)|
        ensures IsSpace(s[k])
      {
        assert s[k] == s[1..][k - 1];
      }
    }
  }

  /** Only whitespace is dropped from the back. */
  lemma {:induction false} StripRightDrops(s: string)
    ensures forall k :: |StripRight(s)| <= k < |s| ==> IsSpace(s[k])
    decreases |s|
  {
    if s != [] && IsSpace(s[|s| - 1]) {
      StripRightDrops(s[..|s| - 1]);
      forall k | |StripRight(s)| <= k < |s| - 1
        ensures IsSpace(s[k])
      {
        assert s[k] == s[..|s| - 1][k];
      }
    }
  }

  /** `r` is the stretch of `s` starting at `i`, and every character of
      `s` before or after it is whitespace. */
  predicate TrimmedAt(s: string, r: string, i: int)
  {
    && 0 <= i <= |s| - |r| && r == s[i..i + |r|]
    && (forall k :: 0 <= k < i ==> IsSpace(s[k]))
    && (forall k :: i + |r| <= k < |s| ==> IsSpace(s[k]))
  }

  /** The stripped string is a stretch of `s` with only whitespace before
      and after it. */
  lemma StripTrims(s: string)
    ensures exists i :: TrimmedAt(s, Strip(s), i)
  {
    var left := StripLeft(s);
    var i := |s| - |left|;
    var r := Strip(s);
    assert r == StripRight(left);
    StripLeftDrops(s);
    StripRightDrops(left);
    assert left == s[i..] && r == left[..|r|];
    assert s[i..][..|r|] == s[i..i + |r|];
    forall k | i + |r| <= k < |s|
      ensures IsSpace(s[k])
    {
      assert s[k] == left[k - i];
    }
    assert TrimmedAt(s, r, i);
  }

  /** `word.strip().lower()`, the normalisation applied to dictionary words. */
  function Normalize(w: string): (r: string)
    ensures |r| <= |w|
  {
    LowerStr(Strip(w))
  }

  /** The normalised word is a stretch of `w`, with only whitespace
      around it, lower-cased. */
  lemma NormalizeTrims(w: string)
    ensures exists i, t :: TrimmedAt(w, t, i) && Normalize(w) == LowerStr(t)
  {
    StripTrims(w);
  }

  /** First index of `c` in `s` (`list.index` / `str.index`). */
  function IndexOf(s: string, c: char): (r: nat)
    requires c in s
    ensures r < |s| && s[r] == c && forall j :: 0 <= j < r ==> s[j] != c
  {
    if s[0] == c then 0 else 1 + IndexOf(s[1..], c)
  }

  /** `str.split(sep)`: the pieces between separators, empty pieces kept. */
  function Split(s: string, sep: char): (parts: seq<string>)
    ensures |parts| >= 1
    decreases |s|
  {
    if sep in s then
      var i := IndexOf(s, sep);
      [s[..i]] + Split(s[i + 1..], sep)
    else [s]
  }

  /** `sep.join(parts)`. */
  function Join(parts: seq<string>, sep: char): string
  {
    if |parts| == 0 then ""
    else if |parts| == 1 then parts[0]
    else parts[0] + [sep] + Join(parts[1..], sep)
  }

  /** Joining the pieces of a split gives the string back. */
  lemma {:induction false} JoinSplit(s: string, sep: char)
    ensures Join(Split(s, sep), sep) == s
    decreases |s|
  {
    if sep in s {
      var i := IndexOf(s, sep);
      JoinSplit(s[i + 1..], sep);
      assert Split(s, sep)[1..] == Split(s[i + 1..], sep);
      assert s == s[..i] + [sep] + s[i + 1..];
    }
  }

  /** Every character of every piece is a character of `s` other than `sep`. */
  lemma {:induction false} SplitChars(s: string, sep: char)
    ensures var parts := Split(s, sep);
      forall a, b :: 0 <= a < |parts| && 0 <= b < |parts[a]| ==> parts[a][b] != sep && parts[a][b] in s
    decreases |s|
  {
    if sep in s {
      var i := IndexOf(s, sep);
      var rest := s[i + 1..];
      SplitChars(rest, sep);
      var parts := Split(s, sep);
      assert parts == [s[..i]] + Split(rest, sep);
      forall a, b | 0 <= a < |parts| && 0 <= b < |parts[a]|
        ensures parts[a][b] != sep && parts[a][b] in s
      {
        if a == 0 {
          assert parts[a][b] == s[b];
        } else {
          var x := Split(rest, sep)[a - 1][b];
          assert parts[a][b] == x;
          var q :| 0 <= q < |rest| && rest[q] == x;
          assert s[i + 1 + q] == x;
        }
      }
    }
  }

  /** Every character of `s` other than `sep` lands in some piece. */
  lemma {:induction false} SplitCovers(s: string, sep: char, p: nat)
    requires p < |s| && s[p] != sep
    ensures exists a, b :: 0 <= a < |Split(s, sep)| && 0 <= b < |Split(s, sep)[a]| && Split(s, sep)[a][b] == s[p]
    decreases |s|
  {
    var parts := Split(s, sep);
    if sep in s {
      var i := IndexOf(s, sep);
      if p < i {
        assert parts == [s[..i]] + Split(s[i + 1..], sep);
        assert 0 <= p < |parts[0]| && parts[0][p] == s[p];
        assert exists a, b :: 0 <= a < |parts| && 0 <= b < |parts[a]| && parts[a][b] == s[p];
      } else {
        assert p != i;
        SplitCovers(s[i + 1..], sep, p - i - 1);
        var rest := Split(s[i + 1..], sep);
        var a, b :| 0 <= a < |rest| && 0 <= b < |rest[a]| && rest[a][b] == s[p];
        assert parts[a + 1] == rest[a];
        assert 0 <= a + 1 < |parts| && 0 <= b < |parts[a + 1]| && parts[a + 1][b] == s[p];
      }
    } else {
      assert parts[0][p] == s[p];
    }
  }

  /** When the characters of `s` other than `sep` are pairwise distinct,
      every character of every piece sits in exactly one place. */
  lemma {:induction false} SplitDistinct(s: string, sep: char)
    requires forall i, j :: 0 <= i < j < |s| && s[i] != sep ==> s[i] != s[j]
    ensures var parts := Split(s, sep);
      forall a, b, a', b' ::
        (0 <= a < |parts| && 0 <= b < |parts[a]| && 0 <= a' < |parts| && 0 <= b' < |parts[a']| &&
         parts[a][b] == parts[a'][b']) ==> a == a' && b == b'
    decreases |s|
  {
    if sep in s {
      var i := IndexOf(s, sep);
      var rest := s[i + 1..];
      assert forall x, y :: 0 <= x < y < |rest| && rest[x] != sep ==> rest[x] != rest[y] by {
        forall x, y | 0 <= x < y < |rest| && rest[x] != sep
          ensures rest[x] != rest[y]
        {
          assert rest[x] == s[i + 1 + x] && rest[y] == s[i + 1 + y];
        }
      }
      SplitDistinct(rest, sep);
      SplitChars(rest, sep);
      var parts := Split(s, sep);
      assert parts[1..] == Split(rest, sep);
      forall a, b, a', b' |
        0 <= a < |parts| && 0 <= b < |parts[a]| && 0 <= a' < |parts| && 0 <= b' < |parts[a']| &&
        parts[a][b] == parts[a'][b']
        ensures a == a' && b == b'
      {
        if a == 0 && a' == 0 {
          assert parts[0][b] == s[b] && parts[0][b'] == s[b'];
        } else if a != 0 && a' != 0 {
          assert parts[a] == Split(rest, sep)[a - 1] && parts[a'] == Split(rest, sep)[a' - 1];
        }
      }
    }
  }
}
