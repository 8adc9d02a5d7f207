/** Modes: a mode string such as "x/gy" lists the colour letters x (gray),
    y (yellow) and g (green) in groups separated by '/'. Parsing it gives,
    for each colour code (0 = x, 1 = y, 2 = g), its group index and its
    offset within that group. */
module ModeCodec {
  import opened Common
  import opened Text

  type Mapping = map<int, (int, int)>

  predicate IsColour(ch: char)
  {
    ch == 'x' || ch == 'y' || ch == 'g'
  }

  function ColourIndex(ch: char): (c: int)
    requires IsColour(ch)
    ensures 0 <= c < 3
  {
    if ch == 'x' then 0 else if ch == 'y' then 1 else 2
  }

  function Letter(c: int): (ch: char)
    requires 0 <= c < 3
    ensures IsColour(ch) && ColourIndex(ch) == c
  {
    if c == 0 then 'x' else if c == 1 then 'y' else 'g'
  }

  // ---------------------------------------------------------------------
  // The accepted language
  // ---------------------------------------------------------------------

  /** One of the four shapes: three letters, two then one, one then two,
      or one, one and one, with '/' between groups. */
  predicate ShapeOk(m: string)
  {
    || (|m| == 3 && IsColour(m[0]) && IsColour(m[1]) && IsColour(m[2]))
    || (|m| == 4 && IsColour(m[0]) && IsColour(m[1]) && m[2] == '/' && IsColour(m[3]))
    || (|m| == 4 && IsColour(m[0]) && m[1] == '/' && IsColour(m[2]) && IsColour(m[3]))
    || (|m| == 5 && IsColour(m[0]) && m[1] == '/' && IsColour(m[2]) && m[3] == '/' && IsColour(m[4]))
  }

  /** No colour letter occurs twice. */
  predicate NoRepeatedColour(m: string)
  {
    forall i, j :: 0 <= i < j < |m| && IsColour(m[i]) ==> m[i] != m[j]
  }

  predicate ValidMode(m: string)
  {
    ShapeOk(m) && NoRepeatedColour(m)
  }

  /** The language of the validating pattern: `$` also matches just before
      a final newline, so a valid mode followed by "\n" passes too. */
  predicate PatternAccepts(m: string)
  {
    ValidMode(m) || (|m| > 0 && m[|m| - 1] == '\n' && ValidMode(m[..|m| - 1]))
  }

  // ---------------------------------------------------------------------
  // Reference definition of the mapping
  // ---------------------------------------------------------------------

  /** The first (group, offset) slot of `groups` holding `ch`. */
  function Locate(groups: seq<string>, ch: char): (r: Option<(int, int)>)
    ensures r.Some? ==> 0 <= r.value.0 < |groups| && 0 <= r.value.1 < |groups[r.value.0]|
                        && groups[r.value.0][r.value.1] == ch
  {
    if groups == [] then None
    else if ch in groups[0] then Some((0, IndexOf(groups[0], ch)))
    else match Locate(groups[1..], ch)
      case None => None
      case Some(slot) => Some((slot.0 + 1, slot.1))
  }

  /** Each colour code whose letter occurs maps to its first slot. */
  function SlotMap(groups: seq<string>): Mapping
  {
    map c | 0 <= c < 3 && Locate(groups, Letter(c)).Some? :: Locate(groups, Letter(c)).value
  }

  function ModeMapping(mode: string): Mapping
  {
    SlotMap(Split(mode, '/'))
  }

  /** `parse_mode` as a function: ValueError when the pattern rejects the
      string, KeyError when it is accepted but holds a non-colour
      character, and the mapping otherwise. */
  function ParseModeSpec(mode: string): Result<Mapping>
  {
    if !PatternAccepts(mode) then Failure(ValueError)
    else if ValidMode(mode) then Success(ModeMapping(mode))
    else Failure(KeyError)
  }

  // ---------------------------------------------------------------------
  // Rendering a mapping back into a mode string
  // ---------------------------------------------------------------------

  predicate IsFullMapping(mp: Mapping)
  {
    mp.Keys == {0, 1, 2} && forall c :: c in mp ==> mp[c].0 >= 0 && mp[c].1 >= 0
  }

  /** How many colours the mapping puts in group `a`. */
  function GroupSize(mp: Mapping, a: int): nat
    requires IsFullMapping(mp)
  {
    (if mp[0].0 == a then 1 else 0) + (if mp[1].0 == a then 1 else 0) + (if mp[2].0 == a then 1 else 0)
  }

  /** The letter the mapping places at group `a`, offset `b`. */
  function LetterAt(mp: Mapping, a: int, b: int): char
    requires IsFullMapping(mp)
  {
    if mp[0] == (a, b) then 'x' else if mp[1] == (a, b) then 'y' else 'g'
  }

  function GroupCount(mp: Mapping): nat
    requires IsFullMapping(mp)
  {
    var m := if mp[0].0 < mp[1].0 then mp[1].0 else mp[0].0;
    (if m < mp[2].0 then mp[2].0 else m) + 1
  }

  /** Places every colour letter at its (group, offset) and joins the
      groups with '/'. */
  function Render(mp: Mapping): string
    requires IsFullMapping(mp)
  {
    Join(RenderGroups(mp), '/')
  }

  function RenderGroups(mp: Mapping): seq<string>
    requires IsFullMapping(mp)
  {
    seq(GroupCount(mp), a => seq(GroupSize(mp, a), b => LetterAt(mp, a, b)))
  }

  // ---------------------------------------------------------------------
  // Properties
  // ---------------------------------------------------------------------

  /** Every slot of `gs` holds a colour letter. */
  predicate AllColours(gs: seq<string>)
  {
    forall a, b :: 0 <= a < |gs| && 0 <= b < |gs[a]| ==> IsColour(gs[a][b])
  }

  /** No letter occupies two slots of `gs`. */
  predicate DistinctSlots(gs: seq<string>)
  {
    forall a, b, a', b' ::
      (0 <= a < |gs| && 0 <= b < |gs[a]| && 0 <= a' < |gs| && 0 <= b' < |gs[a']| &&
       gs[a][b] == gs[a'][b']) ==> a == a' && b == b'
  }

  /** One to three groups, each of one to three letters. */
  predicate SmallGroups(gs: seq<string>)
  {
    1 <= |gs| <= 3 && forall a :: 0 <= a < |gs| ==> 1 <= |gs[a]| <= 3
  }

  /** `mp` has the keys 0, 1, 2 and places each colour at a slot holding
      its letter. */
  predicate Places(mp: Mapping, gs: seq<string>)
  {
    mp.Keys == {0, 1, 2} &&
    forall c :: 0 <= c < 3 ==>
      0 <= mp[c].0 < |gs| && 0 <= mp[c].1 < |gs[mp[c].0]| && gs[mp[c].0][mp[c].1] == Letter(c)
  }

  /** The groups of each accepted shape. */
  lemma ShapeGroups(m: string)
    requires ShapeOk(m)
    ensures |m| == 3 ==> Split(m, '/') == [m]
    ensures |m| == 4 && m[2] == '/' ==> Split(m, '/') == [m[..2], m[3..]]
    ensures |m| == 4 && m[1] == '/' ==> Split(m, '/') == [m[..1], m[2..]]
    ensures |m| == 5 ==> Split(m, '/') == [m[..1], m[2..3], m[4..]]
  {
    if |m| == 3 {
      assert '/' !in m;
    } else if |m| == 4 && m[2] == '/' {
      assert IndexOf(m, '/') == 2;
      assert m[3..] == [m[3]];
    } else if |m| == 4 {
      assert IndexOf(m, '/') == 1;
      assert m[2..] == [m[2], m[3]];
    } else {
      assert IndexOf(m, '/') == 1;
      var rest := m[2..];
      assert rest == [m[2], '/', m[4]];
      assert IndexOf(rest, '/') == 1;
      assert rest[2..] == [m[4]];
      assert Split(rest, '/') == [rest[..1], rest[2..]];
      assert rest[..1] == m[2..3] && rest[2..] == m[4..];
    }
  }

  lemma ShapeSmallGroups(m: string)
    requires ShapeOk(m)
    ensures SmallGroups(Split(m, '/'))
  {
    ShapeGroups(m);
  }

  /** Every colour letter occurs in a valid mode. */
  lemma LetterOccurs(m: string, ch: char)
    requires ValidMode(m) && IsColour(ch)
    ensures ch in m
  {
    var ps := if |m| == 3 then [0, 1, 2]
              else if |m| == 4 && m[2] == '/' then [0, 1, 3]
              else if |m| == 4 then [0, 2, 3]
              else [0, 2, 4];
    assert m[ps[0]] != m[ps[1]] && m[ps[0]] != m[ps[2]] && m[ps[1]] != m[ps[2]];
    assert m[ps[0]] == ch || m[ps[1]] == ch || m[ps[2]] == ch;
  }

  lemma {:induction false} LocateFinds(gs: seq<string>, ch: char, a: int, b: int)
    requires 0 <= a < |gs| && 0 <= b < |gs[a]| && gs[a][b] == ch
    ensures Locate(gs, ch).Some?
  {
    if a > 0 && ch !in gs[0] {
      LocateFinds(gs[1..], ch, a - 1, b);
    }
  }

  /** When `ch` has exactly one slot, Locate finds that slot. */
  lemma {:induction false} LocateUnique(gs: seq<string>, ch: char, a: int, b: int)
    requires 0 <= a < |gs| && 0 <= b < |gs[a]| && gs[a][b] == ch
    requires forall a', b' :: 0 <= a' < |gs| && 0 <= b' < |gs[a']| && gs[a'][b'] == ch ==> a' == a && b' == b
    ensures Locate(gs, ch) == Some((a, b))
  {
    if a == 0 {
      assert ch in gs[0];
    } else {
      assert ch !in gs[0];
      LocateUnique(gs[1..], ch, a - 1, b);
    }
  }

  /** The groups of a valid mode: small, all colour letters, no letter
      twice, and every colour letter somewhere. */
  lemma ValidModeGroups(m: string)
    requires ValidMode(m)
    ensures var gs := Split(m, '/');
      SmallGroups(gs) && AllColours(gs) && DistinctSlots(gs) &&
      forall c :: 0 <= c < 3 ==> Locate(gs, Letter(c)).Some?
  {
    var gs := Split(m, '/');
    ShapeSmallGroups(m);
    SplitChars(m, '/');
    assert forall ch :: ch in m ==> IsColour(ch) || ch == '/';
    SplitDistinct(m, '/');
    forall c | 0 <= c < 3
      ensures Locate(gs, Letter(c)).Some?
    {
      LetterOccurs(m, Letter(c));
      var p :| 0 <= p < |m| && m[p] == Letter(c);
      SplitCovers(m, '/', p);
      var a, b :| 0 <= a < |gs| && 0 <= b < |gs[a]| && gs[a][b] == m[p];
      LocateFinds(gs, Letter(c), a, b);
    }
  }

  /** On groups whose letters are distinct, the slot map places every
      located colour at its one slot. */
  lemma SlotMapPlaces(gs: seq<string>)
    requires DistinctSlots(gs)
    requires forall c :: 0 <= c < 3 ==> Locate(gs, Letter(c)).Some?
    ensures Places(SlotMap(gs), gs)
  {
    var mp := SlotMap(gs);
    forall c | 0 <= c < 3
      ensures c in mp
    {
      assert Locate(gs, Letter(c)).Some?;
    }
  }

  /** A mapping placing the colours in small groups with distinct letters
      gives distinct colours distinct slots, each index within 0..2. */
  lemma PlacesFacts(mp: Mapping, gs: seq<string>)
    requires Places(mp, gs) && SmallGroups(gs)
    ensures forall c, d :: 0 <= c < d < 3 ==> mp[c] != mp[d]
    ensures forall c :: 0 <= c < 3 ==> 0 <= mp[c].0 <= 2 && 0 <= mp[c].1 <= 2
  {
    forall c, d | 0 <= c < d < 3
      ensures mp[c] != mp[d]
    {
      assert Letter(c) != Letter(d);
    }
  }

  /** On a valid mode the mapping has exactly the keys 0, 1 and 2, places
      each colour at a slot of the split string holding its letter, gives
      distinct colours distinct slots, and keeps every group index and
      offset within 0..2. */
  lemma ModeMappingFacts(m: string)
    requires ValidMode(m)
    ensures Places(ModeMapping(m), Split(m, '/'))
    ensures forall c, d :: 0 <= c < d < 3 ==> ModeMapping(m)[c] != ModeMapping(m)[d]
    ensures forall c :: 0 <= c < 3 ==> 0 <= ModeMapping(m)[c].0 <= 2 && 0 <= ModeMapping(m)[c].1 <= 2
  {
    var gs := Split(m, '/');
    ValidModeGroups(m);
    SlotMapPlaces(gs);
    PlacesFacts(SlotMap(gs), gs);
  }

  /** A group with `n` slots, each taken by exactly one colour, holds
      exactly `n` colours. */
  lemma GroupSizeIsLength(mp: Mapping, gs: seq<string>, a: int)
    requires Places(mp, gs) && SmallGroups(gs) && AllColours(gs) && DistinctSlots(gs)
    requires 0 <= a < |gs|
    ensures IsFullMapping(mp) && GroupSize(mp, a) == |gs[a]|
    ensures forall b :: 0 <= b < |gs[a]| ==> LetterAt(mp, a, b) == gs[a][b]
  {
    forall b | 0 <= b < |gs[a]|
      ensures mp[ColourIndex(gs[a][b])] == (a, b)
    {
      var c := ColourIndex(gs[a][b]);
      assert gs[mp[c].0][mp[c].1] == Letter(c) == gs[a][b];
    }
    assert IsFullMapping(mp);
    var n := |gs[a]|;
    var c0 := ColourIndex(gs[a][0]);
    if n >= 2 {
      assert gs[a][0] != gs[a][1];
    }
    if n == 3 {
      assert gs[a][0] != gs[a][2] && gs[a][1] != gs[a][2];
    }
  }

  /** Rendering a mapping that places each colour in the groups `gs`
      gives `gs` back. */
  lemma RenderPlaced(mp: Mapping, gs: seq<string>)
    requires Places(mp, gs) && SmallGroups(gs) && AllColours(gs) && DistinctSlots(gs)
    ensures IsFullMapping(mp) && RenderGroups(mp) == gs
  {
    var last := |gs| - 1;
    GroupSizeIsLength(mp, gs, last);
    var c := ColourIndex(gs[last][0]);
    assert mp[c] == (last, 0);
    assert GroupCount(mp) == |gs|;
    var rendered := RenderGroups(mp);
    forall a | 0 <= a < |gs|
      ensures rendered[a] == gs[a]
    {
      GroupSizeIsLength(mp, gs, a);
    }
  }

  /** Rendering the parsed mapping gives the mode string back. */
  lemma RenderRoundTrip(m: string)
    requires ValidMode(m)
    ensures IsFullMapping(ModeMapping(m)) && Render(ModeMapping(m)) == m
  {
    var gs := Split(m, '/');
    ValidModeGroups(m);
    SlotMapPlaces(gs);
    RenderPlaced(ModeMapping(m), gs);
    JoinSplit(m, '/');
  }

  /** A mode of one group then two maps its first letter to (0, 0) and
      the two after the '/' to (1, 0) and (1, 1). */
  lemma OneThenTwoMapping(m: string)
    requires ValidMode(m) && |m| == 4 && m[1] == '/'
    ensures ModeMapping(m) ==
      map[ColourIndex(m[0]) := (0, 0), ColourIndex(m[2]) := (1, 0), ColourIndex(m[3]) := (1, 1)]
  {
    ShapeGroups(m);
    assert m[..1] == [m[0]] && m[2..] == [m[2], m[3]];
    assert m[0] != m[2] && m[0] != m[3] && m[2] != m[3] by {
      assert NoRepeatedColour(m);
      assert IsColour(m[0]) && IsColour(m[2]);
    }
    OneThenTwoSlots(m[0], m[2], m[3]);
  }

  /** Three distinct colour letters grouped as one then two are found at
      (0, 0), (1, 0) and (1, 1). */
  lemma OneThenTwoSlots(x: char, y: char, z: char)
    requires IsColour(x) && IsColour(y) && IsColour(z) && x != y && x != z && y != z
    ensures SlotMap([[x], [y, z]]) == map[ColourIndex(x) := (0, 0), ColourIndex(y) := (1, 0), ColourIndex(z) := (1, 1)]
  {
    var gs := [[x], [y, z]];
    assert gs[1..] == [[y, z]];
    assert Locate(gs, x) == Some((0, 0));
    assert IndexOf([y, z], y) == 0;
    assert Locate(gs[1..], y) == Some((0, 0));
    assert Locate(gs, y) == Some((1, 0));
    assert IndexOf([y, z], z) == 1;
    assert Locate(gs[1..], z) == Some((0, 1));
    assert Locate(gs, z) == Some((1, 1));
    var cx, cy, cz := ColourIndex(x), ColourIndex(y), ColourIndex(z);
    assert Letter(cx) == x && Letter(cy) == y && Letter(cz) == z;
    var mp := SlotMap(gs);
    assert cx in mp && cy in mp && cz in mp;
    MappingOfThree(mp, cx, cy, cz, (0, 0), (1, 0), (1, 1));
  }

  /** A mapping with keys 0, 1, 2 is the display of its three entries. */
  lemma MappingOfThree(mp: Mapping, c: int, d: int, e: int, u: (int, int), v: (int, int), w: (int, int))
    requires mp.Keys == {0, 1, 2}
    requires 0 <= c < 3 && 0 <= d < 3 && 0 <= e < 3 && c != d && c != e && d != e
    requires mp[c] == u && mp[d] == v && mp[e] == w
    ensures mp == map[c := u, d := v, e := w]
  {
    var expected := map[c := u, d := v, e := w];
    assert mp.Keys == expected.Keys;
  }

  /** The example of the documentation: 'x/gy' maps x to (0, 0), g to
      (1, 0) and y to (1, 1). */
  lemma XSlashGYExample()
    ensures ParseModeSpec("x/gy") == Success(map[0 := (0, 0), 2 := (1, 0), 1 := (1, 1)])
  {
    var m := "x/gy";
    assert ValidMode(m);
    OneThenTwoMapping(m);
  }

  /** A repeated letter fails validation. */
  lemma RepeatedLetterRejected()
    ensures ParseModeSpec("xx/g/y") == Failure(ValueError)
  {
    var m := "xx/g/y";
    assert !ShapeOk(m);
    assert !ShapeOk(m[..|m| - 1]);
  }

  /** A valid mode followed by a newline passes validation and then fails
      on the newline character. */
  lemma TrailingNewlineIsKeyError()
    ensures ParseModeSpec("x/gy\n") == Failure(KeyError)
  {
    var m := "x/gy\n";
    assert m[..|m| - 1] == "x/gy";
    assert ValidMode("x/gy");
    assert !ShapeOk(m);
  }

  // ---------------------------------------------------------------------
  // The parser as the source performs it
  // ---------------------------------------------------------------------

  /** `parse_mode`: validates the string against the pattern, splits it at
      '/', and records for each letter its group index and offset. */
  method ParseMode(mode: string) returns (r: Result<Mapping>)
    ensures r == ParseModeSpec(mode)
  {
    if !PatternAccepts(mode) {
      return Failure(ValueError);
    }
    var groups := Split(mode, '/');
    var recorded := RecordSlots(groups);
    if recorded.None? {
      assert !ValidMode(mode) by {
        if ValidMode(mode) {
          ValidModeGroups(mode);
        }
      }
      return Failure(KeyError);
    }
    if !ValidMode(mode) {
      // The final newline sits in some slot, and every slot was a colour.
      SplitCovers(mode, '/', |mode| - 1);
      assert false;
    }
    ValidModeGroups(mode);
    ParsedIsSlotMap(groups, recorded.value);
    return Success(recorded.value);
  }

  /** What the loops of `parse_mode` leave behind once the first `gi`
      groups are done: every letter of those groups is a colour whose code
      is recorded, and every record points at a slot among them holding
      that colour's letter. */
  predicate RecordsUpTo(groups: seq<string>, gi: nat, mapping: Mapping)
    requires gi <= |groups|
  {
    && (forall a, b :: 0 <= a < gi && 0 <= b < |groups[a]| ==>
          IsColour(groups[a][b]) && ColourIndex(groups[a][b]) in mapping)
    && (forall k :: k in mapping ==> 0 <= k < 3 && 0 <= mapping[k].0 < gi)
    && (forall k :: k in mapping ==> 0 <= mapping[k].1 < |groups[mapping[k].0]|)
    && (forall k :: k in mapping ==> groups[mapping[k].0][mapping[k].1] == Letter(k))
  }

  /** The nested loops of `parse_mode`: each character of each group
      records its (group, offset) under its colour code, and a character
      without a colour code fails the lookup. */
  method RecordSlots(groups: seq<string>) returns (r: Option<Mapping>)
    ensures r.None? <==> !AllColours(groups)
    ensures r.Some? ==> RecordsUpTo(groups, |groups|, r.value)
  {
    var mapping: Mapping := map[];
    for gi := 0 to |groups|
      invariant RecordsUpTo(groups, gi, mapping)
    {
      var next := RecordGroup(groups, gi, mapping);
      if next.None? {
        return None;
      }
      mapping := next.value;
    }
    return Some(mapping);
  }

  /** The inner loop of `parse_mode` over group `gi`: each character
      records its slot in turn, and the first one without a colour code
      fails the lookup. */
  method RecordGroup(groups: seq<string>, gi: nat, mapping0: Mapping) returns (r: Option<Mapping>)
    requires gi < |groups| && RecordsUpTo(groups, gi, mapping0)
    ensures r.None? <==> exists b :: 0 <= b < |groups[gi]| && !IsColour(groups[gi][b])
    ensures r.Some? ==> RecordsUpTo(groups, gi + 1, r.value)
  {
    var mapping := mapping0;
    var group := groups[gi];
    for ci := 0 to |group|
      invariant forall b :: 0 <= b < ci ==> IsColour(group[b]) && ColourIndex(group[b]) in mapping
      invariant forall a, b :: 0 <= a < gi && 0 <= b < |groups[a]| ==>
                  IsColour(groups[a][b]) && ColourIndex(groups[a][b]) in mapping
      invariant forall k :: k in mapping ==> 0 <= k < 3 && 0 <= mapping[k].0 <= gi
      invariant forall k :: k in mapping ==> 0 <= mapping[k].1 < |groups[mapping[k].0]|
      invariant forall k :: k in mapping ==> mapping[k].0 == gi ==> mapping[k].1 < ci
      invariant forall k :: k in mapping ==> groups[mapping[k].0][mapping[k].1] == Letter(k)
    {
      var colour := group[ci];
      if !IsColour(colour) {
        return None;
      }
      mapping := mapping[ColourIndex(colour) := (gi, ci)];
    }
    return Some(mapping);
  }

  /** A mapping that sends each colour to a slot holding its letter, over
      groups whose letters are distinct, is the slot map. */
  lemma ParsedIsSlotMap(groups: seq<string>, mapping: Mapping)
    requires DistinctSlots(groups) && RecordsUpTo(groups, |groups|, mapping)
    requires forall c :: 0 <= c < 3 ==> Locate(groups, Letter(c)).Some?
    ensures mapping == SlotMap(groups)
  {
    forall c | 0 <= c < 3
      ensures c in mapping && mapping[c] == Locate(groups, Letter(c)).value
    {
      var slot := Locate(groups, Letter(c)).value;
      assert ColourIndex(groups[slot.0][slot.1]) == c;
      LocateUnique(groups, Letter(c), mapping[c].0, mapping[c].1);
    }
  }
}
