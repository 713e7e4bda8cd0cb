/**
 * The key-guessing heuristic of the hydrator: for one constructor parameter
 * name, the ordered list of raw-data keys that may hold its value.
 */
module ParameterKeys {

  /** Stringy's underscored() conversion. Its internals (multibyte case
      mapping, whitespace and dash handling) are not part of this model, so
      every operation that needs it takes it as a parameter. */
  type Underscorer = string -> string

  predicate IsLower(c: char) { 'a' <= c <= 'z' }

  predicate IsDigit(c: char) { '0' <= c <= '9' }

  /** A lowercase ASCII letter at index i immediately followed by an ASCII digit:
      the place where the pattern ([a-z]+)([0-9]+) splits its two groups. */
  predicate BoundaryAt(s: string, i: int)
  {
    0 <= i && i + 1 < |s| && IsLower(s[i]) && IsDigit(s[i + 1])
  }

  /** The number of letter/digit boundaries in s. */
  function Boundaries(s: string): (n: nat)
  {
    if |s| < 2 then 0
    else (if BoundaryAt(s, 0) then 1 else 0) + Boundaries(s[1..])
  }

  /** The regular-expression rewrite ([a-z]+)([0-9]+) -> \1_\2 applied to every
      match: an underscore is inserted at each letter/digit boundary, e.g.
      "alpha2" becomes "alpha_2". The result grows by one character per
      boundary, keeps its first character, and has no boundary left. */
  function SeparateDigits(s: string): (r: string)
    ensures |r| == |s| + Boundaries(s)
    ensures |s| > 0 ==> |r| > 0 && r[0] == s[0]
    ensures forall i :: !BoundaryAt(r, i)
  {
    if |s| < 2 then s
    else
      var rest := SeparateDigits(s[1..]);
      var r := if BoundaryAt(s, 0) then [s[0], '_'] + rest else [s[0]] + rest;
      assert forall i :: BoundaryAt(r, i) && i > 0 ==> BoundaryAt(rest, i - |r| + |rest|);
      r
  }

  /** The three candidate keys for a parameter, in the order they are tried:
      the underscored form, the digit-separated form of the declared name,
      and the declared name itself. */
  function PossibleParameterKeys(name: string, underscored: Underscorer): (keys: seq<string>)
  {
    [underscored(name), SeparateDigits(name), name]
  }

  /** Where the i-th character of s lands once an underscore has been
      inserted at every boundary before it. */
  function Position(s: string, i: nat): nat
    requires i < |s|
  {
    i + Boundaries(s[..i + 1])
  }

  /** s is laid out in r as the rewrite lays it out: every character of s at
      its Position, followed by '_' when it is the letter of a boundary. */
  ghost predicate PlacedIn(s: string, r: string)
  {
    && (forall i :: 0 <= i < |s| ==> Position(s, i) < |r| && r[Position(s, i)] == s[i])
    && (forall i :: BoundaryAt(s, i) ==> Position(s, i) + 1 < |r| && r[Position(s, i) + 1] == '_')
  }

  /** Where the i-th character of s lands in SeparateDigits(s): shifted right by
      the number of boundaries before it, and followed by the inserted '_' when
      it is itself the letter of a boundary. */
  lemma {:induction false} SeparateDigitsAt(s: string, i: nat)
    requires i < |s|
    ensures Position(s, i) < |SeparateDigits(s)|
    ensures SeparateDigits(s)[Position(s, i)] == s[i]
    ensures BoundaryAt(s, i) ==>
              && Position(s, i) + 1 < |SeparateDigits(s)|
              && SeparateDigits(s)[Position(s, i) + 1] == '_'
  {
    if i == 0 {
      assert Boundaries(s[..1]) == 0;
    } else {
      var t := s[1..];
      SeparateDigitsAt(t, i - 1);
      assert s[..i + 1][1..] == t[..i];
      assert Boundaries(s[..i + 1]) == (if BoundaryAt(s, 0) then 1 else 0) + Boundaries(t[..i]);
      assert BoundaryAt(s, i) <==> BoundaryAt(t, i - 1);
    }
  }

  /** Dropping the first character of s moves every later Position left by
      one, and by one more when that first character was a boundary letter. */
  lemma PositionTail(s: string, i: nat)
    requires |s| >= 2 && i + 1 < |s|
    ensures Position(s, i + 1) == 1 + (if BoundaryAt(s, 0) then 1 else 0) + Position(s[1..], i)
  {
    assert s[..i + 2][1..] == s[1..][..i + 1];
  }

  /** The layout of s in r restricts to the layout of s[1..] in what follows
      the first character and its underscore, if any. */
  lemma PlacedInTail(s: string, r: string)
    requires |s| >= 2 && PlacedIn(s, r)
    ensures var b := if BoundaryAt(s, 0) then 1 else 0;
            1 + b <= |r| && PlacedIn(s[1..], r[1 + b..])
  {
    var t, b := s[1..], if BoundaryAt(s, 0) then 1 else 0;
    assert Position(s, 0) == 0;
    assert 1 + b <= |r|;
    var rest := r[1 + b..];
    forall i | 0 <= i < |t| ensures Position(t, i) < |rest| && rest[Position(t, i)] == t[i] {
      PositionTail(s, i);
    }
    forall i | BoundaryAt(t, i) ensures Position(t, i) + 1 < |rest| && rest[Position(t, i) + 1] == '_' {
      assert BoundaryAt(s, i + 1);
      PositionTail(s, i);
    }
  }

  /** The first character of s, and its underscore if it is a boundary
      letter, open the layout. */
  lemma PlacedInHead(s: string, r: string)
    requires |s| >= 2 && PlacedIn(s, r)
    ensures var b := if BoundaryAt(s, 0) then 1 else 0;
            1 + b <= |r| && r[..1 + b] == if BoundaryAt(s, 0) then [s[0], '_'] else [s[0]]
  {
    assert Position(s, 0) == 0;
  }

  /** A string too short to hold a boundary is laid out as itself. */
  lemma PlacedInShort(s: string, r: string)
    requires |s| < 2 && |r| == |s| && PlacedIn(s, r)
    ensures r == s
  {
    forall i | 0 <= i < |s| ensures r[i] == s[i] {
      assert Position(s, i) == i;
    }
  }

  /** One step of the rewrite: the first character, its underscore if it is a
      boundary letter, then the rewrite of the rest. */
  lemma SeparateDigitsStep(s: string)
    requires |s| >= 2
    ensures SeparateDigits(s) == (if BoundaryAt(s, 0) then [s[0], '_'] else [s[0]]) + SeparateDigits(s[1..])
  {
  }

  /** The placements of SeparateDigitsAt, together with the length, determine
      the rewrite's result: no other string of that length has them. */
  lemma {:induction false} SeparateDigitsUnique(s: string, r: string)
    requires |r| == |s| + Boundaries(s)
    requires PlacedIn(s, r)
    ensures r == SeparateDigits(s)
  {
    if |s| < 2 {
      PlacedInShort(s, r);
    } else {
      var b := if BoundaryAt(s, 0) then 1 else 0;
      PlacedInHead(s, r);
      PlacedInTail(s, r);
      SeparateDigitsUnique(s[1..], r[1 + b..]);
      SeparateDigitsStep(s);
      assert r == r[..1 + b] + r[1 + b..];
    }
  }

  /** A string with a boundary counts at least one. */
  lemma {:induction false} BoundaryCounts(s: string, k: int)
    requires BoundaryAt(s, k)
    ensures Boundaries(s) > 0
  {
    if k > 0 {
      assert BoundaryAt(s[1..], k - 1);
      BoundaryCounts(s[1..], k - 1);
    }
  }

  /** The rewrite leaves a name alone exactly when it has no letter/digit
      boundary: "userId" and "alpha_2" come back unchanged. */
  lemma {:induction false} SeparateDigitsUnchangedIff(s: string)
    ensures SeparateDigits(s) == s <==> forall i :: !BoundaryAt(s, i)
  {
    if forall i :: !BoundaryAt(s, i) {
      if |s| >= 2 {
        forall i ensures !BoundaryAt(s[1..], i) {
          assert BoundaryAt(s[1..], i) ==> BoundaryAt(s, i + 1);
        }
        SeparateDigitsUnchangedIff(s[1..]);
        assert !BoundaryAt(s, 0);
        assert s == [s[0]] + s[1..];
      }
    } else {
      var k :| BoundaryAt(s, k);
      BoundaryCounts(s, k);
    }
  }

  /** Applying the rewrite twice is the same as applying it once. */
  lemma SeparateDigitsIdempotent(s: string)
    ensures SeparateDigits(SeparateDigits(s)) == SeparateDigits(s)
  {
    SeparateDigitsUnchangedIff(SeparateDigits(s));
  }

  /** The example of the source's own comment: "alpha2" may be keyed "alpha_2". */
  lemma SeparateDigitsAlpha2()
    ensures SeparateDigits("alpha2") == "alpha_2"
    ensures SeparateDigits("a1b22") == "a_1b_22"
  {
    assert SeparateDigits("a2") == "a_2";
    assert SeparateDigits("b22") == "b_22";
  }

  /** The candidate list always has three entries; only the first depends on
      the underscored() conversion, so the digit-separated candidate is
      derived from the declared name, and the declared name itself is always
      the last candidate. */
  lemma PossibleParameterKeysOrder(name: string, u1: Underscorer, u2: Underscorer)
    ensures |PossibleParameterKeys(name, u1)| == 3
    ensures PossibleParameterKeys(name, u1)[0] == u1(name)
    ensures PossibleParameterKeys(name, u1)[1..] == PossibleParameterKeys(name, u2)[1..]
    ensures PossibleParameterKeys(name, u1)[1] == SeparateDigits(name)
    ensures PossibleParameterKeys(name, u1)[2] == name
  {
  }
}
