/**
 * The pure part of grouping elementary dependencies into one visible edge:
 * how the CSS style classes of a grouped dependency are derived from the
 * types of the elementary dependencies it stands for, how the tokens are
 * joined, and the `argMax` reduce used to pick an end node.
 */
module Grouping {
  import opened Nodes

  /** Style class of a grouped dependency whose elementary types carry more than one colour. */
  const SeveralColors: string := "severalColors"
  /** Style class of a grouped dependency whose elementary types carry more than one dash pattern. */
  const SeveralDashed: string := "severalDashed"

  // ---------------------------------------------------------------------------
  // joinStrings
  // ---------------------------------------------------------------------------

  /** `parts.join(sep)`: the parts in order, with `sep` between neighbours. */
  function Join(sep: string, parts: seq<string>): string
  {
    if |parts| == 0 then ""
    else if |parts| == 1 then parts[0]
    else parts[0] + sep + Join(sep, parts[1..])
  }

  /** The truthy strings of `parts`, in order: `parts.filter(element => element)`. */
  function NonEmpty(parts: seq<string>): (r: seq<string>)
    ensures |r| <= |parts|
    ensures forall i | 0 <= i < |r| :: r[i] != ""
    ensures forall s :: s in r <==> s in parts && s != ""
    ensures multiset(r) == multiset(parts)["" := 0]
  {
    if |parts| == 0 then []
    else
      assert parts == [parts[0]] + parts[1..];
      if parts[0] == "" then NonEmpty(parts[1..])
      else [parts[0]] + NonEmpty(parts[1..])
  }

  /** The filter works part by part: it keeps the order and the repeats of the input. */
  lemma {:induction false} NonEmptyOfConcat(a: seq<string>, b: seq<string>)
    ensures NonEmpty(a + b) == NonEmpty(a) + NonEmpty(b)
  {
    if |a| > 0 {
      NonEmptyOfConcat(a[1..], b);
      assert (a + b)[1..] == a[1..] + b;
      assert (a + b)[0] == a[0];
    } else {
      assert a + b == b;
    }
  }

  /** `joinStrings(sep, ...parts)`: the non-empty parts joined by `sep`. */
  function JoinStrings(sep: string, parts: seq<string>): (r: string)
    ensures r == "" <==> NonEmpty(parts) == []
  {
    Join(sep, NonEmpty(parts))
  }

  /** The two-token case used for a grouped dependency's style: empty tokens are dropped. */
  lemma JoinStringsOfTwo(sep: string, a: string, b: string)
    ensures JoinStrings(sep, [a, b]) == if a == "" then b else if b == "" then a else a + sep + b
  {
    assert [a, b][1..] == [b];
    assert [b][1..] == [];
    assert NonEmpty([b]) == if b == "" then [] else [b];
    assert NonEmpty([a, b]) == if a == "" then NonEmpty([b]) else [a] + NonEmpty([b]);
    assert Join(sep, [b]) == b;
    assert Join(sep, [a, b]) == a + sep + b;
  }

  /** The index of the first `c` in `s`, or `|s|` when there is none. */
  function IndexOf(c: char, s: string): (i: nat)
    ensures i <= |s|
    ensures i < |s| ==> s[i] == c
    ensures forall j | 0 <= j < i :: s[j] != c
  {
    if |s| == 0 then 0 else if s[0] == c then 0 else 1 + IndexOf(c, s[1..])
  }

  /** `s.split(c)`: the pieces of `s` between occurrences of `c` (at least one piece). */
  function Segments(c: char, s: string): (r: seq<string>)
    ensures |r| >= 1
    decreases |s|
  {
    var i := IndexOf(c, s);
    if i == |s| then [s] else [s[..i]] + Segments(c, s[i + 1..])
  }

  /** The class tokens of a class attribute separated by `c`: the non-empty pieces. */
  function Tokens(c: char, s: string): seq<string>
  {
    NonEmpty(Segments(c, s))
  }

  /** Splitting `a + [c] + rest` at its first `c` gives back `a` when `a` holds no `c`. */
  lemma SegmentsOfConcat(c: char, a: string, rest: string)
    requires c !in a
    ensures Segments(c, a + [c] + rest) == [a] + Segments(c, rest)
  {
    var s := a + [c] + rest;
    assert s[|a|] == c;
    assert forall j | 0 <= j < |a| :: s[j] == a[j];
    assert IndexOf(c, s) == |a|;
    assert s[..|a|] == a;
    assert s[|a| + 1..] == rest;
  }

  /** Joining non-empty parts free of `c` with `c`, then splitting at `c`, gives the parts back. */
  lemma {:induction false} SegmentsOfJoin(c: char, parts: seq<string>)
    requires |parts| >= 1
    requires forall i | 0 <= i < |parts| :: parts[i] != "" && c !in parts[i]
    ensures Segments(c, Join([c], parts)) == parts
  {
    if |parts| == 1 {
      assert IndexOf(c, parts[0]) == |parts[0]|;
    } else {
      SegmentsOfJoin(c, parts[1..]);
      SegmentsOfConcat(c, parts[0], Join([c], parts[1..]));
      assert parts == [parts[0]] + parts[1..];
    }
  }

  /** A sequence of non-empty strings is its own non-empty filter. */
  lemma {:induction false} NonEmptyOfNonEmpty(parts: seq<string>)
    requires forall i | 0 <= i < |parts| :: parts[i] != ""
    ensures NonEmpty(parts) == parts
  {
    if |parts| > 0 {
      NonEmptyOfNonEmpty(parts[1..]);
      assert parts == [parts[0]] + parts[1..];
    }
  }

  /**
   * `joinStrings` loses nothing: when no part contains the separator
   * character, the class tokens of the joined string are exactly the
   * non-empty parts, in order.
   */
  lemma JoinStringsRoundTrip(c: char, parts: seq<string>)
    requires forall i | 0 <= i < |parts| :: c !in parts[i]
    ensures Tokens(c, JoinStrings([c], parts)) == NonEmpty(parts)
  {
    var ne := NonEmpty(parts);
    forall i | 0 <= i < |ne| ensures ne[i] != "" && c !in ne[i] {
      assert ne[i] in ne;
    }
    if |ne| == 0 {
      assert Segments(c, "") == [""];
    } else {
      SegmentsOfJoin(c, ne);
      NonEmptyOfNonEmpty(ne);
    }
  }

  // ---------------------------------------------------------------------------
  // getSingleStyledDependencyType
  // ---------------------------------------------------------------------------

  /** No value occurs twice in `s`. */
  predicate NoDuplicates(s: seq<string>)
  {
    forall i, j | 0 <= i < j < |s| :: s[i] != s[j]
  }

  /** `[...new Set(s)]`: the values of `s` once each, in order of first occurrence. */
  function Distinct(s: seq<string>): (r: seq<string>)
    ensures NoDuplicates(r)
    ensures forall x :: x in r <==> x in s
  {
    if |s| == 0 then []
    else
      var d := Distinct(s[..|s| - 1]);
      assert forall x :: x in s <==> x in s[..|s| - 1] || x == s[|s| - 1];
      if s[|s| - 1] in d then d else d + [s[|s| - 1]]
  }

  /** `s.filter(t => styled.has(t))`, in order. */
  function KeepStyled(s: seq<string>, styled: set<string>): (r: seq<string>)
    ensures forall x :: x in r <==> x in s && x in styled
    ensures NoDuplicates(s) ==> NoDuplicates(r)
  {
    if |s| == 0 then []
    else
      var rest := KeepStyled(s[1..], styled);
      assert forall x :: x in s <==> x == s[0] || x in s[1..];
      if s[0] in styled then [s[0]] + rest else rest
  }

  /** The styled types among `types`, each once. */
  function StyledTypes(types: seq<string>, styled: set<string>): set<string>
  {
    set t | t in types && t in styled
  }

  /**
   * `getSingleStyledDependencyType(dependencies, styled, mixedStyle)` on the
   * dependencies' types: no styled type gives `""`, one gives that type,
   * more than one gives `mixedStyle`.
   */
  function SingleStyledDependencyType(types: seq<string>, styled: set<string>, mixedStyle: string): (r: string)
    ensures r == "" || r == mixedStyle || (r in types && r in styled)
  {
    var current := KeepStyled(Distinct(types), styled);
    assert |current| == 1 ==> current[0] in current;
    if |current| == 0 then "" else if |current| == 1 then current[0] else mixedStyle
  }

  /** A sequence without duplicates has as many elements as its set of values. */
  lemma {:induction false} NoDuplicatesCardinality(s: seq<string>)
    requires NoDuplicates(s)
    ensures |set x | x in s| == |s|
  {
    if |s| > 0 {
      var tail := s[1..];
      assert NoDuplicates(tail) by {
        forall i, j | 0 <= i < j < |tail| ensures tail[i] != tail[j] {
          assert tail[i] == s[i + 1] && tail[j] == s[j + 1];
        }
      }
      NoDuplicatesCardinality(tail);
      assert s[0] !in tail by {
        forall i | 0 <= i < |tail| ensures tail[i] != s[0] {
          assert tail[i] == s[i + 1];
        }
      }
      assert (set x | x in s) == {s[0]} + (set x | x in tail) by {
        assert s == [s[0]] + tail;
      }
    }
  }

  /**
   * The styled-type rule, stated on the set of distinct styled types present:
   * none gives `""`, exactly one gives that type, two or more give the mixed
   * marker. Duplicates of one type count once.
   */
  lemma SingleStyledRule(types: seq<string>, styled: set<string>, mixedStyle: string)
    ensures var present := StyledTypes(types, styled);
            var r := SingleStyledDependencyType(types, styled, mixedStyle);
            (|present| == 0 ==> r == "") &&
            (|present| == 1 ==> present == {r}) &&
            (|present| >= 2 ==> r == mixedStyle)
  {
    var current := KeepStyled(Distinct(types), styled);
    NoDuplicatesCardinality(current);
    assert (set x | x in current) == StyledTypes(types, styled);
    if |current| == 1 {
      assert (set x | x in current) == {current[0]};
    }
  }

  /**
   * A grouped edge never claims a single style it does not share with every
   * contributing styled type: a result other than `""` and the mixed marker is
   * the one styled type present.
   */
  lemma SingleStyleIsShared(types: seq<string>, styled: set<string>, mixedStyle: string)
    ensures var r := SingleStyledDependencyType(types, styled, mixedStyle);
            r != "" && r != mixedStyle ==>
              r in types && r in styled && forall t | t in types && t in styled :: t == r
  {
    SingleStyledRule(types, styled, mixedStyle);
  }

  // ---------------------------------------------------------------------------
  // byGroupingDependencies: the style of a grouped dependency
  // ---------------------------------------------------------------------------

  /**
   * The `type` that `byGroupingDependencies` gives a grouped dependency between
   * `origin` and `target` whose elementary dependencies have the given types.
   */
  function GroupedDependencyType(origin: Node, target: Node, types: seq<string>,
                                 colored: set<string>, dashed: set<string>): string
  {
    if origin.isPackage || target.isPackage then ""
    else
      var colorType := SingleStyledDependencyType(types, colored, SeveralColors);
      var dashedType := SingleStyledDependencyType(types, dashed, SeveralDashed);
      JoinStrings(" ", [colorType, dashedType])
  }

  /**
   * A grouped dependency is plain exactly when one of its ends is a package or
   * none of its elementary types carries a colour or a dash style (provided
   * the empty string is not itself a style).
   */
  lemma GroupedTypeIsPlainIff(origin: Node, target: Node, types: seq<string>,
                              colored: set<string>, dashed: set<string>)
    requires "" !in colored && "" !in dashed
    ensures GroupedDependencyType(origin, target, types, colored, dashed) == "" <==>
            origin.isPackage || target.isPackage ||
            (StyledTypes(types, colored) == {} && StyledTypes(types, dashed) == {})
  {
    var colorType := SingleStyledDependencyType(types, colored, SeveralColors);
    var dashedType := SingleStyledDependencyType(types, dashed, SeveralDashed);
    SingleStyledRule(types, colored, SeveralColors);
    SingleStyledRule(types, dashed, SeveralDashed);
    JoinStringsOfTwo(" ", colorType, dashedType);
    assert colorType == "" <==> StyledTypes(types, colored) == {} by {
      if StyledTypes(types, colored) != {} {
        assert |StyledTypes(types, colored)| >= 1;
      }
    }
    assert dashedType == "" <==> StyledTypes(types, dashed) == {} by {
      if StyledTypes(types, dashed) != {} {
        assert |StyledTypes(types, dashed)| >= 1;
      }
    }
  }

  /**
   * The class tokens of a grouped dependency between two non-packages are the
   * colour token followed by the dash token, each present only when some
   * elementary type carries that kind of style, provided no style name
   * contains a space.
   */
  lemma GroupedTypeTokens(origin: Node, target: Node, types: seq<string>,
                          colored: set<string>, dashed: set<string>)
    requires !origin.isPackage && !target.isPackage
    requires forall t | t in colored :: ' ' !in t
    requires forall t | t in dashed :: ' ' !in t
    ensures Tokens(' ', GroupedDependencyType(origin, target, types, colored, dashed)) ==
            NonEmpty([SingleStyledDependencyType(types, colored, SeveralColors),
                      SingleStyledDependencyType(types, dashed, SeveralDashed)])
  {
    var colorType := SingleStyledDependencyType(types, colored, SeveralColors);
    var dashedType := SingleStyledDependencyType(types, dashed, SeveralDashed);
    SingleStyledRule(types, colored, SeveralColors);
    SingleStyledRule(types, dashed, SeveralDashed);
    assert ' ' !in colorType by {
      if |StyledTypes(types, colored)| == 1 {
        assert colorType in StyledTypes(types, colored);
      }
    }
    assert ' ' !in dashedType by {
      if |StyledTypes(types, dashed)| == 1 {
        assert dashedType in StyledTypes(types, dashed);
      }
    }
    JoinStringsRoundTrip(' ', [colorType, dashedType]);
  }

  /** Between two non-packages some input gives a styled edge: one coloured type, nothing dashed. */
  lemma StyledGroupingExists(origin: Node, target: Node)
    requires !origin.isPackage && !target.isPackage
    ensures GroupedDependencyType(origin, target, ["x"], {"x"}, {}) == "x"
  {
    SingleStyledRule(["x"], {"x"}, SeveralColors);
    assert StyledTypes(["x"], {"x"}) == {"x"};
    SingleStyledRule(["x"], {}, SeveralDashed);
    assert StyledTypes(["x"], {}) == {};
    JoinStringsOfTwo(" ", "x", "");
  }

  // ---------------------------------------------------------------------------
  // argMax
  // ---------------------------------------------------------------------------

  /** `s.reduce((max, e) => greater(e, max) ? e : max, acc)`. */
  function Reduce<T>(s: seq<T>, greater: (T, T) -> bool, acc: T): (r: T)
    ensures r == acc || r in s
  {
    if |s| == 0 then acc
    else Reduce(s[1..], greater, if greater(s[0], acc) then s[0] else acc)
  }

  /**
   * `argMax(arr, greater)`: the reduce is seeded with `arr[0]` and visits
   * `arr[0]` again; an empty array gives `undefined`, here `None`.
   */
  function ArgMax<T>(arr: seq<T>, greater: (T, T) -> bool): (r: Option<T>)
    ensures r.None? <==> |arr| == 0
    ensures r.Some? ==> r.value in arr
  {
    if |arr| == 0 then None else Some(Reduce(arr, greater, arr[0]))
  }

  /**
   * On a pair, the seed's comparison with itself never matters: the second
   * element wins exactly when it is greater than the first.
   */
  lemma ArgMaxOfPair<T>(a: T, b: T, greater: (T, T) -> bool)
    ensures ArgMax([a, b], greater) == Some(if greater(b, a) then b else a)
  {
    var s := [a, b];
    assert Reduce(s, greater, a) == Reduce(s[1..], greater, if greater(a, a) then a else a);
    assert s[1..] == [b];
    assert Reduce([b], greater, a) == Reduce([b][1..], greater, if greater(b, a) then b else a);
  }

  /**
   * Under a strict order, `Reduce` ends on `acc` or on something greater than
   * `acc`, and neither `acc` nor any element of `s` beats where it ends.
   */
  lemma {:induction false} ReduceIsMaximal<T>(s: seq<T>, greater: (T, T) -> bool, acc: T)
    requires forall x | x in s || x == acc :: !greater(x, x)
    requires forall x, y, z | (x in s || x == acc) && (y in s || y == acc) && (z in s || z == acc) ::
               greater(x, y) && greater(y, z) ==> greater(x, z)
    ensures var r := Reduce(s, greater, acc);
            (r == acc || greater(r, acc)) &&
            forall x | x in s || x == acc :: !greater(x, r)
  {
    if |s| > 0 {
      var next := if greater(s[0], acc) then s[0] else acc;
      var r := Reduce(s[1..], greater, next);
      assert forall x | x in s[1..] :: x in s;
      ReduceIsMaximal(s[1..], greater, next);
      assert r == acc || r in s;
      if greater(s[0], acc) {
        assert r == s[0] || greater(r, s[0]);
        assert greater(r, acc);
      } else {
        assert r == acc || greater(r, acc);
      }
    }
  }

  /** Under a strict order, `argMax` returns an element that no element of the array beats. */
  lemma ArgMaxIsMaximal<T>(arr: seq<T>, greater: (T, T) -> bool)
    requires forall x | x in arr :: !greater(x, x)
    requires forall x, y, z | x in arr && y in arr && z in arr ::
               greater(x, y) && greater(y, z) ==> greater(x, z)
    ensures match ArgMax(arr, greater)
            case None => |arr| == 0
            case Some(m) => m in arr && forall x | x in arr :: !greater(x, m)
  {
    if |arr| > 0 {
      ReduceIsMaximal(arr, greater, arr[0]);
    }
  }
}
