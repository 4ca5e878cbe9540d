/**
 * How `Release.version` ranks version strings: `v.split('.').map(&:to_i)` gives
 * a list of integers, lists are ordered by Ruby's `Array#<=>`, and `sort_by`
 * followed by `last` picks a string whose list is greatest.
 */
module VersionKey {
  import opened RubyText

  /** The sort key of a version string: its `.`-separated segments read with `to_i`. */
  function Key(v: string): (k: seq<int>)
    ensures |k| == |Split(v, '.')|
    ensures forall i :: 0 <= i < |k| ==> k[i] == ToI(Split(v, '.')[i])
  {
    ToIs(Split(v, '.'))
  }

  /** `map(&:to_i)` */
  function ToIs(parts: seq<string>): (k: seq<int>)
    ensures |k| == |parts|
    ensures forall i :: 0 <= i < |k| ==> k[i] == ToI(parts[i])
  {
    if |parts| == 0 then [] else [ToI(parts[0])] + ToIs(parts[1..])
  }

  /**
   * Ruby's `Array#<=>` on integer lists: the first differing element decides,
   * and when one list is a prefix of the other the shorter one is smaller.
   */
  function Compare(a: seq<int>, b: seq<int>): int {
    if |a| == 0 then (if |b| == 0 then 0 else -1)
    else if |b| == 0 then 1
    else if a[0] < b[0] then -1
    else if a[0] > b[0] then 1
    else Compare(a[1..], b[1..])
  }

  /** `a <= b` in the order `sort_by` uses. */
  predicate KeyLe(a: seq<int>, b: seq<int>) {
    Compare(a, b) <= 0
  }

  /** The lexicographic order written out independently of the recursion. */
  predicate LexLess(a: seq<int>, b: seq<int>) {
    (|a| < |b| && a == b[..|a|])
    || exists i :: 0 <= i < |a| && i < |b| && a[..i] == b[..i] && a[i] < b[i]
  }

  /** `Compare` is the lexicographic order: -1, 0 or 1 as `a` is below, equal to or above `b`. */
  lemma {:induction false} CompareIsLexicographic(a: seq<int>, b: seq<int>)
    ensures Compare(a, b) == -1 <==> LexLess(a, b)
    ensures Compare(a, b) == 0 <==> a == b
    ensures Compare(a, b) == 1 <==> LexLess(b, a)
  {
    if |a| == 0 || |b| == 0 {
      if |a| == 0 && |b| > 0 {
        assert a == b[..0];
      } else if |b| == 0 && |a| > 0 {
        assert b == a[..0];
      }
    } else if a[0] != b[0] {
      assert a[..0] == b[..0];
      LexLessHead(a, b);
      LexLessHead(b, a);
    } else {
      CompareIsLexicographic(a[1..], b[1..]);
      LexLessCons(a, b);
      LexLessCons(b, a);
      assert a == [a[0]] + a[1..] && b == [b[0]] + b[1..];
    }
  }

  /** Below in the order means no greater at the first position. */
  lemma LexLessHead(a: seq<int>, b: seq<int>)
    requires |a| > 0 && |b| > 0
    ensures LexLess(a, b) ==> a[0] <= b[0]
  {
    if !LexLess(a, b) {
    } else if |a| < |b| && a == b[..|a|] {
      assert a[0] == b[0];
    } else {
      var i :| 0 <= i < |a| && i < |b| && a[..i] == b[..i] && a[i] < b[i];
      if i > 0 {
        assert a[0] == a[..i][0] == b[..i][0] == b[0];
      }
    }
  }

  /** Dropping an equal first element keeps the lexicographic order. */
  lemma LexLessCons(a: seq<int>, b: seq<int>)
    requires |a| > 0 && |b| > 0 && a[0] == b[0]
    ensures LexLess(a, b) <==> LexLess(a[1..], b[1..])
  {
    if LexLess(a, b) {
      LexLessTail(a, b);
    }
    if LexLess(a[1..], b[1..]) {
      LexLessUncons(a, b);
    }
  }

  lemma LexLessTail(a: seq<int>, b: seq<int>)
    requires |a| > 0 && |b| > 0 && a[0] == b[0] && LexLess(a, b)
    ensures LexLess(a[1..], b[1..])
  {
    var a', b' := a[1..], b[1..];
    if |a| < |b| && a == b[..|a|] {
      assert a' == b'[..|a'|];
    } else {
      var i :| 0 <= i < |a| && i < |b| && a[..i] == b[..i] && a[i] < b[i];
      assert i > 0;
      assert a'[..i - 1] == a[1..i] == b[1..i] == b'[..i - 1];
      assert a'[i - 1] < b'[i - 1];
    }
  }

  lemma LexLessUncons(a: seq<int>, b: seq<int>)
    requires |a| > 0 && |b| > 0 && a[0] == b[0] && LexLess(a[1..], b[1..])
    ensures LexLess(a, b)
  {
    var a', b' := a[1..], b[1..];
    if |a'| < |b'| && a' == b'[..|a'|] {
      assert a == [a[0]] + a' && b[..|a|] == [b[0]] + b'[..|a'|];
    } else {
      var j :| 0 <= j < |a'| && j < |b'| && a'[..j] == b'[..j] && a'[j] < b'[j];
      assert a[..j + 1] == [a[0]] + a'[..j] && b[..j + 1] == [b[0]] + b'[..j];
      assert a[j + 1] < b[j + 1];
    }
  }

  /** Swapping the arguments negates the result. */
  lemma {:induction false} CompareAntisymmetric(a: seq<int>, b: seq<int>)
    ensures Compare(a, b) == -Compare(b, a)
  {
    if |a| > 0 && |b| > 0 && a[0] == b[0] {
      CompareAntisymmetric(a[1..], b[1..]);
    }
  }

  /** Any two keys are comparable. */
  lemma KeyLeTotal(a: seq<int>, b: seq<int>)
    ensures KeyLe(a, b) || KeyLe(b, a)
  {
    CompareAntisymmetric(a, b);
  }

  lemma {:induction false} KeyLeTransitive(a: seq<int>, b: seq<int>, c: seq<int>)
    requires KeyLe(a, b) && KeyLe(b, c)
    ensures KeyLe(a, c)
  {
    if |a| > 0 && |b| > 0 && |c| > 0 && a[0] == b[0] == c[0] {
      KeyLeTransitive(a[1..], b[1..], c[1..]);
    }
  }

  /** A proper prefix ranks below the longer key: `[1, 0]` is below `[1, 0, 1]`. */
  lemma {:induction false} ProperPrefixIsSmaller(a: seq<int>, b: seq<int>)
    requires |a| < |b| && a == b[..|a|]
    ensures Compare(a, b) == -1
  {
    if |a| > 0 {
      assert a[0] == b[0];
      assert a[1..] == b[1..][..|a| - 1];
      ProperPrefixIsSmaller(a[1..], b[1..]);
    }
  }

  /** The version string whose segments are the given numbers: `ks.join('.')`. */
  function Render(ks: seq<nat>): string {
    Join(Decimals(ks), '.')
  }

  function Decimals(ks: seq<nat>): (parts: seq<string>)
    ensures |parts| == |ks|
    ensures forall i :: 0 <= i < |ks| ==> parts[i] == Decimal(ks[i])
  {
    if |ks| == 0 then [] else [Decimal(ks[0])] + Decimals(ks[1..])
  }

  /** The key of a rendered version is the list of numbers it was rendered from. */
  lemma KeyOfRender(ks: seq<nat>)
    ensures Key(Render(ks)) == ks
  {
    var parts := Decimals(ks);
    if |ks| > 0 {
      forall i | 0 <= i < |parts| ensures '.' !in parts[i] {
        assert AllDigits(parts[i]);
      }
      FieldsJoin(parts, '.');
      assert |parts[|parts| - 1]| > 0;
      assert Split(Render(ks), '.') == parts;
      forall i | 0 <= i < |ks| ensures Key(Render(ks))[i] == ks[i] {
        ToIDecimal(ks[i]);
      }
    }
  }

  /**
   * Segments compare as numbers, not as text: "major.x" ranks below "major.y"
   * whenever x < y, so "1.9" ranks below "1.10".
   */
  lemma NumericNotTextual(major: nat, x: nat, y: nat)
    requires x < y
    ensures Compare(Key(Render([major, x])), Key(Render([major, y]))) == -1
  {
    KeyOfRender([major, x]);
    KeyOfRender([major, y]);
    assert [major, x][1..] == [x] && [major, y][1..] == [y];
  }

  /**
   * A segment that does not start, after white space, with a sign or a digit
   * contributes 0 to the key.
   */
  lemma NonNumericSegmentIsZero(v: string, i: nat)
    requires i < |Split(v, '.')|
    requires var t := SkipSpace(Split(v, '.')[i]); |t| == 0 || (!IsDigit(t[0]) && t[0] != '-' && t[0] != '+')
    ensures Key(v)[i] == 0
  {
    ToINonNumeric(Split(v, '.')[i]);
  }

  // ---------------------------------------------------------------------------
  // sort_by { |a| key(a) } followed by last
  // ---------------------------------------------------------------------------

  /** `v` ranks at or below `w` by `key`. */
  predicate LeBy(key: string -> seq<int>, v: string, w: string) {
    KeyLe(key(v), key(w))
  }

  predicate SortedBy(key: string -> seq<int>, s: seq<string>) {
    forall i, j :: 0 <= i < j < |s| ==> LeBy(key, s[i], s[j])
  }

  /** A sorted list stays sorted when an element at or below all of it goes in front. */
  lemma ConsSorted(key: string -> seq<int>, x: string, s: seq<string>)
    requires SortedBy(key, s)
    requires forall j :: 0 <= j < |s| ==> LeBy(key, x, s[j])
    ensures SortedBy(key, [x] + s)
  {
  }

  /** Below the head of a sorted list means below all of it. */
  lemma BelowHead(key: string -> seq<int>, v: string, s: seq<string>)
    requires SortedBy(key, s) && |s| > 0 && LeBy(key, v, s[0])
    ensures forall j :: 0 <= j < |s| ==> LeBy(key, v, s[j])
  {
    forall j | 0 < j < |s| ensures LeBy(key, v, s[j]) {
      KeyLeTransitive(key(v), key(s[0]), key(s[j]));
    }
  }

  /** Puts `v` into the sorted `s` before the first element that ranks at or above it. */
  function Insert(key: string -> seq<int>, v: string, s: seq<string>): (r: seq<string>)
    requires SortedBy(key, s)
    ensures SortedBy(key, r)
    ensures forall x :: x in r ==> x == v || x in s
    ensures multiset(r) == multiset(s) + multiset{v}
  {
    if |s| == 0 then [v]
    else if LeBy(key, v, s[0]) then
      BelowHead(key, v, s);
      ConsSorted(key, v, s);
      [v] + s
    else
      var rest := Insert(key, v, s[1..]);
      KeyLeTotal(key(v), key(s[0]));
      assert s == [s[0]] + s[1..];
      assert forall j :: 0 <= j < |rest| ==> LeBy(key, s[0], rest[j]) by {
        forall j | 0 <= j < |rest| ensures LeBy(key, s[0], rest[j]) {
          assert rest[j] in rest;
        }
      }
      ConsSorted(key, s[0], rest);
      [s[0]] + rest
  }

  /**
   * `sort_by(&key)`: an ordering of `vs` by key. Which of two equal keys comes
   * first is not fixed by Ruby; this one puts them in reverse input order,
   * since each value goes in front of the equal keys already placed.
   */
  function SortBy(key: string -> seq<int>, vs: seq<string>): (r: seq<string>)
    ensures SortedBy(key, r)
    ensures multiset(r) == multiset(vs)
  {
    if |vs| == 0 then []
    else
      assert vs == vs[..|vs| - 1] + [vs[|vs| - 1]];
      Insert(key, vs[|vs| - 1], SortBy(key, vs[..|vs| - 1]))
  }

  /** `array.last || '-'` */
  function LastOrDash(s: seq<string>): string {
    if |s| == 0 then "-" else s[|s| - 1]
  }

  /**
   * Whatever order `sort_by` leaves equal keys in, the last element of a sorted
   * permutation of `vs` is one of `vs` and no element of `vs` ranks above it;
   * with `vs` empty the answer is "-".
   */
  lemma LastOfSortedIsGreatest(key: string -> seq<int>, vs: seq<string>, sorted: seq<string>)
    requires SortedBy(key, sorted) && multiset(sorted) == multiset(vs)
    ensures |vs| == 0 ==> LastOrDash(sorted) == "-"
    ensures |vs| > 0 ==> LastOrDash(sorted) in vs
    ensures forall v :: v in vs ==> LeBy(key, v, LastOrDash(sorted))
  {
    assert |sorted| == |multiset(sorted)| == |multiset(vs)| == |vs|;
    if |vs| > 0 {
      var top := sorted[|sorted| - 1];
      assert top in multiset(sorted);
      forall v | v in vs ensures LeBy(key, v, top) {
        assert v in multiset(sorted);
        var j :| 0 <= j < |sorted| && sorted[j] == v;
        if j == |sorted| - 1 {
          CompareIsLexicographic(key(v), key(v));
        }
      }
    }
  }
}
