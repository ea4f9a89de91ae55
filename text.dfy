/** Option, the stand-in for JavaScript's `undefined`-able values. */
module Wrappers {
  datatype Option<+T> = None | Some(value: T)
}

/**
 * String helpers shared by the upload pipeline: ASCII case mapping (the model of
 * `toLowerCase`/`toUpperCase`), `endsWith`, `Array.prototype.join`,
 * `String.prototype.split` on one character, and the sequence combinators
 * `filter`/`map` with the facts the rest of the model needs about them.
 */
module Text {

  // ---------------------------------------------------------------------------
  // Case mapping

  function LowerChar(c: char): char {
    if 'A' <= c <= 'Z' then (c as int + 32) as char else c
  }

  function UpperChar(c: char): char {
    if 'a' <= c <= 'z' then (c as int - 32) as char else c
  }

  function ToLower(s: string): (r: string)
    ensures |r| == |s|
  {
    if |s| == 0 then "" else [LowerChar(s[0])] + ToLower(s[1..])
  }

  function ToUpper(s: string): (r: string)
    ensures |r| == |s|
  {
    if |s| == 0 then "" else [UpperChar(s[0])] + ToUpper(s[1..])
  }

  /** Case mapping works character by character. */
  lemma {:induction false} CaseAt(s: string, i: int)
    requires 0 <= i < |s|
    ensures ToLower(s)[i] == LowerChar(s[i])
    ensures ToUpper(s)[i] == UpperChar(s[i])
    decreases |s|
  {
    if i > 0 {
      CaseAt(s[1..], i - 1);
    }
  }

  /** Lower-casing forgets whatever case a string had before. */
  lemma LowerOfUpper(s: string)
    ensures ToLower(ToUpper(s)) == ToLower(s)
  {
    forall i | 0 <= i < |s| ensures ToLower(ToUpper(s))[i] == ToLower(s)[i] {
      CaseAt(s, i);
      CaseAt(ToUpper(s), i);
    }
  }

  /** Case mapping never creates or removes a given punctuation character. */
  lemma CaseKeepsChar(s: string, c: char)
    requires !('a' <= c <= 'z') && !('A' <= c <= 'Z')
    ensures c in ToUpper(s) <==> c in s
    ensures c in ToLower(s) <==> c in s
  {
    if c in ToUpper(s) {
      var i :| 0 <= i < |s| && ToUpper(s)[i] == c;
      CaseAt(s, i);
    }
    if c in ToLower(s) {
      var i :| 0 <= i < |s| && ToLower(s)[i] == c;
      CaseAt(s, i);
    }
    if c in s {
      var i :| 0 <= i < |s| && s[i] == c;
      CaseAt(s, i);
      assert ToUpper(s)[i] == c && ToLower(s)[i] == c;
    }
  }

  /** A string without upper-case letters is its own lower-case form. */
  lemma {:induction false} ToUpperFixed(s: string)
    requires forall i :: 0 <= i < |s| ==> !('a' <= s[i] <= 'z')
    ensures ToUpper(s) == s
    decreases |s|
  {
    if |s| > 0 {
      ToUpperFixed(s[1..]);
      assert s == [s[0]] + s[1..];
    }
  }

  lemma {:induction false} ToLowerFixed(s: string)
    requires forall i :: 0 <= i < |s| ==> !('A' <= s[i] <= 'Z')
    ensures ToLower(s) == s
    decreases |s|
  {
    if |s| > 0 {
      ToLowerFixed(s[1..]);
      assert s == [s[0]] + s[1..];
    }
  }

  lemma {:induction false} ToLowerAppend(a: string, b: string)
    ensures ToLower(a + b) == ToLower(a) + ToLower(b)
    decreases |a|
  {
    if |a| > 0 {
      assert (a + b)[1..] == a[1..] + b;
      ToLowerAppend(a[1..], b);
    } else {
      assert a + b == b;
    }
  }

  // ---------------------------------------------------------------------------
  // endsWith

  predicate EndsWith(s: string, suffix: string) {
    |suffix| <= |s| && s[|s| - |suffix|..] == suffix
  }

  lemma EndsWithAppend(a: string, b: string)
    ensures EndsWith(a + b, b)
  {
  }

  /** Two strings ending in different characters do not end with one another. */
  lemma EndsWithLastChar(s: string, suffix: string)
    requires |s| > 0 && |suffix| > 0 && s[|s| - 1] != suffix[|suffix| - 1]
    ensures !EndsWith(s, suffix)
  {
  }

  // ---------------------------------------------------------------------------
  // join

  /** `parts.join(sep)`: the parts with `sep` between neighbours. */
  function Join(parts: seq<string>, sep: string): string {
    if |parts| == 0 then ""
    else if |parts| == 1 then parts[0]
    else parts[0] + sep + Join(parts[1..], sep)
  }

  lemma {:induction false} JoinEmptyIff(parts: seq<string>, sep: string)
    requires forall i :: 0 <= i < |parts| ==> parts[i] != ""
    ensures Join(parts, sep) == "" <==> |parts| == 0
  {
    if |parts| >= 2 {
      assert |Join(parts, sep)| >= |parts[0]| > 0;
    }
  }

  // ---------------------------------------------------------------------------
  // split on one character

  /**
   * `s.split(c)` for a one-character separator: the maximal runs between
   * occurrences of `c`, always at least one (the empty string gives `[""]`).
   */
  function Split(s: string, c: char): (r: seq<string>)
    ensures |r| >= 1
    decreases |s|
  {
    if |s| == 0 then [""]
    else if s[0] == c then [""] + Split(s[1..], c)
    else
      var rest := Split(s[1..], c);
      [[s[0]] + rest[0]] + rest[1..]
  }

  /** No piece of a split contains the separator. */
  lemma {:induction false} SplitPiecesFree(s: string, c: char)
    ensures forall i :: 0 <= i < |Split(s, c)| ==> c !in Split(s, c)[i]
    decreases |s|
  {
    if |s| > 0 {
      SplitPiecesFree(s[1..], c);
    }
  }

  /** Joining the pieces with the separator gives back the string. */
  lemma {:induction false} SplitThenJoin(s: string, c: char)
    ensures Join(Split(s, c), [c]) == s
    decreases |s|
  {
    if |s| > 0 {
      var x, t := s[0], s[1..];
      assert s == [x] + t;
      SplitThenJoin(t, c);
      SplitCons(x, t, c);
      JoinCons([x], Split(t, c), [c]);
    }
  }

  /** Joining after opening a new empty first piece, or after extending the first piece. */
  lemma JoinCons(x: string, parts: seq<string>, sep: string)
    requires |parts| >= 1
    ensures Join([""] + parts, sep) == sep + Join(parts, sep)
    ensures Join([x + parts[0]] + parts[1..], sep) == x + Join(parts, sep)
  {
    var started := [""] + parts;
    assert started[1..] == parts;
    var grown := [x + parts[0]] + parts[1..];
    assert grown[1..] == parts[1..];
  }

  /** A string without the separator is one piece. */
  lemma {:induction false} SplitNoSeparator(s: string, c: char)
    requires c !in s
    ensures Split(s, c) == [s]
    decreases |s|
  {
    if |s| > 0 {
      SplitNoSeparator(s[1..], c);
      assert s == [s[0]] + s[1..];
    }
  }

  /** Splitting distributes over an occurrence of the separator. */
  lemma {:induction false} SplitAround(a: string, b: string, c: char)
    ensures Split(a + [c] + b, c) == Split(a, c) + Split(b, c)
    decreases |a|
  {
    if |a| == 0 {
      assert a + [c] + b == [c] + b;
      SplitCons(c, b, c);
    } else {
      var x, t := a[0], a[1..];
      assert a == [x] + t;
      assert a + [c] + b == [x] + (t + [c] + b);
      SplitAround(t, b, c);
      SplitCons(x, t, c);
      SplitCons(x, t + [c] + b, c);
      ConsPieces(x == c, [x], Split(t, c), Split(b, c));
    }
  }

  /** Unfolding `Split` once at the front. */
  lemma SplitCons(x: char, t: string, c: char)
    ensures Split([x] + t, c) ==
              if x == c then [""] + Split(t, c)
              else [[x] + Split(t, c)[0]] + Split(t, c)[1..]
  {
    assert ([x] + t)[1..] == t;
  }

  /** Starting a new first piece, or extending it, commutes with appending more pieces. */
  lemma ConsPieces(newPiece: bool, x: string, left: seq<string>, right: seq<string>)
    requires |left| >= 1
    ensures newPiece ==> [""] + (left + right) == ([""] + left) + right
    ensures !newPiece ==> [x + (left + right)[0]] + (left + right)[1..] == ([x + left[0]] + left[1..]) + right
  {
    if !newPiece {
      assert (left + right)[1..] == left[1..] + right;
    }
  }

  /** The pieces of a split are exactly its input's runs: splitting a join gives back the parts. */
  lemma {:induction false} JoinThenSplit(parts: seq<string>, c: char)
    requires |parts| >= 1
    requires forall i :: 0 <= i < |parts| ==> c !in parts[i]
    ensures Split(Join(parts, [c]), c) == parts
    decreases |parts|
  {
    if |parts| == 1 {
      SplitNoSeparator(parts[0], c);
    } else {
      JoinThenSplit(parts[1..], c);
      SplitAround(parts[0], Join(parts[1..], [c]), c);
      SplitNoSeparator(parts[0], c);
      assert parts == [parts[0]] + parts[1..];
    }
  }

  /** Position `k` holds the last occurrence of `c` in `s`. */
  predicate IsLastIndexOf(s: string, c: char, k: int) {
    0 <= k < |s| && s[k] == c && c !in s[k + 1..]
  }

  lemma LastIndexExists(s: string, c: char) returns (k: nat)
    requires c in s
    ensures IsLastIndexOf(s, c, k)
  {
    k := |s| - 1;
    while s[k] != c
      invariant 0 <= k < |s|
      invariant c !in s[k + 1..]
      invariant c in s[..k + 1]
      decreases k
    {
      assert s[..k + 1] == s[..k] + [s[k]];
      assert s[k..] == [s[k]] + s[k + 1..];
      k := k - 1;
    }
  }

  /**
   * With `k` the last occurrence of `c`, the pieces are those of the text before
   * `k` followed by everything after it as the final piece.
   */
  lemma SplitAtLast(s: string, c: char, k: int)
    requires IsLastIndexOf(s, c, k)
    ensures Split(s, c) == Split(s[..k], c) + [s[k + 1..]]
  {
    assert s == s[..k] + [c] + s[k + 1..];
    SplitAround(s[..k], s[k + 1..], c);
    SplitNoSeparator(s[k + 1..], c);
  }

  /** `Split(s, c)` has one piece exactly when `c` does not occur in `s`. */
  lemma SplitSingleIff(s: string, c: char)
    ensures |Split(s, c)| == 1 <==> c !in s
  {
    if c in s {
      var k := LastIndexExists(s, c);
      SplitAtLast(s, c, k);
    } else {
      SplitNoSeparator(s, c);
    }
  }

  // ---------------------------------------------------------------------------
  // filter and map

  /** `s.filter(p)`. */
  function Filter<T>(s: seq<T>, p: T -> bool): (r: seq<T>)
    ensures |r| <= |s|
    ensures forall i :: 0 <= i < |r| ==> p(r[i])
  {
    if |s| == 0 then []
    else if p(s[0]) then [s[0]] + Filter(s[1..], p)
    else Filter(s[1..], p)
  }

  /** `s.map(f)`. */
  function Map<T, U>(f: T -> U, s: seq<T>): (r: seq<U>)
    ensures |r| == |s|
    ensures forall i :: 0 <= i < |s| ==> r[i] == f(s[i])
  {
    seq(|s|, i requires 0 <= i < |s| => f(s[i]))
  }

  /** `r` is `s` with some elements dropped and the rest kept in order. */
  predicate IsSubsequence<T(==)>(r: seq<T>, s: seq<T>)
    decreases |s|
  {
    if |r| == 0 then true
    else if |s| == 0 then false
    else if r[0] == s[0] then IsSubsequence(r[1..], s[1..])
    else IsSubsequence(r, s[1..])
  }

  /**
   * A filter keeps exactly the elements satisfying the predicate, as a
   * subsequence of its input (original order preserved).
   */
  lemma {:induction false} FilterKeepsExactly<T>(s: seq<T>, p: T -> bool)
    ensures IsSubsequence(Filter(s, p), s)
    ensures forall x :: x in Filter(s, p) <==> x in s && p(x)
    ensures |Filter(s, p)| == CountIf(s, p)
    decreases |s|
  {
    FilterCount(s, p);
    if |s| > 0 {
      FilterKeepsExactly(s[1..], p);
      var r := Filter(s, p);
      if p(s[0]) {
        assert r[0] == s[0] && r[1..] == Filter(s[1..], p);
      }
      assert s == [s[0]] + s[1..];
    }
  }

  /** The number of positions of `s` holding an element that satisfies `p`. */
  function CountIf<T>(s: seq<T>, p: T -> bool): nat {
    |set i | 0 <= i < |s| && p(s[i])|
  }

  lemma {:induction false} FilterSnoc<T>(s: seq<T>, x: T, p: T -> bool)
    ensures Filter(s + [x], p) == Filter(s, p) + (if p(x) then [x] else [])
    decreases |s|
  {
    if |s| == 0 {
      assert s + [x] == [x] && [x][1..] == [];
    } else {
      assert (s + [x])[0] == s[0] && (s + [x])[1..] == s[1..] + [x];
      FilterSnoc(s[1..], x, p);
    }
  }

  lemma CountIfSnoc<T>(s: seq<T>, x: T, p: T -> bool)
    ensures CountIf(s + [x], p) == CountIf(s, p) + (if p(x) then 1 else 0)
  {
    var t := s + [x];
    var before := set i | 0 <= i < |s| && p(s[i]);
    var after := set i | 0 <= i < |t| && p(t[i]);
    assert forall i :: 0 <= i < |s| ==> t[i] == s[i];
    if p(x) {
      assert after == before + {|s|};
    } else {
      assert after == before;
    }
  }

  /** A filter keeps one element per position that satisfies the predicate. */
  lemma {:induction false} FilterCount<T>(s: seq<T>, p: T -> bool)
    ensures |Filter(s, p)| == CountIf(s, p)
    decreases |s|
  {
    if |s| > 0 {
      var init, x := s[..|s| - 1], s[|s| - 1];
      assert s == init + [x];
      FilterCount(init, p);
      FilterSnoc(init, x, p);
      CountIfSnoc(init, x, p);
    }
  }

  /** A filter drops nothing exactly when every element satisfies the predicate. */
  lemma {:induction false} FilterKeepsAllIff<T>(s: seq<T>, p: T -> bool)
    ensures |Filter(s, p)| == |s| <==> forall i :: 0 <= i < |s| ==> p(s[i])
    decreases |s|
  {
    if |s| > 0 {
      FilterKeepsAllIff(s[1..], p);
      if !p(s[0]) {
        assert |Filter(s, p)| == |Filter(s[1..], p)| <= |s| - 1;
      } else {
        assert forall i :: 1 <= i < |s| ==> s[i] == s[1..][i - 1];
      }
    }
  }

  /** A filter keeps something exactly when some element satisfies the predicate. */
  lemma {:induction false} FilterNonEmptyIff<T>(s: seq<T>, p: T -> bool)
    ensures |Filter(s, p)| > 0 <==> exists i :: 0 <= i < |s| && p(s[i])
    decreases |s|
  {
    if |s| > 0 {
      FilterNonEmptyIff(s[1..], p);
      if exists i :: 0 <= i < |s| && p(s[i]) {
        var i :| 0 <= i < |s| && p(s[i]);
        if i > 0 {
          assert p(s[1..][i - 1]);
        }
      }
      if exists i :: 0 <= i < |s[1..]| && p(s[1..][i]) {
        var i :| 0 <= i < |s[1..]| && p(s[1..][i]);
        assert p(s[i + 1]);
      }
    }
  }
}
