/**
 * The three JavaScript string operations the search filter relies on:
 * `String.prototype.trim`, `String.prototype.toLowerCase` and
 * `String.prototype.includes`. Strings are sequences of code points.
 *
 * `trim` strips the ECMAScript WhiteSpace and LineTerminator code points at
 * both ends. `toLowerCase` is modelled on ASCII letters only: it maps
 * 'A'..'Z' to 'a'..'z' and leaves every other code point alone.
 */
module Text {

  /** A code point that `trim` strips: WhiteSpace or LineTerminator in ECMAScript. */
  predicate IsSpace(c: char)
    ensures IsSpace(c) ==> !('A' <= c <= 'Z') && !('a' <= c <= 'z') && !('0' <= c <= '9')
  {
    var n := c as int;
    n == 0x09 || n == 0x0A || n == 0x0B || n == 0x0C || n == 0x0D || n == 0x20
    || n == 0xA0 || n == 0x1680 || (0x2000 <= n <= 0x200A) || n == 0x2028
    || n == 0x2029 || n == 0x202F || n == 0x205F || n == 0x3000 || n == 0xFEFF
  }

  predicate IsUpper(c: char) {
    'A' <= c <= 'Z'
  }

  predicate AllSpace(s: string) {
    forall i :: 0 <= i < |s| ==> IsSpace(s[i])
  }

  // ---------------------------------------------------------------------------
  // Lowercasing

  /** The lowercase form of one code point. */
  function LowerChar(c: char): (d: char)
    ensures !IsUpper(d)
    ensures IsSpace(d) <==> IsSpace(c)
    ensures !IsUpper(c) ==> d == c
    ensures IsUpper(c) ==> 'a' <= d <= 'z' && d as int - c as int == 'a' as int - 'A' as int
  {
    if IsUpper(c) then (c as int - 'A' as int + 'a' as int) as char else c
  }

  /** `s.toLowerCase()`: every code point lowercased, in place. */
  function Lower(s: string): (r: string)
    ensures |r| == |s|
    ensures forall i :: 0 <= i < |s| ==> !IsUpper(r[i]) && (IsUpper(s[i]) || r[i] == s[i])
  {
    seq(|s|, i requires 0 <= i < |s| => LowerChar(s[i]))
  }

  /** Lowercasing twice is lowercasing once. */
  lemma {:induction false} LowerIdempotent(s: string)
    ensures Lower(Lower(s)) == Lower(s)
  {
    assert forall i :: 0 <= i < |s| ==> Lower(Lower(s))[i] == Lower(s)[i];
  }

  /** Lowercasing and slicing commute. */
  lemma {:induction false} LowerSlice(s: string, a: nat, b: nat)
    requires a <= b <= |s|
    ensures Lower(s)[a..b] == Lower(s[a..b])
  {
    assert forall i :: 0 <= i < b - a ==> Lower(s)[a..b][i] == Lower(s[a..b])[i];
  }

  // ---------------------------------------------------------------------------
  // Trimming

  /**
   * `s[a..b]` is what `trim` leaves of `s`: everything before `a` and from `b`
   * on is space, and the kept part neither starts nor ends with space.
   */
  ghost predicate TrimmedSlice(s: string, a: int, b: int) {
    && 0 <= a <= b <= |s|
    && (forall i :: 0 <= i < a ==> IsSpace(s[i]))
    && (forall i :: b <= i < |s| ==> IsSpace(s[i]))
    && (a < b ==> !IsSpace(s[a]) && !IsSpace(s[b - 1]))
  }

  /** The first position at or after `from` that is not space, or `|s|` if there is none. */
  function TrimFrom(s: string, from: nat): (a: nat)
    requires from <= |s|
    ensures from <= a <= |s|
    ensures forall i :: from <= i < a ==> IsSpace(s[i])
    ensures a < |s| ==> !IsSpace(s[a])
    decreases |s| - from
  {
    if from < |s| && IsSpace(s[from]) then TrimFrom(s, from + 1) else from
  }

  /** The end of `s[lo..hi]` once its trailing space is dropped. */
  function TrimTo(s: string, lo: nat, hi: nat): (b: nat)
    requires lo <= hi <= |s|
    ensures lo <= b <= hi
    ensures forall i :: b <= i < hi ==> IsSpace(s[i])
    ensures lo < b ==> !IsSpace(s[b - 1])
  {
    if lo < hi && IsSpace(s[hi - 1]) then TrimTo(s, lo, hi - 1) else hi
  }

  /** How many code points `trim` strips from the front of `s`. */
  function TrimOffset(s: string): (k: nat)
    ensures k <= |s|
  {
    TrimFrom(s, 0)
  }

  /** `s.trim()`: leading and trailing space removed, and nothing else. */
  function Trim(s: string): (r: string)
    ensures TrimmedSlice(s, TrimOffset(s), TrimOffset(s) + |r|)
    ensures r == s[TrimOffset(s)..TrimOffset(s) + |r|]
  {
    var a := TrimFrom(s, 0);
    s[a..TrimTo(s, a, |s|)]
  }

  /** Only one slice of `s` fits the description of what `trim` keeps. */
  lemma {:induction false} TrimmedSliceUnique(s: string, a: int, b: int, a': int, b': int)
    requires TrimmedSlice(s, a, b) && TrimmedSlice(s, a', b')
    ensures s[a..b] == s[a'..b']
  {
  }

  /** `Trim(s)` is the slice described by any `TrimmedSlice(s, a, b)`. */
  lemma {:induction false} TrimIs(s: string, a: int, b: int)
    requires TrimmedSlice(s, a, b)
    ensures Trim(s) == s[a..b]
  {
    TrimmedSliceUnique(s, a, b, TrimOffset(s), TrimOffset(s) + |Trim(s)|);
  }

  /** Padding a trimmed slice with space on both sides keeps it a trimmed slice. */
  lemma {:induction false} PaddedTrimmedSlice(s: string, front: string, back: string, a: int, b: int)
    requires AllSpace(front) && AllSpace(back) && TrimmedSlice(s, a, b)
    ensures TrimmedSlice(front + s + back, |front| + a, |front| + b)
  {
    var p := front + s + back;
    var k := |front|;
    assert forall i :: 0 <= i < k ==> p[i] == front[i];
    assert forall i :: k <= i < k + |s| ==> p[i] == s[i - k];
    assert forall i :: k + |s| <= i < |p| ==> p[i] == back[i - k - |s|];
  }

  /** The middle of a padded string is the string itself. */
  lemma {:induction false} PaddedSlice(s: string, front: string, back: string, a: int, b: int)
    requires 0 <= a <= b <= |s|
    ensures (front + s + back)[|front| + a..|front| + b] == s[a..b]
  {
    assert (front + s + back)[|front|..|front| + |s|] == s;
  }

  /** Space added at either end of a string does not change what `trim` returns. */
  lemma {:induction false} TrimIgnoresPadding(s: string, front: string, back: string)
    requires AllSpace(front) && AllSpace(back)
    ensures Trim(front + s + back) == Trim(s)
  {
    TrimPadded(s, front, back, TrimOffset(s), TrimOffset(s) + |Trim(s)|);
  }

  /** What `trim` keeps of a padded string is what it keeps of the unpadded one. */
  lemma {:induction false} TrimPadded(s: string, front: string, back: string, a: int, b: int)
    requires AllSpace(front) && AllSpace(back) && TrimmedSlice(s, a, b)
    ensures Trim(front + s + back) == s[a..b]
  {
    PaddedTrimmedSlice(s, front, back, a, b);
    PaddedSlice(s, front, back, a, b);
    TrimIs(front + s + back, |front| + a, |front| + b);
  }

  /** Lowercasing neither makes nor removes space, so the trimmed slice stays where it was. */
  lemma {:induction false} LowerKeepsTrimmedSlice(s: string, a: int, b: int)
    requires TrimmedSlice(s, a, b)
    ensures TrimmedSlice(Lower(s), a, b)
  {
    assert forall i :: 0 <= i < |s| ==> (IsSpace(Lower(s)[i]) <==> IsSpace(s[i]));
  }

  /** Trimming and lowercasing commute: lowercasing neither makes nor removes space. */
  lemma {:induction false} LowerTrimCommute(s: string)
    ensures Lower(Trim(s)) == Trim(Lower(s))
  {
    var a, b := TrimOffset(s), TrimOffset(s) + |Trim(s)|;
    assert Trim(s) == s[a..b];
    LowerKeepsTrimmedSlice(s, a, b);
    TrimIs(Lower(s), a, b);
    LowerSlice(s, a, b);
  }

  // ---------------------------------------------------------------------------
  // Substring search

  /** `kw` occurs in `s` starting at index `i`. */
  predicate OccursAt(s: string, kw: string, i: int) {
    0 <= i && i + |kw| <= |s| && s[i..i + |kw|] == kw
  }

  /** `s.includes(kw)`: `kw` occurs somewhere in `s` (the empty string occurs everywhere). */
  predicate Contains(s: string, kw: string)
    ensures Contains(s, kw) ==> |kw| <= |s|
    decreases |s|
  {
    OccursAt(s, kw, 0) || (s != [] && Contains(s[1..], kw))
  }

  /** `Contains` holds exactly when there is an index at which `kw` occurs. */
  lemma {:induction false} ContainsIff(s: string, kw: string)
    ensures Contains(s, kw) <==> exists i :: OccursAt(s, kw, i)
  {
    if s != [] {
      ContainsIff(s[1..], kw);
      if Contains(s[1..], kw) {
        var i :| OccursAt(s[1..], kw, i);
        assert s[i + 1..i + 1 + |kw|] == s[1..][i..i + |kw|];
        assert OccursAt(s, kw, i + 1);
      }
      if i :| OccursAt(s, kw, i) && i > 0 {
        assert s[1..][i - 1..i - 1 + |kw|] == s[i..i + |kw|];
        assert OccursAt(s[1..], kw, i - 1);
      }
    } else {
      if i :| OccursAt(s, kw, i) {
        assert i == 0;
      }
    }
  }

  /** The empty keyword occurs in every string. */
  lemma {:induction false} ContainsEmpty(s: string)
    ensures Contains(s, [])
  {
    assert OccursAt(s, [], 0);
  }

  /** A keyword whose first letter is absent from a string does not occur in it. */
  lemma {:induction false} FirstLetterAbsent(s: string, kw: string)
    requires kw != [] && forall i :: 0 <= i < |s| ==> s[i] != kw[0]
    ensures !Contains(s, kw)
  {
    forall i ensures !OccursAt(s, kw, i) {
      if 0 <= i && i + |kw| <= |s| {
        assert s[i..i + |kw|][0] == s[i];
      }
    }
    ContainsIff(s, kw);
  }

  /** Lowercasing a string that holds a letter in neither case does not produce it. */
  lemma {:induction false} LowerLacksLetter(s: string, c: char)
    requires 'a' <= c <= 'z'
    requires forall i :: 0 <= i < |s| ==> s[i] != c && s[i] as int != c as int - 'a' as int + 'A' as int
    ensures forall i :: 0 <= i < |Lower(s)| ==> Lower(s)[i] != c
  {
  }
}
