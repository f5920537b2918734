// Option and the few Python `str` operations the bot relies on:
// `str.isspace` on one character, `str.strip()`, `str.startswith` and
// `str.replace(old, new)` for a non-empty `old`.

module Wrappers {
  datatype Option<+T> = None | Some(value: T)
}

module Text {

  /** The characters Python's `str.isspace` accepts (and `\s` matches in a
      `str` pattern), by code point: tab to carriage return, the four
      information separators and space, NEL, no-break space, the Unicode
      space separators and the line and paragraph separators. */
  predicate IsSpace(c: char) {
    var n := c as int;
    (0x09 <= n <= 0x0D) || (0x1C <= n <= 0x20) || n == 0x85 || n == 0xA0 || n == 0x1680
    || (0x2000 <= n <= 0x200A) || n == 0x2028 || n == 0x2029 || n == 0x202F || n == 0x205F
    || n == 0x3000
  }

  predicate AllSpace(s: string) {
    forall k :: 0 <= k < |s| ==> IsSpace(s[k])
  }

  predicate StartsWith(s: string, prefix: string) {
    |prefix| <= |s| && s[..|prefix|] == prefix
  }

  predicate EndsWith(s: string, suffix: string) {
    |suffix| <= |s| && s[|s| - |suffix|..] == suffix
  }

  /** `pat` occurs in `s` starting at index `i`. */
  predicate OccursAt(s: string, pat: string, i: nat) {
    i + |pat| <= |s| && s[i..i + |pat|] == pat
  }

  /** No occurrence of `pat` in `s` starts before index `n`. */
  predicate NoOccurrenceBefore(s: string, pat: string, n: nat) {
    forall i: nat :: i < n ==> !OccursAt(s, pat, i)
  }

  /** `pat` occurs nowhere in `s`. */
  predicate Lacks(s: string, pat: string) {
    NoOccurrenceBefore(s, pat, |s|)
  }

  /** `s` without its leading whitespace. */
  function TrimLeft(s: string): string
    decreases |s|
  {
    if s != [] && IsSpace(s[0]) then TrimLeft(s[1..]) else s
  }

  /** `s` without its trailing whitespace. */
  function TrimRight(s: string): string
    decreases |s|
  {
    if s != [] && IsSpace(s[|s| - 1]) then TrimRight(s[..|s| - 1]) else s
  }

  /** Python `s.strip()`. */
  function Strip(s: string): string {
    TrimRight(TrimLeft(s))
  }

  /** TrimLeft drops exactly the longest all-whitespace prefix. */
  lemma {:induction false} TrimLeftDrops(s: string) returns (i: nat)
    ensures i <= |s| && TrimLeft(s) == s[i..]
    ensures AllSpace(s[..i]) && (i == |s| || !IsSpace(s[i]))
    decreases |s|
  {
    if s != [] && IsSpace(s[0]) {
      var k := TrimLeftDrops(s[1..]);
      i := k + 1;
      assert s[1..][k..] == s[i..];
      assert s[..i] == [s[0]] + s[1..][..k];
    } else {
      i := 0;
    }
  }

  /** TrimRight drops exactly the longest all-whitespace suffix. */
  lemma {:induction false} TrimRightDrops(s: string) returns (j: nat)
    ensures j <= |s| && TrimRight(s) == s[..j]
    ensures AllSpace(s[j..]) && (j == 0 || !IsSpace(s[j - 1]))
    decreases |s|
  {
    if s != [] && IsSpace(s[|s| - 1]) {
      var init := s[..|s| - 1];
      j := TrimRightDrops(init);
      assert init[..j] == s[..j];
      assert s[j..] == init[j..] + [s[|s| - 1]];
    } else {
      j := |s|;
    }
  }

  /** Strip keeps the slice of `s` that is left once the whitespace at
      both ends is dropped: it neither starts nor ends with whitespace,
      and only whitespace lies outside it. */
  lemma StripIsTrimmedSlice(s: string)
    ensures exists i, j :: 0 <= i <= j <= |s| && Strip(s) == s[i..j]
                           && AllSpace(s[..i]) && AllSpace(s[j..])
    ensures var r := Strip(s); r == [] || (!IsSpace(r[0]) && !IsSpace(r[|r| - 1]))
  {
    var i := TrimLeftDrops(s);
    var rest := s[i..];
    var t := TrimRightDrops(rest);
    var r := Strip(s);
    assert r == rest[..t] == s[i..i + t];
    assert s[i + t..] == rest[t..];
    if r != [] {
      assert r[0] == s[i];
      assert r[|r| - 1] == rest[t - 1];
    }
    assert 0 <= i <= i + t <= |s| && AllSpace(s[..i]) && AllSpace(s[i + t..]);
  }

  /** Python `s.replace(pat, rep)` for a non-empty `pat`: scanning from the
      left, every occurrence of `pat` that does not overlap an earlier
      replaced one becomes `rep`. */
  function ReplaceAll(s: string, pat: string, rep: string): (r: string)
    requires pat != []
    decreases |s|
  {
    if |s| < |pat| then s
    else if s[..|pat|] == pat then rep + ReplaceAll(s[|pat|..], pat, rep)
    else [s[0]] + ReplaceAll(s[1..], pat, rep)
  }

  /** Without an occurrence of `pat`, replacing changes nothing. */
  lemma {:induction false} ReplaceAllNoOccurrence(s: string, pat: string, rep: string)
    requires pat != []
    requires NoOccurrenceBefore(s, pat, |s|)
    ensures ReplaceAll(s, pat, rep) == s
    decreases |s|
  {
    if |s| >= |pat| {
      assert !OccursAt(s, pat, 0);
      forall i: nat | i < |s[1..]| ensures !OccursAt(s[1..], pat, i) {
        assert !OccursAt(s, pat, i + 1);
        if i + |pat| <= |s[1..]| { assert s[1..][i..i + |pat|] == s[i + 1..i + 1 + |pat|]; }
      }
      ReplaceAllNoOccurrence(s[1..], pat, rep);
    }
  }

  /** A pattern whose first character is absent from the first `n`
      characters does not occur before `n`. */
  lemma FirstCharAbsent(s: string, pat: string, n: nat)
    requires pat != [] && n <= |s| && pat[0] !in s[..n]
    ensures NoOccurrenceBefore(s, pat, n)
  {
    forall i: nat | i < n ensures !OccursAt(s, pat, i) {
      assert s[..n][i] == s[i];
      assert s[i] in s[..n];
      if i + |pat| <= |s| { assert s[i..i + |pat|][0] == s[i]; }
    }
  }

  /** A pattern with a character absent from `s` does not occur in it. */
  lemma PatternCharAbsent(s: string, pat: string, k: nat)
    requires k < |pat| && pat[k] !in s
    ensures NoOccurrenceBefore(s, pat, |s|)
  {
    forall i: nat | i < |s| ensures !OccursAt(s, pat, i) {
      if i + |pat| <= |s| {
        assert s[i..i + |pat|][k] == s[i + k];
        assert s[i + k] in s;
      }
    }
  }

  /** The leftmost occurrence is the one replaced: what precedes it is kept
      verbatim and the scan resumes right after it. Together with
      ReplaceAllNoOccurrence this determines ReplaceAll completely. */
  lemma {:induction false} ReplaceAllFirst(a: string, pat: string, b: string, rep: string)
    requires pat != []
    requires NoOccurrenceBefore(a + pat + b, pat, |a|)
    ensures ReplaceAll(a + pat + b, pat, rep) == a + rep + ReplaceAll(b, pat, rep)
    decreases |a|
  {
    var s := a + pat + b;
    if a == [] {
      assert s[..|pat|] == pat;
      assert s[|pat|..] == b;
    } else {
      var s' := a[1..] + pat + b;
      assert s[1..] == s';
      assert !OccursAt(s, pat, 0);
      assert s[..|pat|] != pat;
      forall i: nat | i < |a| - 1 ensures !OccursAt(s', pat, i) {
        assert !OccursAt(s, pat, i + 1);
        assert s'[i..i + |pat|] == s[i + 1..i + 1 + |pat|];
      }
      ReplaceAllFirst(a[1..], pat, b, rep);
      assert ReplaceAll(s, pat, rep) == [s[0]] + ReplaceAll(s', pat, rep);
      assert a == [a[0]] + a[1..];
    }
  }

  /** A single occurrence is the only thing replaced. */
  lemma ReplaceAllOnce(a: string, pat: string, b: string, rep: string)
    requires pat != []
    requires NoOccurrenceBefore(a + pat + b, pat, |a|) && NoOccurrenceBefore(b, pat, |b|)
    ensures ReplaceAll(a + pat + b, pat, rep) == a + rep + b
  {
    ReplaceAllFirst(a, pat, b, rep);
    ReplaceAllNoOccurrence(b, pat, rep);
  }

  /** Replacing a single character by a text that does not contain it
      leaves no copy of that character behind. */
  lemma {:induction false} ReplaceCharRemovesIt(s: string, c: char, rep: string)
    requires c !in rep
    ensures c !in ReplaceAll(s, [c], rep)
    decreases |s|
  {
    if |s| >= 1 {
      ReplaceCharRemovesIt(s[1..], c, rep);
    }
  }

  /** Removing every occurrence can create a new one: the result of a
      replace-all with an empty replacement may still contain the pattern. */
  lemma RemovalCanRecreatePattern()
    ensures ReplaceAll("aabb", "ab", "") == "ab"
  {
    var a, pat, b := "a", "ab", "b";
    var s := a + pat + b;
    assert s[..2] != pat by { assert s[..2][1] == 'a'; }
    ReplaceAllFirst(a, pat, b, "");
    assert s == "aabb";
  }
}
