// `extract_size` (bot.py:35-37): the leftmost match of
// `\d+(?:\.\d+)?\s*(?:GB|MB|KB)`, case-insensitive, or "Unknown".
//
// The regular language is defined declaratively (IsSizeToken); MatchAt
// follows the path Python's backtracking engine takes from one start
// position, and Search tries the start positions from left to right.

module SizeExtract {
  import opened Wrappers
  import opened Text

  const Unknown: string := "Unknown"

  predicate IsDigit(c: char) {
    '0' <= c <= '9'
  }

  predicate AllDigits(x: string) {
    forall k :: 0 <= k < |x| ==> IsDigit(x[k])
  }

  // The unit letters under IGNORECASE; Python folds the Kelvin sign
  // U+212A together with `k`.
  predicate IsG(c: char) { c == 'G' || c == 'g' }
  predicate IsM(c: char) { c == 'M' || c == 'm' }
  predicate IsK(c: char) { c == 'K' || c == 'k' || c == '\U{212A}' }
  predicate IsB(c: char) { c == 'B' || c == 'b' }

  /** `GB|MB|KB` */
  predicate IsUnit(u: string) {
    |u| == 2 && (IsG(u[0]) || IsM(u[0]) || IsK(u[0])) && IsB(u[1])
  }

  /** `\d+(?:\.\d+)?` */
  predicate IsNumber(x: string) {
    (x != [] && AllDigits(x))
    || exists p :: 0 < p < |x| - 1 && x[p] == '.' && AllDigits(x[..p]) && AllDigits(x[p + 1..])
  }

  /** The whole pattern `\d+(?:\.\d+)?\s*(?:GB|MB|KB)`. */
  predicate IsSizeToken(w: string) {
    exists n :: 0 < n <= |w| - 2 && IsNumber(w[..n]) && AllSpace(w[n..|w| - 2]) && IsUnit(w[|w| - 2..])
  }

  /** Whitespace, digits, `.` and the unit letters are disjoint classes. */
  lemma SpaceIsNoTokenChar(c: char)
    ensures IsSpace(c) ==> !IsDigit(c) && c != '.' && !IsG(c) && !IsM(c) && !IsK(c)
  {
  }

  /** `s[i..e]` is a match of the pattern. */
  predicate MatchesAt(s: string, i: nat, e: nat) {
    i <= e <= |s| && IsSizeToken(s[i..e])
  }

  /** End of the maximal run of digits starting at `i` (greedy `\d+`). */
  function SkipDigits(s: string, i: nat): (j: nat)
    requires i <= |s|
    ensures i <= j <= |s|
    ensures AllDigits(s[i..j])
    ensures j == |s| || !IsDigit(s[j])
    decreases |s| - i
  {
    if i < |s| && IsDigit(s[i]) then
      var j := SkipDigits(s, i + 1);
      assert s[i..j] == [s[i]] + s[i + 1..j];
      j
    else i
  }

  /** End of the maximal run of whitespace starting at `i` (greedy `\s*`). */
  function SkipSpace(s: string, i: nat): (j: nat)
    requires i <= |s|
    ensures i <= j <= |s|
    ensures AllSpace(s[i..j])
    ensures j == |s| || !IsSpace(s[j])
    decreases |s| - i
  {
    if i < |s| && IsSpace(s[i]) then
      var j := SkipSpace(s, i + 1);
      assert s[i..j] == [s[i]] + s[i + 1..j];
      j
    else i
  }

  /** The match the regex engine finds when it starts at `i`, as its end.
      The digit run, the optional fraction and the whitespace are taken
      greedily; giving any of them back cannot help, because the character
      freed would be a digit, a space or the `.` and none of them begins a
      unit. */
  function MatchAt(s: string, i: nat): (r: Option<nat>)
    requires i <= |s|
    ensures r.Some? ==> i < r.value <= |s|
  {
    var j := SkipDigits(s, i);
    if j == i then None
    else
      var k := if j + 1 < |s| && s[j] == '.' && IsDigit(s[j + 1]) then SkipDigits(s, j + 1) else j;
      var m := SkipSpace(s, k);
      if m + 2 <= |s| && IsUnit(s[m..m + 2]) then Some(m + 2) else None
  }

  /** `re.search`: the first start position, from `i` on, where MatchAt
      succeeds, with the match's end. */
  function Search(s: string, i: nat): (r: Option<(nat, nat)>)
    requires i <= |s|
    ensures r.Some? ==> i <= r.value.0 < r.value.1 <= |s|
    decreases |s| - i
  {
    match MatchAt(s, i)
    case Some(e) => Some((i, e))
    case None => if i == |s| then None else Search(s, i + 1)
  }

  /** A result of Search is the first start position from `i` on where
      the engine succeeds. */
  lemma {:induction false} SearchFound(s: string, i: nat, start: nat, end: nat)
    requires i <= |s| && Search(s, i) == Some((start, end))
    ensures MatchAt(s, start) == Some(end)
    ensures forall k :: i <= k < start ==> MatchAt(s, k).None?
    decreases |s| - i
  {
    if MatchAt(s, i).None? {
      SearchFound(s, i + 1, start, end);
    }
  }

  /** Search finds nothing only when the engine succeeds nowhere from `i` on. */
  lemma {:induction false} SearchNotFound(s: string, i: nat)
    requires i <= |s| && Search(s, i).None?
    ensures forall k :: i <= k <= |s| ==> MatchAt(s, k).None?
    decreases |s| - i
  {
    if i < |s| {
      SearchNotFound(s, i + 1);
    }
  }

  /** `extract_size(text)`. */
  function ExtractSize(text: string): string {
    match Search(text, 0)
    case None => Unknown
    case Some((i, e)) => text[i..e]
  }

  /** ExtractSize is "Unknown" exactly when the text holds no match, and
      otherwise the match that starts leftmost. */
  lemma ExtractSizeIsLeftmostMatch(text: string)
    ensures ExtractSize(text) == Unknown <==> forall i: nat, e: nat :: !MatchesAt(text, i, e)
    ensures ExtractSize(text) != Unknown ==>
      exists i: nat, e: nat :: MatchesAt(text, i, e) && ExtractSize(text) == text[i..e]
        && forall i': nat, e': nat :: i' < i ==> !MatchesAt(text, i', e')
  {
    match Search(text, 0)
    case None =>
      SearchNotFound(text, 0);
      forall i: nat, e: nat | MatchesAt(text, i, e) ensures false {
        MatchAtComplete(text, i, e);
      }
    case Some((i, e)) =>
      SearchFound(text, 0, i, e);
      MatchAtSound(text, i, e);
      assert IsDigit(text[i..e][0]) by { TokenStartsWithDigit(text[i..e]); }
      assert text[i..e] != Unknown;
      forall i': nat, e': nat | i' < i ensures !MatchesAt(text, i', e') {
        if MatchesAt(text, i', e') { MatchAtComplete(text, i', e'); }
      }
  }

  /** A size found in the text is a piece of it that starts with a digit
      and ends with a unit. */
  lemma ExtractSizeShape(text: string)
    ensures var r := ExtractSize(text);
      r != Unknown ==>
        |r| >= 3 && IsDigit(r[0]) && IsUnit(r[|r| - 2..]) && exists i: nat :: OccursAt(text, r, i)
  {
    match Search(text, 0)
    case None =>
    case Some((i, e)) =>
      SearchFound(text, 0, i, e);
      MatchAtSound(text, i, e);
      var w := text[i..e];
      TokenShape(w);
      assert OccursAt(text, w, i);
  }

  lemma TokenShape(w: string)
    requires IsSizeToken(w)
    ensures |w| >= 3 && IsDigit(w[0]) && IsUnit(w[|w| - 2..])
  {
    TokenStartsWithDigit(w);
  }

  lemma TokenStartsWithDigit(w: string)
    requires IsSizeToken(w)
    ensures w != [] && IsDigit(w[0])
  {
    var n :| 0 < n <= |w| - 2 && IsNumber(w[..n]) && AllSpace(w[n..|w| - 2]) && IsUnit(w[|w| - 2..]);
    var x := w[..n];
    if x != [] && AllDigits(x) {
      assert x[0] == w[0];
    } else {
      var p :| 0 < p < |x| - 1 && x[p] == '.' && AllDigits(x[..p]) && AllDigits(x[p + 1..]);
      assert x[..p][0] == w[0];
    }
  }

  /** A maximal run, however it is found, is the one SkipDigits finds. */
  lemma {:induction false} SkipDigitsExact(s: string, i: nat, j: nat)
    requires i <= j <= |s| && AllDigits(s[i..j]) && (j == |s| || !IsDigit(s[j]))
    ensures SkipDigits(s, i) == j
    decreases j - i
  {
    if i < j {
      assert s[i] == s[i..j][0];
      assert s[i + 1..j] == s[i..j][1..];
      SkipDigitsExact(s, i + 1, j);
    }
  }

  lemma {:induction false} SkipSpaceExact(s: string, i: nat, j: nat)
    requires i <= j <= |s| && AllSpace(s[i..j]) && (j == |s| || !IsSpace(s[j]))
    ensures SkipSpace(s, i) == j
    decreases j - i
  {
    if i < j {
      assert s[i] == s[i..j][0];
      assert s[i + 1..j] == s[i..j][1..];
      SkipSpaceExact(s, i + 1, j);
    }
  }

  /** A token assembled from a number, whitespace and a unit in place. */
  lemma TokenIntro(s: string, i: nat, n: nat, m: nat)
    requires i < n <= m && m + 2 <= |s|
    requires IsNumber(s[i..n]) && AllSpace(s[n..m]) && IsUnit(s[m..m + 2])
    ensures MatchesAt(s, i, m + 2)
  {
    var w := s[i..m + 2];
    assert |w| - 2 == m - i;
    assert w[..n - i] == s[i..n];
    forall k | 0 <= k < m - n ensures w[n - i..m - i][k] == s[n..m][k] {
      assert w[n - i..m - i][k] == w[n - i + k] == s[n + k];
    }
    assert w[n - i..|w| - 2] == s[n..m];
    assert w[|w| - 2..] == s[m..m + 2];
  }

  lemma SliceOfSlice(s: string, i: nat, e: nat, a: nat, b: nat)
    requires i <= e <= |s| && a <= b <= e - i
    ensures s[i..e][a..b] == s[i + a..i + b]
  {
    forall k | 0 <= k < b - a ensures s[i..e][a..b][k] == s[i + a..i + b][k] {
      assert s[i..e][a..b][k] == s[i..e][a + k] == s[i + a + k];
    }
  }

  /** A match split back into its number, whitespace and unit in place. */
  lemma TokenElim(s: string, i: nat, e: nat) returns (n: nat)
    requires MatchesAt(s, i, e)
    ensures i < n <= e - 2
    ensures IsNumber(s[i..n]) && AllSpace(s[n..e - 2]) && IsUnit(s[e - 2..e])
  {
    var w := s[i..e];
    var d :| 0 < d <= |w| - 2 && IsNumber(w[..d]) && AllSpace(w[d..|w| - 2]) && IsUnit(w[|w| - 2..]);
    n := i + d;
    assert w[..d] == s[i..n];
    SliceOfSlice(s, i, e, d, |w| - 2);
    assert w[|w| - 2..] == s[e - 2..e];
  }

  lemma NumberIntro(s: string, i: nat, j: nat, k: nat)
    requires i < j <= k <= |s| && AllDigits(s[i..j])
    requires j == k || (j + 1 < k && s[j] == '.' && AllDigits(s[j + 1..k]))
    ensures IsNumber(s[i..k])
  {
    if j < k {
      var x := s[i..k];
      assert x[..j - i] == s[i..j];
      assert x[j - i + 1..] == s[j + 1..k];
      assert x[j - i] == '.';
    }
  }

  /** A number is a digit run, possibly followed by `.` and a second run. */
  lemma NumberElim(s: string, i: nat, k: nat) returns (j: nat)
    requires i <= k <= |s| && IsNumber(s[i..k])
    ensures i < j <= k && AllDigits(s[i..j])
    ensures j == k || (j + 1 < k && s[j] == '.' && AllDigits(s[j + 1..k]))
  {
    var x := s[i..k];
    if x != [] && AllDigits(x) {
      j := k;
    } else {
      var p :| 0 < p < |x| - 1 && x[p] == '.' && AllDigits(x[..p]) && AllDigits(x[p + 1..]);
      j := i + p;
      assert x[..p] == s[i..j];
      assert x[p + 1..] == s[j + 1..k];
      assert s[j] == x[p];
    }
  }

  /** What the engine finds is a match of the pattern. */
  lemma MatchAtSound(s: string, i: nat, e: nat)
    requires i <= |s| && MatchAt(s, i) == Some(e)
    ensures MatchesAt(s, i, e)
  {
    var j := SkipDigits(s, i);
    var frac := j + 1 < |s| && s[j] == '.' && IsDigit(s[j + 1]);
    var k := if frac then SkipDigits(s, j + 1) else j;
    var m := SkipSpace(s, k);
    assert e == m + 2;
    NumberIntro(s, i, j, k);
    TokenIntro(s, i, k, m);
  }

  /** After a number come spaces and then a unit: no digit and no `.`
      follows the number, and the spaces end where the unit starts. */
  lemma AfterNumber(s: string, n: nat, m: nat)
    requires n <= m && m + 2 <= |s| && AllSpace(s[n..m]) && IsUnit(s[m..m + 2])
    ensures !IsDigit(s[n]) && s[n] != '.' && !IsSpace(s[m])
  {
    var c := s[m];
    assert IsG(c) || IsM(c) || IsK(c) by { assert c == s[m..m + 2][0]; }
    SpaceIsNoTokenChar(c);
    if n < m {
      assert IsSpace(s[n]) by { assert s[n] == s[n..m][0]; }
      SpaceIsNoTokenChar(s[n]);
    }
  }

  /** Every match of the pattern that starts at `i` is the one the engine
      finds there, so a start position has at most one match. */
  lemma MatchAtComplete(s: string, i: nat, e: nat)
    requires MatchesAt(s, i, e)
    ensures MatchAt(s, i) == Some(e)
  {
    var n := TokenElim(s, i, e);
    var j := NumberElim(s, i, n);
    EngineFollowsToken(s, i, j, n, e - 2);
  }

  /** From the pieces of a token in place, the engine takes the digit
      runs, then the whitespace, then the unit. */
  lemma EngineFollowsToken(s: string, i: nat, j: nat, n: nat, m: nat)
    requires i < j <= n <= m && m + 2 <= |s| && AllDigits(s[i..j])
    requires j == n || (j + 1 < n && s[j] == '.' && AllDigits(s[j + 1..n]))
    requires AllSpace(s[n..m]) && IsUnit(s[m..m + 2])
    ensures MatchAt(s, i) == Some(m + 2)
  {
    AfterNumber(s, n, m);
    GreedyNumber(s, i, j, n);
    SkipSpaceExact(s, n, m);
  }

  /** The greedy digit runs stop exactly where a number followed by a
      character that is neither a digit nor `.` ends. */
  lemma GreedyNumber(s: string, i: nat, j: nat, n: nat)
    requires i < j <= n < |s| && AllDigits(s[i..j])
    requires j == n || (j + 1 < n && s[j] == '.' && AllDigits(s[j + 1..n]))
    requires !IsDigit(s[n]) && s[n] != '.'
    ensures SkipDigits(s, i) == j
    ensures (if j + 1 < |s| && s[j] == '.' && IsDigit(s[j + 1]) then SkipDigits(s, j + 1) else j) == n
  {
    if j < n {
      assert s[j + 1] == s[j + 1..n][0];
      SkipDigitsExact(s, j + 1, n);
    }
    SkipDigitsExact(s, i, j);
  }

  /** The regex engine's backtracking shows in "1.2.3GB": the attempt at
      `1` fails once `1.2` is followed by `.`, and the match starts at `2`. */
  lemma LeftmostMatchSkipsFailedStart()
    ensures ExtractSize("1.2.3GB") == "2.3GB"
  {
    var s := "1.2.3GB";
    assert s[1] == '.' && s[3] == '.' && s[5] == 'G';
    assert SkipDigits(s, 0) == 1 by { SkipDigitsExact(s, 0, 1); }
    assert SkipDigits(s, 1) == 1;
    assert SkipDigits(s, 2) == 3 by { SkipDigitsExact(s, 2, 3); }
    assert SkipDigits(s, 4) == 5 by { SkipDigitsExact(s, 4, 5); }
    assert SkipSpace(s, 3) == 3 by { SpaceIsNoTokenChar(s[3]); }
    assert SkipSpace(s, 5) == 5 by { SpaceIsNoTokenChar(s[5]); }
    assert !IsUnit(s[3..5]) by { assert s[3..5][0] == '.'; }
    assert IsUnit(s[5..7]) by { assert s[5..7] == "GB"; }
    assert MatchAt(s, 0) == None;
    assert MatchAt(s, 1) == None;
    assert MatchAt(s, 2) == Some(7);
    assert Search(s, 2) == Some((2, 7));
    assert Search(s, 1) == Some((2, 7));
    assert Search(s, 0) == Some((2, 7));
    assert s[2..7] == "2.3GB";
  }
}
