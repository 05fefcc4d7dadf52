/**
 * The JavaScript string built-ins the editor and the server rely on:
 * the whitespace class shared by `\s` and `String.prototype.trim`, `trim`,
 * `split(/\s+/)`, `toLowerCase`, `endsWith`, `indexOf` and the string form of
 * a non-negative integer.
 */
module JsString {
  import opened Wrappers

  /** A character of JavaScript's WhiteSpace or LineTerminator set: what `\s` matches and `trim` strips. */
  predicate IsSpace(c: char) {
    c == '\t' || c == '\n' || c == '\U{B}' || c == '\U{C}' || c == '\r' || c == ' '
    || c == '\U{A0}' || c == '\U{1680}' || ('\U{2000}' <= c <= '\U{200A}')
    || c == '\U{2028}' || c == '\U{2029}' || c == '\U{202F}' || c == '\U{205F}'
    || c == '\U{3000}' || c == '\U{FEFF}'
  }

  predicate NoSpace(s: string) {
    forall i :: 0 <= i < |s| ==> !IsSpace(s[i])
  }

  predicate AllSpace(s: string) {
    forall i :: 0 <= i < |s| ==> IsSpace(s[i])
  }

  /** Number of whitespace characters at the start of `s`. */
  function LeadingSpaces(s: string): (n: nat)
    ensures n <= |s| && AllSpace(s[..n])
    ensures n < |s| ==> !IsSpace(s[n])
  {
    if |s| > 0 && IsSpace(s[0]) then
      var m := LeadingSpaces(s[1..]);
      assert s[..m + 1] == [s[0]] + s[1..][..m];
      m + 1
    else 0
  }

  /** Where the whitespace at the end of `s` begins. */
  function TrailingStart(s: string): (n: nat)
    ensures n <= |s| && AllSpace(s[n..])
    ensures n > 0 ==> !IsSpace(s[n - 1])
  {
    if |s| > 0 && IsSpace(s[|s| - 1]) then
      var n := TrailingStart(s[..|s| - 1]);
      assert s[n..] == s[..|s| - 1][n..] + [s[|s| - 1]];
      n
    else |s|
  }

  /** `String.prototype.trim`: `s` without its leading and trailing whitespace. */
  function Trim(s: string): (r: string)
    ensures r == [] <==> AllSpace(s)
    ensures r != [] ==> !IsSpace(r[0]) && !IsSpace(r[|r| - 1])
    ensures |r| <= |s|
  {
    var a := LeadingSpaces(s);
    var b := a + TrailingStart(s[a..]);
    assert a < |s| ==> b > a;
    assert a == |s| ==> s[..a] == s;
    s[a..b]
  }

  /** What `trim` removes is whitespace: the result is the text between an all-whitespace prefix and an all-whitespace suffix. */
  lemma TrimIsSlice(s: string)
    ensures exists a, b :: 0 <= a <= b <= |s| && Trim(s) == s[a..b] && AllSpace(s[..a]) && AllSpace(s[b..])
  {
    var a := LeadingSpaces(s);
    var b := a + TrailingStart(s[a..]);
    assert Trim(s) == s[a..b];
    assert s[a..][b - a..] == s[b..];
    assert AllSpace(s[b..]);
  }

  /** Index of the first whitespace character of `s`, or `|s|` when there is none. */
  function FirstSpace(s: string): (i: nat)
    ensures i <= |s| && NoSpace(s[..i])
    ensures i < |s| ==> IsSpace(s[i])
  {
    if |s| == 0 || IsSpace(s[0]) then 0 else 1 + FirstSpace(s[1..])
  }

  /** End of the whitespace run that starts at `i`. */
  function SpaceRunEnd(s: string, i: nat): (j: nat)
    requires i <= |s|
    ensures i <= j <= |s| && AllSpace(s[i..j])
    ensures j < |s| ==> !IsSpace(s[j])
    decreases |s| - i
  {
    if i < |s| && IsSpace(s[i]) then SpaceRunEnd(s, i + 1) else i
  }

  /** Text that neither starts nor ends with whitespace is its own trim. */
  lemma TrimKeepsTrimmed(s: string)
    requires |s| > 0 && !IsSpace(s[0]) && !IsSpace(s[|s| - 1])
    ensures Trim(s) == s
  {
    assert LeadingSpaces(s) == 0;
    assert s[0..] == s;
    assert TrailingStart(s) == |s|;
  }

  /** The end of a whitespace run is the one place where the run stops. */
  lemma SpaceRunEndUnique(s: string, i: nat, j: nat)
    requires i <= j <= |s| && AllSpace(s[i..j])
    requires j < |s| ==> !IsSpace(s[j])
    ensures SpaceRunEnd(s, i) == j
  {
  }

  /** A whitespace run ends at the same character when the text before it is cut off. */
  lemma SpaceRunEndShift(s: string, i: nat)
    requires i <= |s|
    ensures SpaceRunEnd(s, i) == i + SpaceRunEnd(s[i..], 0)
  {
    var u := s[i..];
    var m := SpaceRunEnd(u, 0);
    assert AllSpace(u[0..m]);
    forall k | i <= k < i + m ensures IsSpace(s[k]) {
      assert s[k] == u[0..m][k - i];
    }
    assert AllSpace(s[i..i + m]);
    assert i + m < |s| ==> !IsSpace(s[i + m]) by {
      if i + m < |s| { assert u[m] == s[i + m]; }
    }
    SpaceRunEndUnique(s, i, i + m);
  }

  /**
   * `s.split(/\s+/)`: the pieces between maximal whitespace runs, including
   * the empty piece before a leading run and after a trailing one.
   */
  function Split(s: string): (pieces: seq<string>)
    ensures |pieces| >= 1
    ensures forall k :: 0 <= k < |pieces| ==> NoSpace(pieces[k])
    decreases |s|
  {
    var i := FirstSpace(s);
    if i == |s| then [s]
    else
      var j := SpaceRunEnd(s, i);
      [s[..i]] + Split(s[j..])
  }

  /** The pieces joined with `sep` between neighbours, as `pieces.join(sep)` does. */
  function Join(pieces: seq<string>, sep: char): string
    requires |pieces| >= 1
  {
    if |pieces| == 1 then pieces[0] else pieces[0] + [sep] + Join(pieces[1..], sep)
  }

  /**
   * Number of maximal runs of non-whitespace characters in `s`; `inRun` says
   * whether the character just before `s` belongs to such a run.
   */
  function RunsFrom(s: string, inRun: bool): nat
  {
    if |s| == 0 then 0
    else if IsSpace(s[0]) then RunsFrom(s[1..], false)
    else (if inRun then 0 else 1) + RunsFrom(s[1..], true)
  }

  /** Number of words of `s`: its maximal runs of non-whitespace characters. */
  function Words(s: string): nat {
    RunsFrom(s, false)
  }

  /** A whitespace prefix ends any run that was open before it. */
  lemma {:induction false} RunsAfterSpaces(s: string, n: nat, inRun: bool)
    requires n <= |s| && AllSpace(s[..n])
    requires n > 0 || !inRun
    ensures RunsFrom(s, inRun) == RunsFrom(s[n..], false)
    decreases n
  {
    if n > 0 {
      assert IsSpace(s[..n][0]);
      assert s[1..][..n - 1] == s[..n][1..];
      RunsAfterSpaces(s[1..], n - 1, false);
      assert s[1..][n - 1..] == s[n..];
    }
  }

  /** A non-empty run of non-whitespace characters counts once, unless it continues an open run. */
  lemma {:induction false} RunsAfterWord(s: string, n: nat, inRun: bool)
    requires 0 < n <= |s| && NoSpace(s[..n])
    ensures RunsFrom(s, inRun) == (if inRun then 0 else 1) + RunsFrom(s[n..], true)
    decreases n
  {
    assert !IsSpace(s[..n][0]);
    if n > 1 {
      assert s[1..][..n - 1] == s[..n][1..];
      RunsAfterWord(s[1..], n - 1, true);
      assert s[1..][n - 1..] == s[n..];
    }
  }

  /** Trailing whitespace adds no word. */
  lemma {:induction false} RunsIgnoreTrailingSpaces(t: string, tail: string, inRun: bool)
    requires AllSpace(tail)
    ensures RunsFrom(t + tail, inRun) == RunsFrom(t, inRun)
    decreases |t|
  {
    if |t| == 0 {
      assert t + tail == tail;
      RunsAfterSpaces(tail, |tail|, false);
      if |tail| > 0 { RunsAfterSpaces(tail, |tail|, inRun); }
    } else {
      assert (t + tail)[1..] == t[1..] + tail;
      RunsIgnoreTrailingSpaces(t[1..], tail, false);
      RunsIgnoreTrailingSpaces(t[1..], tail, true);
    }
  }

  /** Trimming does not change the number of words. */
  lemma TrimKeepsWords(s: string)
    ensures Words(Trim(s)) == Words(s)
  {
    var a := LeadingSpaces(s);
    var b := a + TrailingStart(s[a..]);
    RunsAfterSpaces(s, a, false);
    assert s[a..] == s[a..b] + s[a..][b - a..];
    RunsIgnoreTrailingSpaces(s[a..b], s[a..][b - a..], false);
  }

  /**
   * On a string that starts and ends with a non-whitespace character,
   * `split(/\s+/)` yields exactly one piece per word.
   */
  lemma {:induction false} SplitCountsWords(t: string)
    requires |t| > 0 && !IsSpace(t[0]) && !IsSpace(t[|t| - 1])
    ensures |Split(t)| == Words(t)
    ensures forall k :: 0 <= k < |Split(t)| ==> Split(t)[k] != ""
    decreases |t|
  {
    var i := FirstSpace(t);
    if i == |t| {
      RunsAfterWord(t, |t|, false);
    } else {
      var j := SpaceRunEnd(t, i);
      assert i > 0;
      assert j < |t|;
      RunsAfterWord(t, i, false);
      var u := t[i..];
      assert u[..j - i] == t[i..j];
      RunsAfterSpaces(u, j - i, true);
      assert u[j - i..] == t[j..];
      SplitCountsWords(t[j..]);
      assert Split(t) == [t[..i]] + Split(t[j..]);
    }
  }

  /** `String.prototype.toLowerCase` on the ASCII letters; other characters are kept. */
  function ToLowerChar(c: char): char {
    if 'A' <= c <= 'Z' then (c as int + 32) as char else c
  }

  predicate IsUpper(c: char) {
    'A' <= c <= 'Z'
  }

  function ToLowerCase(s: string): (r: string)
    ensures |r| == |s|
    ensures forall i :: 0 <= i < |s| ==> r[i] == ToLowerChar(s[i])
  {
    if |s| == 0 then "" else [ToLowerChar(s[0])] + ToLowerCase(s[1..])
  }

  /** Lower-casing leaves no upper-case letter, keeps whitespace where it was, and changes nothing in text without upper-case letters. */
  lemma ToLowerCaseProperties(s: string)
    ensures forall i :: 0 <= i < |s| ==> !IsUpper(ToLowerCase(s)[i]) && (IsSpace(ToLowerCase(s)[i]) <==> IsSpace(s[i]))
    ensures (forall i :: 0 <= i < |s| ==> !IsUpper(s[i])) ==> ToLowerCase(s) == s
  {
    var r := ToLowerCase(s);
    forall i | 0 <= i < |s|
      ensures !IsUpper(r[i]) && (IsSpace(r[i]) <==> IsSpace(s[i])) && (!IsUpper(s[i]) ==> r[i] == s[i])
    {
      ToLowerCharProperties(s[i]);
    }
  }

  lemma ToLowerCharProperties(c: char)
    ensures !IsUpper(ToLowerChar(c))
    ensures IsSpace(ToLowerChar(c)) <==> IsSpace(c)
    ensures !IsUpper(c) ==> ToLowerChar(c) == c
  {
    if IsUpper(c) {
      assert 'a' <= ToLowerChar(c) <= 'z';
    }
  }

  predicate IsDigit(c: char) {
    '0' <= c <= '9'
  }

  /** The decimal numeral JavaScript prints for a non-negative integer. */
  function Decimal(n: nat): (r: string)
    ensures |r| >= 1 && forall i :: 0 <= i < |r| ==> IsDigit(r[i])
    ensures |r| > 1 ==> r[0] != '0'
  {
    if n < 10 then [('0' as int + n) as char]
    else Decimal(n / 10) + [('0' as int + n % 10) as char]
  }

  /** Value of a numeral; inverts `Decimal`. */
  function DigitsValue(s: string): int
  {
    if |s| == 0 then 0 else DigitsValue(s[..|s| - 1]) * 10 + (s[|s| - 1] as int - '0' as int)
  }

  lemma {:induction false} DecimalRoundTrip(n: nat)
    ensures DigitsValue(Decimal(n)) == n
    decreases n
  {
    if n >= 10 {
      DecimalRoundTrip(n / 10);
      var d := Decimal(n / 10);
      assert (d + [('0' as int + n % 10) as char])[..|d|] == d;
    }
  }

  predicate EndsWith(s: string, suffix: string) {
    |suffix| <= |s| && s[|s| - |suffix|..] == suffix
  }

  predicate OccursAt(s: string, pat: string, k: int) {
    0 <= k && k + |pat| <= |s| && s[k..k + |pat|] == pat
  }

  /** `s.indexOf(pat, from)`: the first occurrence of `pat` at or after `from`. */
  function IndexOf(s: string, pat: string, from: nat): (r: Option<nat>)
    ensures r.None? ==> forall k :: from <= k ==> !OccursAt(s, pat, k)
    ensures r.Some? ==> from <= r.value && OccursAt(s, pat, r.value)
    ensures r.Some? ==> forall k :: from <= k < r.value ==> !OccursAt(s, pat, k)
    decreases |s| - from
  {
    if from + |pat| > |s| then None
    else if s[from..from + |pat|] == pat then Some(from)
    else IndexOf(s, pat, from + 1)
  }

  /** `pat` occurs at `k` and at no earlier position. */
  predicate FirstOccurrence(s: string, pat: string, k: int) {
    OccursAt(s, pat, k) && forall j :: 0 <= j < k ==> !OccursAt(s, pat, j)
  }

  ghost predicate OccursNowhere(s: string, pat: string) {
    forall k :: !OccursAt(s, pat, k)
  }

  /** `s.replace(pat, with)` with a string pattern: only the first occurrence is replaced. */
  function ReplaceFirst(s: string, pat: string, with: string): (r: string)
    ensures OccursNowhere(s, pat) ==> r == s
    ensures forall k :: FirstOccurrence(s, pat, k) ==> r == s[..k] + with + s[k + |pat|..]
  {
    match IndexOf(s, pat, 0)
    case None => s
    case Some(k) => s[..k] + with + s[k + |pat|..]
  }
}
