/**
 * The editor's text helpers: the character and word counters, the Tab-key
 * indentation, the document name derived from the title, and the buckets of
 * the "saved ... ago" label.
 */
module EditorText {
  import opened JsString

  /** What the status bar shows for the editor's text. */
  datatype Counts = Counts(chars: nat, words: nat)

  /** The word count as the editor computes it: 0 for blank text, else the pieces of the trimmed text split on whitespace. */
  function WordCount(text: string): nat {
    var t := Trim(text);
    if t == "" then 0 else |Split(t)|
  }

  /** The editor's word count is the number of maximal non-whitespace runs of the text. */
  lemma WordCountIsWords(text: string)
    ensures WordCount(text) == Words(text)
    ensures WordCount(text) == 0 <==> AllSpace(text)
  {
    var t := Trim(text);
    TrimKeepsWords(text);
    if t == "" {
      assert text[..|text|] == text;
      RunsAfterSpaces(text, |text|, false);
      assert text[|text|..] == [];
    } else {
      SplitCountsWords(t);
      assert t[..1] == [t[0]];
      RunsAfterWord(t, 1, false);
    }
  }

  /** `updateCounts`: the character count is the length of the text, the word count its number of words. */
  function UpdateCounts(text: string): (r: Counts)
    ensures r.chars == |text|
    ensures r.words == Words(text)
    ensures r.words == 0 <==> AllSpace(text)
  {
    WordCountIsWords(text);
    Counts(|text|, WordCount(text))
  }

  /** The editor's text and caret after an edit (the selection collapsed to one position). */
  datatype Edit = Edit(text: string, caret: nat)

  const Indent := "    "

  /** Tab key: the selection `[start, end)` is replaced by four spaces and the caret is put after them. */
  function InsertTab(text: string, start: nat, end: nat): (r: Edit)
    requires start <= end <= |text|
    ensures |r.text| == |text| - (end - start) + 4
    ensures r.caret == start + 4 <= |r.text|
    ensures r.text[..start] == text[..start]
    ensures r.text[start..r.caret] == Indent
    ensures r.text[r.caret..] == text[end..]
  {
    Edit(text[..start] + Indent + text[end..], start + 4)
  }

  /** `s` without the characters in `[from, to)`. */
  function Delete(s: string, from: nat, to: nat): string
    requires from <= to <= |s|
  {
    s[..from] + s[to..]
  }

  /** Removing the inserted indentation leaves the text with its selection deleted; with no selection, the text as it was. */
  lemma InsertTabUndo(text: string, start: nat, end: nat)
    requires start <= end <= |text|
    ensures Delete(InsertTab(text, start, end).text, start, start + 4) == Delete(text, start, end)
    ensures start == end ==> Delete(InsertTab(text, start, end).text, start, start + 4) == text
  {
    var r := InsertTab(text, start, end);
    assert r.text[..start] + r.text[start + 4..] == text[..start] + text[end..];
    if start == end {
      assert text[..start] + text[start..] == text;
    }
  }

  /** `s.replace(/\s+/g, sep)`: every maximal whitespace run becomes one `sep`. */
  function ReplaceSpaceRuns(s: string, sep: char): (r: string)
    requires !IsSpace(sep)
    ensures |r| <= |s|
    decreases |s|
  {
    if |s| == 0 then ""
    else if IsSpace(s[0]) then [sep] + ReplaceSpaceRuns(s[SpaceRunEnd(s, 0)..], sep)
    else [s[0]] + ReplaceSpaceRuns(s[1..], sep)
  }

  /** After the replacement no whitespace is left, and text without whitespace is unchanged. */
  lemma {:induction false} ReplaceLeavesNoSpace(s: string, sep: char)
    requires !IsSpace(sep)
    ensures NoSpace(ReplaceSpaceRuns(s, sep))
    ensures NoSpace(s) ==> ReplaceSpaceRuns(s, sep) == s
    decreases |s|
  {
    if |s| > 0 {
      if IsSpace(s[0]) {
        ReplaceLeavesNoSpace(s[SpaceRunEnd(s, 0)..], sep);
      } else {
        ReplaceLeavesNoSpace(s[1..], sep);
        assert NoSpace(s) ==> NoSpace(s[1..]);
      }
    }
  }

  /** A prefix without whitespace is copied unchanged. */
  lemma {:induction false} ReplaceAfterWord(s: string, i: nat, sep: char)
    requires !IsSpace(sep)
    requires i <= |s| && forall k :: 0 <= k < i ==> !IsSpace(s[k])
    ensures ReplaceSpaceRuns(s, sep) == s[..i] + ReplaceSpaceRuns(s[i..], sep)
    decreases i
  {
    if i == 0 {
      assert s[i..] == s;
    } else {
      var t := s[1..];
      calc {
        ReplaceSpaceRuns(s, sep);
        { assert !IsSpace(s[0]); }
        [s[0]] + ReplaceSpaceRuns(t, sep);
        { assert forall k :: 0 <= k < i - 1 ==> t[k] == s[k + 1];
          ReplaceAfterWord(t, i - 1, sep);
          assert t[i - 1..] == s[i..]; }
        [s[0]] + (t[..i - 1] + ReplaceSpaceRuns(s[i..], sep));
        { assert s[..i] == [s[0]] + t[..i - 1]; }
        s[..i] + ReplaceSpaceRuns(s[i..], sep);
      }
    }
  }

  /** A whitespace run becomes one `sep`, and the text after the run follows it. */
  lemma ReplaceAtSpace(s: string, i: nat, sep: char)
    requires !IsSpace(sep)
    requires i < |s| && IsSpace(s[i])
    ensures ReplaceSpaceRuns(s[i..], sep) == [sep] + ReplaceSpaceRuns(s[SpaceRunEnd(s, i)..], sep)
  {
    var u := s[i..];
    var j := SpaceRunEnd(s, i);
    calc {
      ReplaceSpaceRuns(u, sep);
      { assert u[0] == s[i]; }
      [sep] + ReplaceSpaceRuns(u[SpaceRunEnd(u, 0)..], sep);
      { SpaceRunEndShift(s, i);
        assert u[j - i..] == s[j..]; }
      [sep] + ReplaceSpaceRuns(s[j..], sep);
    }
  }

  /** Up to the first whitespace run, the text is copied; the run becomes `sep`. */
  lemma ReplaceHead(s: string, sep: char)
    requires !IsSpace(sep)
    requires FirstSpace(s) < |s|
    ensures var i := FirstSpace(s);
      ReplaceSpaceRuns(s, sep) == s[..i] + [sep] + ReplaceSpaceRuns(s[SpaceRunEnd(s, i)..], sep)
  {
    var i := FirstSpace(s);
    assert forall k :: 0 <= k < i ==> s[k] == s[..i][k];
    ReplaceAfterWord(s, i, sep);
    ReplaceAtSpace(s, i, sep);
  }

  /** Joining the pieces: the first piece, `sep`, then the other pieces joined. */
  lemma JoinSplitHead(s: string, sep: char)
    requires FirstSpace(s) < |s|
    ensures var i := FirstSpace(s);
      Join(Split(s), sep) == s[..i] + [sep] + Join(Split(s[SpaceRunEnd(s, i)..]), sep)
  {
    var i := FirstSpace(s);
    var rest := Split(s[SpaceRunEnd(s, i)..]);
    assert Split(s) == [s[..i]] + rest;
    assert ([s[..i]] + rest)[1..] == rest;
  }

  /**
   * Replacing every whitespace run by `sep` is splitting at the runs and
   * joining the pieces with `sep`.
   */
  lemma {:induction false} ReplaceIsSplitJoin(s: string, sep: char)
    requires !IsSpace(sep)
    ensures ReplaceSpaceRuns(s, sep) == Join(Split(s), sep)
    decreases |s|
  {
    var i := FirstSpace(s);
    if i == |s| {
      assert s[..|s|] == s;
      ReplaceLeavesNoSpace(s, sep);
    } else {
      ReplaceIsSplitJoin(s[SpaceRunEnd(s, i)..], sep);
      ReplaceHead(s, sep);
      JoinSplitHead(s, sep);
    }
  }

  const UntitledTitle := "Untitled Document"

  /** The document name the title input derives: the trimmed title (or the default title), lower-cased, whitespace runs turned into `_`. */
  function DocName(title: string): (r: string)
    ensures r != ""
    ensures NoSpace(r)
    ensures forall i :: 0 <= i < |r| ==> !IsUpper(r[i])
  {
    var t := Trim(title);
    var named := if t == "" then UntitledTitle else t;
    SlugShape(named);
    ReplaceSpaceRuns(ToLowerCase(named), '_')
  }

  /** Lower-casing a non-empty text and turning its whitespace runs into `_` leaves a non-empty text with no whitespace and no upper-case letter. */
  lemma SlugShape(named: string)
    requires named != ""
    ensures var r := ReplaceSpaceRuns(ToLowerCase(named), '_');
      r != "" && NoSpace(r) && forall i :: 0 <= i < |r| ==> !IsUpper(r[i])
  {
    var lower := ToLowerCase(named);
    ToLowerCaseProperties(named);
    ReplaceKeepsLower(lower, '_');
    ReplaceLeavesNoSpace(lower, '_');
  }

  lemma {:induction false} ReplaceKeepsLower(s: string, sep: char)
    requires !IsSpace(sep) && !IsUpper(sep)
    requires forall i :: 0 <= i < |s| ==> !IsUpper(s[i])
    ensures forall i :: 0 <= i < |ReplaceSpaceRuns(s, sep)| ==> !IsUpper(ReplaceSpaceRuns(s, sep)[i])
    ensures |s| > 0 ==> |ReplaceSpaceRuns(s, sep)| > 0
    decreases |s|
  {
    if |s| > 0 {
      if IsSpace(s[0]) {
        ReplaceKeepsLower(s[SpaceRunEnd(s, 0)..], sep);
      } else {
        ReplaceKeepsLower(s[1..], sep);
      }
    }
  }

  /** The document name is never longer than the trimmed title, or than the default title when the trimmed title is empty. */
  lemma DocNameLength(title: string)
    ensures |DocName(title)| <= if Trim(title) == "" then |UntitledTitle| else |Trim(title)|
  {
    var t := Trim(title);
    var named := if t == "" then UntitledTitle else t;
    assert |ReplaceSpaceRuns(ToLowerCase(named), '_')| <= |named|;
  }

  /**
   * The document name is the words of the lower-cased trimmed title (or of
   * the default title) joined with `_`: one non-empty piece per word.
   */
  lemma DocNameJoinsWords(title: string)
    ensures var t := Trim(title);
      var lower := ToLowerCase(if t == "" then UntitledTitle else t);
      && DocName(title) == Join(Split(lower), '_')
      && |Split(lower)| == Words(lower)
      && forall k :: 0 <= k < |Split(lower)| ==> Split(lower)[k] != ""
  {
    if Trim(title) == "" {
      LowerJoinsWords(UntitledTitle);
    } else {
      LowerJoinsWords(Trim(title));
    }
  }

  lemma LowerJoinsWords(named: string)
    requires |named| > 0 && !IsSpace(named[0]) && !IsSpace(named[|named| - 1])
    ensures var lower := ToLowerCase(named);
      && ReplaceSpaceRuns(lower, '_') == Join(Split(lower), '_')
      && |Split(lower)| == Words(lower)
      && forall k :: 0 <= k < |Split(lower)| ==> Split(lower)[k] != ""
  {
    var lower := ToLowerCase(named);
    ToLowerCharProperties(named[0]);
    ToLowerCharProperties(named[|named| - 1]);
    ReplaceIsSplitJoin(lower, '_');
    SplitCountsWords(lower);
  }

  /** Deriving the document name again from a document name changes nothing. */
  lemma DocNameIdempotent(title: string)
    ensures DocName(DocName(title)) == DocName(title)
  {
    var d := DocName(title);
    assert Trim(d) == d by {
      assert !IsSpace(d[0]) && !IsSpace(d[|d| - 1]);
      TrimKeepsTrimmed(d);
    }
    calc {
      DocName(d);
      ReplaceSpaceRuns(ToLowerCase(d), '_');
      { ToLowerCaseProperties(d); }
      ReplaceSpaceRuns(d, '_');
      { ReplaceLeavesNoSpace(d, '_'); }
      d;
    }
  }

  /** The label `formatTime` picks for a save that is `diff` whole seconds old. */
  datatype Age = JustNow | MinutesAgo(minutes: nat) | HoursAgo(hours: nat) | OnDate

  /** Whole seconds between two millisecond timestamps, rounded down. */
  function ElapsedSeconds(nowMs: int, savedMs: int): (r: int)
    ensures r * 1000 <= nowMs - savedMs < r * 1000 + 1000
  {
    (nowMs - savedMs) / 1000
  }

  function FormatAge(diff: int): (r: Age)
    ensures r == JustNow <==> diff < 60
    ensures r.MinutesAgo? <==> 60 <= diff < 3600
    ensures r.MinutesAgo? ==> 1 <= r.minutes < 60 && r.minutes * 60 <= diff < r.minutes * 60 + 60
    ensures r.HoursAgo? <==> 3600 <= diff < 86400
    ensures r.HoursAgo? ==> 1 <= r.hours < 24 && r.hours * 3600 <= diff < r.hours * 3600 + 3600
    ensures r == OnDate <==> diff >= 86400
  {
    if diff < 60 then JustNow
    else if diff < 3600 then MinutesAgo(diff / 60)
    else if diff < 86400 then HoursAgo(diff / 3600)
    else OnDate
  }

  /** Least age in seconds a label stands for. */
  function AgeLowerBound(a: Age): int {
    match a
    case JustNow => 0
    case MinutesAgo(m) => m * 60
    case HoursAgo(h) => h * 3600
    case OnDate => 86400
  }

  /** An older save never gets a label that reads as more recent. */
  lemma FormatAgeMonotonic(d1: int, d2: int)
    requires 0 <= d1 <= d2
    ensures AgeLowerBound(FormatAge(d1)) <= AgeLowerBound(FormatAge(d2))
  {
    var a1, a2 := FormatAge(d1), FormatAge(d2);
    if a1.MinutesAgo? && a2.MinutesAgo? {
      assert a1.minutes * 60 <= d1 <= d2 < a2.minutes * 60 + 60;
    } else if a1.HoursAgo? && a2.HoursAgo? {
      assert a1.hours * 3600 <= d1 <= d2 < a2.hours * 3600 + 3600;
    }
  }
}
