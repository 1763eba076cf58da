/**
 * The trimming, padding, splitting and replacing helpers of StringUtil.
 * A Java `null` string is `None`.
 */
module StringUtil {
  import opened Text

  // ---------------------------------------------------------------------
  // Stripping the characters at or below U+0020.
  // ---------------------------------------------------------------------

  /** What `removeRightSpace` and `String.trim` take off the end: a character at or below U+0020. */
  predicate IsTrimmed(c: char)
  {
    c <= ' '
  }

  /** `s` without its trailing run of characters at or below U+0020. */
  function RightStrip(s: string): (r: string)
    ensures r <= s
    ensures r == [] || !IsTrimmed(r[|r| - 1])
  {
    if s == [] || !IsTrimmed(s[|s| - 1]) then s
    else RightStrip(s[..|s| - 1])
  }

  /** Everything `RightStrip` takes off is at or below U+0020. */
  lemma {:induction false} RightStripRemovesBlanks(s: string)
    ensures forall k :: |RightStrip(s)| <= k < |s| ==> IsTrimmed(s[k])
  {
    if s != [] && IsTrimmed(s[|s| - 1]) {
      RightStripRemovesBlanks(s[..|s| - 1]);
    }
  }

  /** `s` without its leading run of characters at or below U+0020. */
  function LeftStrip(s: string): (r: string)
    ensures |r| <= |s| && r == s[|s| - |r|..]
    ensures r == [] || !IsTrimmed(r[0])
  {
    if s == [] || !IsTrimmed(s[0]) then s
    else LeftStrip(s[1..])
  }

  /** Everything `LeftStrip` takes off is at or below U+0020. */
  lemma {:induction false} LeftStripRemovesBlanks(s: string)
    ensures forall k :: 0 <= k < |s| - |LeftStrip(s)| ==> IsTrimmed(s[k])
  {
    if s != [] && IsTrimmed(s[0]) {
      LeftStripRemovesBlanks(s[1..]);
    }
  }

  /** `String.trim`: both runs taken off. */
  function Trim(s: string): (r: string)
    ensures r == [] || (!IsTrimmed(r[0]) && !IsTrimmed(r[|r| - 1]))
  {
    LeftStrip(RightStrip(s))
  }

  /**
   * `Trim(s)` is `s[i..i + |Trim(s)|]` for the returned `i`, with only
   * characters at or below U+0020 on either side of it.
   */
  lemma TrimIsInfix(s: string) returns (i: nat)
    ensures i + |Trim(s)| <= |s| && Trim(s) == s[i..i + |Trim(s)|]
    ensures forall k :: 0 <= k < i ==> IsTrimmed(s[k])
    ensures forall k :: i + |Trim(s)| <= k < |s| ==> IsTrimmed(s[k])
  {
    var t := Trim(s);
    var e := |RightStrip(s)|;
    TrimSits(s);
    TrimLeftBlanks(s);
    RightStripRemovesBlanks(s);
    i := e - |t|;
    assert i + |t| == e;
  }

  /** The trimmed text is the tail of the right-stripped text. */
  lemma TrimSits(s: string)
    ensures |Trim(s)| <= |RightStrip(s)| <= |s|
    ensures Trim(s) == s[|RightStrip(s)| - |Trim(s)|..|RightStrip(s)|]
  {
    var right := RightStrip(s);
    var r := LeftStrip(right);
    assert r == Trim(s);
    var a := |right| - |r|;
    assert r == right[a..];
    assert right == s[..|right|];
    assert s[..|right|][a..] == s[a..|right|];
  }

  /** What trimming removes in front of the right-stripped text is blank. */
  lemma TrimLeftBlanks(s: string)
    ensures forall k :: 0 <= k < |RightStrip(s)| - |Trim(s)| ==> IsTrimmed(s[k])
  {
    var right := RightStrip(s);
    LeftStripRemovesBlanks(right);
    PrefixAgrees(right, s);
  }

  /** A prefix agrees with the text it starts. */
  lemma PrefixAgrees(p: string, s: string)
    requires p <= s
    ensures forall k :: 0 <= k < |p| ==> p[k] == s[k]
  {
  }

  /** Stripping an all-blank text leaves nothing, from either side. */
  lemma {:induction false} BlankStrips(s: string)
    requires forall k :: 0 <= k < |s| ==> IsTrimmed(s[k])
    ensures RightStrip(s) == [] && LeftStrip(s) == []
  {
    if s != [] {
      BlankStrips(s[..|s| - 1]);
      BlankStrips(s[1..]);
    }
  }

  /** Stripping twice is stripping once. */
  lemma StripsIdempotent(s: string)
    ensures RightStrip(RightStrip(s)) == RightStrip(s)
    ensures LeftStrip(LeftStrip(s)) == LeftStrip(s)
  {
  }

  /**
   * `removeRightSpace`: null and "" come back as they are; otherwise the
   * scan from the end stops at the first character above U+0020.
   */
  method RemoveRightSpace(str: Option<string>) returns (r: Option<string>)
    ensures IsEmpty(str) ==> r == str
    ensures !IsEmpty(str) ==> r == Some(RightStrip(str.value))
  {
    if IsEmpty(str) {
      return str;
    }
    var s := str.value;
    var i := |s| - 1;
    assert s[..i + 1] == s;
    while i >= 0
      invariant -1 <= i < |s|
      invariant RightStrip(s) == RightStrip(s[..i + 1])
      decreases i
    {
      if s[i] > ' ' {
        break;
      }
      assert s[..i] == s[..i + 1][..i];
      i := i - 1;
    }
    return Some(s[..i + 1]);
  }

  /** `removeLeftSpace`: the mirror image, scanning from the start. */
  method RemoveLeftSpace(str: Option<string>) returns (r: Option<string>)
    ensures IsEmpty(str) ==> r == str
    ensures !IsEmpty(str) ==> r == Some(LeftStrip(str.value))
  {
    if IsEmpty(str) {
      return str;
    }
    var s := str.value;
    var i := 0;
    while i < |s|
      invariant 0 <= i <= |s|
      invariant LeftStrip(s) == LeftStrip(s[i..])
    {
      if s[i] > ' ' {
        break;
      }
      assert s[i + 1..] == s[i..][1..];
      i := i + 1;
    }
    return Some(s[i..]);
  }

  // ---------------------------------------------------------------------
  // paddingString
  // ---------------------------------------------------------------------

  /** `p` appended `n` times. */
  function Repeat(p: string, n: nat): string
  {
    if n == 0 then [] else Repeat(p, n - 1) + p
  }

  /** `n` copies of `p` have `n` times its length. */
  lemma {:induction false} RepeatSize(p: string, n: nat)
    ensures |Repeat(p, n)| == |p| * n
  {
    if n > 0 {
      RepeatSize(p, n - 1);
      MulStep(|p|, n);
    }
  }

  /** One more copy adds `a` to the length. */
  lemma MulStep(a: nat, n: nat)
    requires n > 0
    ensures a * (n - 1) + a == a * n
  {
  }

  /**
   * What `paddingString` builds from the trimmed text: padding up to
   * `length` when it is shorter, then the text itself back whenever the
   * result would be longer than `length`.
   */
  function Padded(t: string, length: int, pad: string, leftFlg: bool): string
  {
    if |t| < length then
      var sb := Repeat(pad, length - |t|);
      var result := if leftFlg then sb + t else t + sb;
      if |result| > length then t else result
    else t
  }

  /**
   * `paddingString(str, length, sPaddingStr, leftFlg)`: null comes back as
   * null, and an empty padding gives the text back untrimmed; otherwise the
   * padding of the trimmed text.
   */
  method PaddingString(str: Option<string>, length: int, sPaddingStr: Option<string>, leftFlg: bool)
    returns (r: Option<string>)
    ensures str.None? ==> r.None?
    ensures str.Some? && IsEmpty(sPaddingStr) ==> r == str
    ensures str.Some? && !IsEmpty(sPaddingStr) ==>
      r == Some(Padded(Trim(str.value), length, sPaddingStr.value, leftFlg))
  {
    if str.None? {
      return str;
    }
    if IsEmpty(sPaddingStr) {
      return str;
    }
    var s := Trim(str.value);
    var pad := sPaddingStr.value;
    var sb: string := [];
    if |s| < length {
      for loop := |s| to length
        invariant sb == Repeat(pad, loop - |s|)
      {
        sb := sb + pad;
      }
    } else {
      return Some(s);
    }
    ghost var t := s;
    assert sb == Repeat(pad, length - |t|);
    var result: string;
    if leftFlg {
      result := sb + s;
    } else {
      result := s + sb;
    }
    if |result| > length {
      return Some(s);
    }
    return Some(result);
  }

  /**
   * Padding takes effect only with a one-character padding and a text
   * shorter than `length`; the result then has exactly `length`
   * characters: the text on one side and copies of the padding on the other.
   */
  lemma PaddedShape(t: string, length: int, pad: string, leftFlg: bool)
    requires pad != []
    ensures |pad| == 1 && |t| < length ==>
      |Padded(t, length, pad, leftFlg)| == length &&
      (leftFlg ==> Padded(t, length, pad, leftFlg) == Repeat(pad, length - |t|) + t) &&
      (!leftFlg ==> Padded(t, length, pad, leftFlg) == t + Repeat(pad, length - |t|))
    ensures !(|pad| == 1 && |t| < length) ==> Padded(t, length, pad, leftFlg) == t
  {
    if |t| < length {
      RepeatLength(pad, length - |t|);
    }
  }

  /** A one-character padding repeated `n` times has `n` characters, a longer one more. */
  lemma RepeatLength(p: string, n: nat)
    requires p != []
    ensures |p| == 1 ==> |Repeat(p, n)| == n
    ensures |p| > 1 && n > 0 ==> |Repeat(p, n)| > n
  {
    RepeatSize(p, n);
    if |p| > 1 && n > 0 {
      MulGrows(|p|, n);
    }
  }

  /** Copies longer than one character outgrow their count. */
  lemma MulGrows(a: nat, n: nat)
    requires a > 1 && n > 0
    ensures a * n > n
  {
  }

  /** Every character put in front by a one-character padding is that character. */
  lemma {:induction false} RepeatOne(c: char, n: nat)
    ensures forall k :: 0 <= k < |Repeat([c], n)| ==> Repeat([c], n)[k] == c
  {
    if n > 0 {
      RepeatOne(c, n - 1);
    }
  }

  // ---------------------------------------------------------------------
  // stringDivisionOfDelim and stringDivision
  // ---------------------------------------------------------------------

  /** The pieces `stringDivisionOfDelim` returns: all pieces, less an empty last one. */
  function DivisionPieces(s: string, d: char): seq<string>
  {
    var p := Segments(s, d);
    if p[|p| - 1] == [] then p[..|p| - 1] else p
  }

  /** One pass of the loop: the segment before the next delimiter joins the collected ones. */
  lemma CollectStep(s: string, d: char, front: seq<string>, start: nat)
    requires start <= |s| && IndexOfFrom(s, d, start) != -1
    requires Segments(s, d) == front + SegmentsFrom(s, d, start)
    ensures Segments(s, d) == (front + [s[start..IndexOfFrom(s, d, start)]]) + SegmentsFrom(s, d, IndexOfFrom(s, d, start) + 1)
  {
    var e := IndexOfFrom(s, d, start);
    SegmentsFromNext(s, d, start);
    assert front + ([s[start..e]] + SegmentsFrom(s, d, e + 1)) == (front + [s[start..e]]) + SegmentsFrom(s, d, e + 1);
  }

  /** The pieces, once the loop has collected all but the last segment. */
  lemma PiecesOfSegments(s: string, d: char, front: seq<string>, start: nat)
    requires start <= |s| && Segments(s, d) == front + [s[start..]]
    ensures DivisionPieces(s, d) == if |s| > start then front + [s[start..]] else front
  {
    var all := front + [s[start..]];
    assert all[|all| - 1] == s[start..];
    assert all[..|all| - 1] == front;
  }

  /**
   * `stringDivisionOfDelim(str, cDelim)`: the loop adds the text before each
   * delimiter, then the rest when anything is left.
   */
  method StringDivisionOfDelim(str: string, cDelim: char) returns (r: seq<string>)
    ensures r == DivisionPieces(str, cDelim)
  {
    var strList: seq<string> := [];
    var iIdxStart := 0;
    var iIdxEnd := IndexOfFrom(str, cDelim, iIdxStart);
    while iIdxEnd != -1
      invariant iIdxStart <= |str|
      invariant iIdxEnd == IndexOfFrom(str, cDelim, iIdxStart)
      invariant Segments(str, cDelim) == strList + SegmentsFrom(str, cDelim, iIdxStart)
      decreases |str| - iIdxStart
    {
      CollectStep(str, cDelim, strList, iIdxStart);
      strList := strList + [str[iIdxStart..iIdxEnd]];
      iIdxStart := iIdxEnd + 1;
      iIdxEnd := IndexOfFrom(str, cDelim, iIdxStart);
    }
    SegmentsFromLast(str, cDelim, iIdxStart);
    PiecesOfSegments(str, cDelim, strList, iIdxStart);
    if |str| > iIdxStart {
      strList := strList + [str[iIdxStart..]];
    }
    return strList;
  }

  /**
   * No piece holds the delimiter, and joining the pieces with it gives the
   * text back, less one trailing delimiter if the text ends with one.
   */
  lemma DivisionJoins(s: string, d: char)
    ensures forall k :: 0 <= k < |DivisionPieces(s, d)| ==> d !in DivisionPieces(s, d)[k]
    ensures s != [] && s[|s| - 1] == d ==> Join(DivisionPieces(s, d), [d]) + [d] == s
    ensures !(s != [] && s[|s| - 1] == d) ==> Join(DivisionPieces(s, d), [d]) == s
  {
    SegmentsJoin(s, d);
    var p := Segments(s, d);
    var n := |p|;
    if p[n - 1] == [] {
      if n == 1 {
        assert s == [];
      } else {
        assert p == p[..n - 1] + [p[n - 1]];
        JoinSnoc(p[..n - 1], [], d);
        assert s == Join(p[..n - 1], [d]) + [d];
      }
    } else {
      if n == 1 {
        assert s == p[0];
      } else {
        assert p == p[..n - 1] + [p[n - 1]];
        JoinSnoc(p[..n - 1], p[n - 1], d);
      }
      assert s[|s| - 1] == p[n - 1][|p[n - 1]| - 1];
    }
  }

  /** The first `k >= i` where two delimiters stand side by side, or -1. */
  function FirstDoubled(s: string, d: char, i: nat): (k: int)
    decreases |s| - i
    ensures k == -1 || (i <= k && k + 1 < |s| && s[k] == d && s[k + 1] == d)
    ensures forall j :: i <= j < (if k == -1 then |s| - 1 else k) ==> !(s[j] == d && s[j + 1] == d)
  {
    if i + 1 >= |s| then -1
    else if s[i] == d && s[i + 1] == d then i
    else FirstDoubled(s, d, i + 1)
  }

  /** Positions without a delimiter cannot start a doubled pair, so the search skips them. */
  lemma {:induction false} FirstDoubledSkip(s: string, d: char, i: nat, j: nat)
    requires i <= j <= |s|
    requires forall k :: i <= k < j ==> s[k] != d
    decreases j - i
    ensures FirstDoubled(s, d, i) == FirstDoubled(s, d, j)
  {
    if i < j {
      FirstDoubledSkip(s, d, i + 1, j);
    }
  }

  /** The last index of the run of delimiters through `p`. */
  function RunEnd(s: string, d: char, p: nat): (e: nat)
    requires p < |s| && s[p] == d
    decreases |s| - p
    ensures p <= e < |s| && s[e] == d
    ensures e + 1 == |s| || s[e + 1] != d
    ensures forall j :: p <= j <= e ==> s[j] == d
  {
    if p + 1 < |s| && s[p + 1] == d then RunEnd(s, d, p + 1) else p
  }

  /**
   * What `stringDivision` returns: the text after the first run of two or
   * more delimiters, or "" when there is no such run or it reaches the end.
   */
  function AfterDoubledRun(s: string, d: char): (r: string)
    ensures |r| <= |s| && r == s[|s| - |r|..]
    ensures r == [] || r[0] != d
    ensures r != [] ==> |r| + 2 <= |s| && s[|s| - |r| - 1] == d && s[|s| - |r| - 2] == d
  {
    var k := FirstDoubled(s, d, 0);
    if k == -1 then []
    else
      var e := RunEnd(s, d, k + 1);
      if e >= |s| - 1 then [] else s[e + 1..]
  }

  /**
   * The state of the `stringDivision` walk at index `a` (always on a
   * delimiter, or -1 once none is left). Without `flg` no doubled
   * delimiter has been passed; with it, `a` lies inside the first run of
   * two or more delimiters, past its first delimiter.
   */
  predicate Walking(s: string, d: char, a: int, flg: bool)
  {
    if a == -1 then !flg && FirstDoubled(s, d, 0) == -1
    else
      0 <= a < |s| && s[a] == d &&
      if flg then
        var k := FirstDoubled(s, d, 0);
        k != -1 && k < a && RunEnd(s, d, k + 1) == RunEnd(s, d, a)
      else FirstDoubled(s, d, 0) == FirstDoubled(s, d, a)
  }

  /** The walk starts at the first delimiter. */
  lemma WalkStarts(s: string, d: char)
    ensures Walking(s, d, IndexOf(s, d), false)
  {
    var a := IndexOf(s, d);
    FirstDoubledSkip(s, d, 0, if a == -1 then |s| else a);
  }

  /** A walk that reaches the last character finds nothing after the run. */
  lemma WalkEnds(s: string, d: char, a: int, flg: bool)
    requires a != -1 && Walking(s, d, a, flg) && a >= |s| - 1
    ensures AfterDoubledRun(s, d) == []
  {
  }

  /** A second delimiter right after `a` moves the walk into (or on along) the run. */
  lemma WalkPair(s: string, d: char, a: int, flg: bool)
    requires a != -1 && Walking(s, d, a, flg) && a + 1 < |s| && s[a + 1] == d
    ensures Walking(s, d, a + 1, true)
    ensures a + 1 >= |s| - 1 ==> AfterDoubledRun(s, d) == []
  {
  }

  /** At the end of the run the walk returns the rest of the text. */
  lemma WalkReturns(s: string, d: char, a: int)
    requires a != -1 && Walking(s, d, a, true) && a + 1 < |s| && s[a + 1] != d
    ensures AfterDoubledRun(s, d) == s[a + 1..]
  {
  }

  /** A lone delimiter sends the walk on to the next one. */
  lemma WalkSkips(s: string, d: char, a: int)
    requires a != -1 && Walking(s, d, a, false) && a + 1 < |s| && s[a + 1] != d
    ensures Walking(s, d, IndexOfFrom(s, d, a + 1), false)
  {
    var next := IndexOfFrom(s, d, a + 1);
    FirstDoubledSkip(s, d, a + 1, if next == -1 then |s| else next);
  }

  /**
   * `stringDivision(str, cDelim)`. The index always stands on a delimiter;
   * `flg` records that the run being walked is at least two long.
   */
  method StringDivision(str: string, cDelim: char) returns (r: string)
    ensures r == AfterDoubledRun(str, cDelim)
  {
    var iIdxStart := IndexOf(str, cDelim);
    var flg := false;
    WalkStarts(str, cDelim);
    while iIdxStart != -1
      invariant Walking(str, cDelim, iIdxStart, flg)
      decreases if iIdxStart == -1 then 0 else |str| + 1 - iIdxStart
    {
      iIdxStart := IndexOfFrom(str, cDelim, iIdxStart);
      if iIdxStart >= |str| - 1 {
        WalkEnds(str, cDelim, iIdxStart, flg);
        return "";
      }
      if str[iIdxStart + 1] == cDelim {
        WalkPair(str, cDelim, iIdxStart, flg);
        flg := true;
        iIdxStart := iIdxStart + 1;
        if iIdxStart >= |str| - 1 {
          return "";
        }
      } else {
        if flg {
          WalkReturns(str, cDelim, iIdxStart);
          return str[iIdxStart + 1..];
        } else {
          WalkSkips(str, cDelim, iIdxStart);
          iIdxStart := IndexOfFrom(str, cDelim, iIdxStart + 1);
        }
      }
    }
    return "";
  }

  // ---------------------------------------------------------------------
  // Space removal, changeToHyphen and sanitizeLineBreak.
  // ---------------------------------------------------------------------

  /** The ideographic (full-width) space U+3000. */
  const FullSpace: char := '\U{3000}'

  /** `removeHalfSpace`: null stays null; every ASCII space is deleted. */
  function RemoveHalfSpace(str: Option<string>): (r: Option<string>)
    ensures str.None? <==> r.None?
    ensures str.Some? ==> r.value == Without(str.value, ' ')
  {
    if str.None? then str
    else
      ReplaceByEmpty(str.value, ' ');
      Some(ReplaceAll(str.value, " ", ""))
  }

  /** `removeFullSpace`: null stays null; every U+3000 is deleted. */
  function RemoveFullSpace(str: Option<string>): (r: Option<string>)
    ensures str.None? <==> r.None?
    ensures str.Some? ==> r.value == Without(str.value, FullSpace)
  {
    if str.None? then str
    else
      ReplaceByEmpty(str.value, FullSpace);
      Some(ReplaceAll(str.value, [FullSpace], ""))
  }

  /**
   * `removeAllSpace`: both kinds of space are gone and every other
   * character occurs as often as before.
   */
  function RemoveAllSpace(str: Option<string>): (r: Option<string>)
    ensures str.None? <==> r.None?
    ensures str.Some? ==> ' ' !in r.value && FullSpace !in r.value
    ensures str.Some? ==> forall x :: x != ' ' && x != FullSpace ==>
      multiset(r.value)[x] == multiset(str.value)[x]
  {
    if str.None? then str
    else
      var half := RemoveHalfSpace(str);
      var r := RemoveFullSpace(half);
      WithoutCounts(str.value, ' ');
      WithoutCounts(half.value, FullSpace);
      assert multiset(r.value)[' '] == multiset(half.value)[' '] == 0;
      r
  }

  /** The horizontal bar U+2015 that `changeToHyphen` shows for a blank cell. */
  const Bar: string := "\U{2015}"

  /** `changeToHyphen`: null, "", " " and a lone U+3000 become the bar; anything else stays. */
  function ChangeToHyphen(str: Option<string>): (r: string)
    ensures IsEmpty(str) || str.value == " " || str.value == [FullSpace] ==> r == Bar
    ensures !(IsEmpty(str) || str.value == " " || str.value == [FullSpace]) ==> r == str.value
  {
    if !IsEmpty(str) then
      if str.value == " " then Bar
      else if str.value == [FullSpace] then Bar
      else str.value
    else Bar
  }

  /** The result is never empty, and a second call changes nothing. */
  lemma ChangeToHyphenSettles(str: Option<string>)
    ensures ChangeToHyphen(str) != []
    ensures ChangeToHyphen(Some(ChangeToHyphen(str))) == ChangeToHyphen(str)
  {
  }

  /** The HTML line break every CR, LF, CR LF or LF CR becomes. */
  const Br: string := "<br>"

  /**
   * `sanitizeLineBreak`: null and "" give null; otherwise CR LF, then
   * LF CR, then LF, then CR are replaced by `<br>`, so no line-break
   * character is left.
   */
  function SanitizeLineBreak(str: Option<string>): (r: Option<string>)
    ensures IsEmpty(str) ==> r.None?
    ensures !IsEmpty(str) ==> r.Some? && '\r' !in r.value && '\n' !in r.value
  {
    if !IsEmpty(str) then
      var s1 := ReplaceAll(str.value, "\r\n", Br);
      var s2 := ReplaceAll(s1, "\n\r", Br);
      var s3 := ReplaceAll(s2, "\n", Br);
      var s4 := ReplaceAll(s3, "\r", Br);
      ReplaceCharRemoves(s2, '\n', Br);
      ReplaceKeepsOut(s3, "\r", Br, '\n');
      ReplaceCharRemoves(s3, '\r', Br);
      Some(s4)
    else None
  }

  /** A text without line breaks comes back unchanged. */
  lemma SanitizeKeepsPlainText(s: string)
    requires s != [] && '\r' !in s && '\n' !in s
    ensures SanitizeLineBreak(Some(s)) == Some(s)
  {
    ReplaceAbsent(s, "\r\n", Br);
    ReplaceAbsent(s, "\n\r", Br);
    ReplaceAbsent(s, "\n", Br);
    ReplaceAbsent(s, "\r", Br);
  }

  /** A text without carriage return and line feed. */
  predicate NoBreak(s: string)
  {
    '\r' !in s && '\n' !in s
  }

  /** The four line breaks sanitizeLineBreak rewrites. */
  predicate IsBreak(sep: string)
  {
    sep == "\r\n" || sep == "\n\r" || sep == "\n" || sep == "\r"
  }

  /**
   * Lines joined by LF CR hold no CR LF when no line but the first and the
   * last is empty, so the first pass leaves them alone.
   */
  lemma {:induction false} LfCrJoinHasNoCrLf(lines: seq<string>, rep: string)
    requires lines != [] && forall i :: 0 <= i < |lines| ==> NoBreak(lines[i])
    requires forall i :: 0 < i < |lines| - 1 ==> lines[i] != []
    ensures ReplaceAll(Join(lines, "\n\r"), "\r\n", rep) == Join(lines, "\n\r")
    decreases |lines|
  {
    if |lines| == 1 {
      ReplaceAbsent(lines[0], "\r\n", rep);
    } else {
      var rest := Join(lines[1..], "\n\r");
      assert rest == [] || rest[0] != '\n' by {
        if |lines| > 2 {
          assert lines[1] != [] && rest == lines[1] + "\n\r" + Join(lines[2..], "\n\r");
          assert rest[0] == lines[1][0];
        }
      }
      assert Join(lines, "\n\r") == (lines[0] + "\n") + ("\r" + rest);
      ReplaceSkip(lines[0] + "\n", "\r" + rest, "\r\n", rep);
      assert !("\r\n" <= "\r" + rest) && ("\r" + rest)[1..] == rest;
      LfCrJoinHasNoCrLf(lines[1..], rep);
    }
  }

  /** Lines without breaks, joined by a separator without CR or without LF, lack it too. */
  lemma JoinNoBreak(lines: seq<string>, sep: string)
    requires forall i :: 0 <= i < |lines| ==> NoBreak(lines[i])
    ensures '\r' !in sep ==> '\r' !in Join(lines, sep)
    ensures '\n' !in sep ==> '\n' !in Join(lines, sep)
    ensures NoBreak(sep) ==> NoBreak(Join(lines, sep))
  {
    if '\r' !in sep {
      JoinLacks(lines, sep, '\r');
    }
    if '\n' !in sep {
      JoinLacks(lines, sep, '\n');
    }
  }

  /** The last three passes leave a text without breaks alone. */
  lemma LaterPassesKeep(t: string)
    requires NoBreak(t)
    ensures ReplaceAll(t, "\n\r", Br) == t && ReplaceAll(t, "\n", Br) == t && ReplaceAll(t, "\r", Br) == t
  {
    ReplaceAbsent(t, "\n\r", Br);
    ReplaceAbsent(t, "\n", Br);
    ReplaceAbsent(t, "\r", Br);
  }

  /** `<br>` holds no line break. */
  lemma BrNoBreak()
    ensures NoBreak(Br)
  {
    assert Br == ['<', 'b', 'r', '>'];
  }

  /**
   * The four passes on lines joined by one kind of break: the pass for that
   * kind replaces every separator, and the others change nothing.
   */
  lemma SanitizePasses(lines: seq<string>, sep: string)
    requires lines != [] && forall i :: 0 <= i < |lines| ==> NoBreak(lines[i])
    requires IsBreak(sep)
    requires sep == "\n\r" ==> forall i :: 0 < i < |lines| - 1 ==> lines[i] != []
    ensures var s1 := ReplaceAll(Join(lines, sep), "\r\n", Br);
      var s2 := ReplaceAll(s1, "\n\r", Br);
      var s3 := ReplaceAll(s2, "\n", Br);
      ReplaceAll(s3, "\r", Br) == Join(lines, Br)
  {
    var s := Join(lines, sep);
    BrNoBreak();
    JoinNoBreak(lines, Br);
    JoinNoBreak(lines, sep);
    LaterPassesKeep(Join(lines, Br));
    if sep == "\r\n" {
      ReplaceJoin(lines, sep, Br);
    } else if sep == "\n\r" {
      LfCrJoinHasNoCrLf(lines, Br);
      ReplaceJoin(lines, sep, Br);
    } else if sep == "\n" {
      ReplaceAbsent(s, "\r\n", Br);
      ReplaceMissing(s, "\n\r", Br, '\r');
      ReplaceJoin(lines, sep, Br);
    } else {
      ReplaceMissing(s, "\r\n", Br, '\n');
      ReplaceAbsent(s, "\n\r", Br);
      ReplaceAbsent(s, "\n", Br);
      ReplaceJoin(lines, sep, Br);
    }
  }

  /**
   * Lines without CR and LF, joined by one kind of line break, come back
   * joined by `<br>`: every break becomes one `<br>` and the lines are kept.
   * For LF CR the lines between the first and the last must not be empty;
   * otherwise two LF CR in a row hold a CR LF, which the first pass takes
   * (see LfCrPairsOverlap).
   */
  lemma SanitizeLines(lines: seq<string>, sep: string)
    requires lines != [] && forall i :: 0 <= i < |lines| ==> NoBreak(lines[i])
    requires IsBreak(sep) && Join(lines, sep) != []
    requires sep == "\n\r" ==> forall i :: 0 < i < |lines| - 1 ==> lines[i] != []
    ensures SanitizeLineBreak(Some(Join(lines, sep))) == Some(Join(lines, Br))
  {
    SanitizePasses(lines, sep);
  }

  /** One line break between two texts without breaks becomes `<br>`. */
  lemma SanitizeOneBreak(a: string, sep: string, b: string)
    requires NoBreak(a) && NoBreak(b) && IsBreak(sep)
    ensures SanitizeLineBreak(Some(a + sep + b)) == Some(a + Br + b)
  {
    var lines := [a, b];
    assert lines[1..] == [b];
    assert Join(lines, sep) == a + sep + b;
    assert Join(lines, Br) == a + Br + b;
    SanitizeLines(lines, sep);
  }

  /**
   * Two LF CR breaks in a row give three `<br>`: the CR LF in their middle is
   * replaced first, and the LF and the CR left around it are replaced one
   * by one afterwards.
   */
  lemma LfCrPairsOverlap()
    ensures SanitizeLineBreak(Some("\n\r\n\r")) == Some(Br + Br + Br)
  {
    var s := "\n\r\n\r";
    var s1 := "\n" + Br + "\r";
    BrNoBreak();
    assert ReplaceAll(s, "\r\n", Br) == s1 by {
      assert s == "\n" + ("\r\n" + "\r");
      ReplaceSkip("\n", "\r\n" + "\r", "\r\n", Br);
      ReplaceLead("\r\n", "\r", Br);
      ReplaceMissing("\r", "\r\n", Br, '\n');
    }
    assert ReplaceAll(s1, "\n\r", Br) == s1 by {
      assert s1 == "\n" + (Br + "\r");
      assert !("\n\r" <= s1) && s1[1..] == Br + "\r";
      ReplaceAbsent(Br + "\r", "\n\r", Br);
    }
    var s3 := Br + Br + "\r";
    assert ReplaceAll(s1, "\n", Br) == s3 by {
      assert s1 == "\n" + (Br + "\r");
      ReplaceLead("\n", Br + "\r", Br);
      ReplaceAbsent(Br + "\r", "\n", Br);
    }
    assert ReplaceAll(s3, "\r", Br) == Br + Br + Br by {
      assert s3 == (Br + Br) + ("\r" + []);
      ReplaceSkip(Br + Br, "\r" + [], "\r", Br);
      ReplaceLead("\r", [], Br);
    }
  }
}
