/**
 * The two width conversions of StringUtil: `zen2han` (full width to half
 * width) and `katakana` (half width to full width). Each walks its input one
 * character at a time. Katakana go through the index-aligned kana tables,
 * ASCII digits and letters move by the fixed offset 0xFEE0, and the symbols
 * go through a one-to-one switch.
 *
 * The width test (the byte length of a character in the platform charset,
 * or in MS932 for `katakana`) is the parameter `encLen`.
 */
module WidthConversion {
  import opened Text
  import opened KanaTables

  /** The symbol switch of zen2han: full-width or Japanese symbol to its narrow form. */
  function SymbolToHalf(c: char): Option<char>
  {
    match c
    case '\U{3002}' => Some('\U{FF61}')
    case '\U{300C}' => Some('\U{FF62}')
    case '\U{300D}' => Some('\U{FF63}')
    case '\U{3001}' => Some('\U{FF64}')
    case '\U{30FB}' => Some('\U{FF65}')
    case '\U{30FC}' => Some('\U{FF70}')
    case '\U{309B}' => Some('\U{FF9E}')
    case '\U{309C}' => Some('\U{FF9F}')
    case '\U{3000}' => Some(' ')
    case '\U{FF01}' => Some('!')
    case '\U{201D}' => Some('"')
    case '\U{FF03}' => Some('#')
    case '\U{FF04}' => Some('$')
    case '\U{FF05}' => Some('%')
    case '\U{FF06}' => Some('&')
    case '\U{2019}' => Some('\'')
    case '\U{FF08}' => Some('(')
    case '\U{FF09}' => Some(')')
    case '\U{FF0A}' => Some('*')
    case '\U{FF0B}' => Some('+')
    case '\U{FF0C}' => Some(',')
    case '\U{FF0D}' => Some('-')
    case '\U{FF0E}' => Some('.')
    case '\U{FF0F}' => Some('/')
    case '\U{FF1A}' => Some(':')
    case '\U{FF1B}' => Some(';')
    case '\U{FF1C}' => Some('<')
    case '\U{FF1D}' => Some('=')
    case '\U{FF1E}' => Some('>')
    case '\U{FF1F}' => Some('?')
    case '\U{FF20}' => Some('@')
    case '\U{FF3B}' => Some('[')
    case '\U{FFE5}' => Some('\\')
    case '\U{FF3D}' => Some(']')
    case '\U{FF3E}' => Some('^')
    case '\U{FF3F}' => Some('_')
    case '\U{2018}' => Some('`')
    case '\U{FF5B}' => Some('{')
    case '\U{FF5C}' => Some('|')
    case '\U{FF5D}' => Some('}')
    case '\U{FF5E}' => Some('~')
    case _ => None
  }

  /** The symbol switch of katakana: narrow symbol to its full-width form. */
  function SymbolToFull(c: char): Option<char>
  {
    match c
    case '\U{FF61}' => Some('\U{3002}')
    case '\U{FF62}' => Some('\U{300C}')
    case '\U{FF63}' => Some('\U{300D}')
    case '\U{FF64}' => Some('\U{3001}')
    case '\U{FF65}' => Some('\U{30FB}')
    case '\U{FF70}' => Some('\U{30FC}')
    case '\U{FF9E}' => Some('\U{309B}')
    case '\U{FF9F}' => Some('\U{309C}')
    case ' ' => Some('\U{3000}')
    case '!' => Some('\U{FF01}')
    case '"' => Some('\U{201D}')
    case '#' => Some('\U{FF03}')
    case '$' => Some('\U{FF04}')
    case '%' => Some('\U{FF05}')
    case '&' => Some('\U{FF06}')
    case '\'' => Some('\U{2019}')
    case '(' => Some('\U{FF08}')
    case ')' => Some('\U{FF09}')
    case '*' => Some('\U{FF0A}')
    case '+' => Some('\U{FF0B}')
    case ',' => Some('\U{FF0C}')
    case '-' => Some('\U{FF0D}')
    case '.' => Some('\U{FF0E}')
    case '/' => Some('\U{FF0F}')
    case ':' => Some('\U{FF1A}')
    case ';' => Some('\U{FF1B}')
    case '<' => Some('\U{FF1C}')
    case '=' => Some('\U{FF1D}')
    case '>' => Some('\U{FF1E}')
    case '?' => Some('\U{FF1F}')
    case '@' => Some('\U{FF20}')
    case '[' => Some('\U{FF3B}')
    case '\\' => Some('\U{FFE5}')
    case ']' => Some('\U{FF3D}')
    case '^' => Some('\U{FF3E}')
    case '_' => Some('\U{FF3F}')
    case '`' => Some('\U{2018}')
    case '{' => Some('\U{FF5B}')
    case '|' => Some('\U{FF5C}')
    case '}' => Some('\U{FF5D}')
    case '~' => Some('\U{FF5E}')
    case _ => None
  }

  /** The two switches are inverse to each other, entry for entry. */
  lemma SymbolSwitchesInverse(c: char)
    ensures SymbolToHalf(c).Some? ==> SymbolToFull(SymbolToHalf(c).value) == Some(c)
    ensures SymbolToFull(c).Some? ==> SymbolToHalf(SymbolToFull(c).value) == Some(c)
  {
    SymbolHalfInverse(c);
    SymbolFullInverse(c);
  }

  /** The `katakana` switch undoes the `zen2han` switch. */
  lemma SymbolHalfInverse(c: char)
    ensures SymbolToHalf(c).Some? ==> SymbolToFull(SymbolToHalf(c).value) == Some(c)
  {
  }

  /** The `zen2han` switch undoes the `katakana` switch. */
  lemma SymbolFullInverse(c: char)
    ensures SymbolToFull(c).Some? ==> SymbolToHalf(SymbolToFull(c).value) == Some(c)
  {
  }

  /** Full-width katakana as zen2han tests it: U+30A1 to U+30F6. */
  predicate IsFullKana(c: char)
  {
    '\U{30A1}' <= c <= '\U{30F6}'
  }

  /** Full-width digits, capital and small letters. */
  predicate IsFullAlnum(c: char)
  {
    '\U{FF10}' <= c <= '\U{FF19}' || '\U{FF21}' <= c <= '\U{FF3A}' || '\U{FF41}' <= c <= '\U{FF5A}'
  }

  /** ASCII digits, capital and small letters. */
  predicate IsAsciiAlnum(c: char)
  {
    '0' <= c <= '9' || 'A' <= c <= 'Z' || 'a' <= c <= 'z'
  }

  /** Half-width katakana as katakana tests it: U+FF66 to U+FF9D, except the prolonged sound mark ｰ. */
  predicate IsHalfKana(c: char)
  {
    '\U{FF66}' <= c <= '\U{FF9D}' && c != '\U{FF70}'
  }

  /** The half-width voicing marks ﾞ and ﾟ. */
  predicate IsVoicingMark(c: char)
  {
    c == '\U{FF9E}' || c == '\U{FF9F}'
  }

  /** A full-width digit or letter shifted down by 0xFEE0. */
  function NarrowAlnum(c: char): (r: char)
    requires IsFullAlnum(c)
    ensures IsAsciiAlnum(r)
  {
    (c as int - 0xFEE0) as char
  }

  /** An ASCII digit or letter shifted up by 0xFEE0. */
  function WidenAlnum(c: char): (r: char)
    requires IsAsciiAlnum(c)
    ensures IsFullAlnum(r)
  {
    (c as int + 0xFEE0) as char
  }

  /** The two shifts undo each other. */
  lemma AlnumShiftsInverse(c: char)
    ensures IsFullAlnum(c) ==> WidenAlnum(NarrowAlnum(c)) == c
    ensures IsAsciiAlnum(c) ==> NarrowAlnum(WidenAlnum(c)) == c
  {
  }

  /** The half-width entry paired with the first full-width entry equal to `v`. */
  function TableHalf(v: string): Option<string>
  {
    Lookup(ZenkakuKatakana, HankakuKatakana, v)
  }

  /** The full-width entry paired with the first half-width entry equal to `v`. */
  function TableFull(v: string): Option<string>
  {
    Lookup(HankakuKatakana, ZenkakuKatakana, v)
  }

  /** What a scan appends: the entry found, or nothing. */
  function Appended(r: Option<string>): string
  {
    match r
    case Some(w) => w
    case None => []
  }

  /** What zen2han writes for one character. */
  function HanOf(encLen: char -> nat, c: char): string
  {
    if encLen(c) >= 2 then WideToHalf(c) else [c]
  }

  /** What zen2han writes for one wide character. */
  function WideToHalf(c: char): string
  {
    if IsFullKana(c) then Appended(TableHalf([c]))
    else if IsFullAlnum(c) then [NarrowAlnum(c)]
    else match SymbolToHalf(c)
      case Some(h) => [h]
      case None => []
  }

  /** The text zen2han builds from a non-empty input. */
  function Zen2HanText(encLen: char -> nat, s: string): string
  {
    if s == [] then [] else HanOf(encLen, s[0]) + Zen2HanText(encLen, s[1..])
  }

  /** One step of the zen2han loop: what is appended for the character `c`. */
  method HalfOfChar(encLen: char -> nat, c: char) returns (piece: string)
    ensures piece == HanOf(encLen, c)
  {
    piece := [];
    if encLen(c) >= 2 {
      if '\U{30A1}' <= c <= '\U{30F6}' {
        var h := ScanTable(ZenkakuKatakana, HankakuKatakana, [c]);
        if h.Some? {
          piece := h.value;
        }
      } else if '\U{FF10}' <= c <= '\U{FF19}' {
        piece := [(c as int - 0xFEE0) as char];
      } else if '\U{FF21}' <= c <= '\U{FF3A}' {
        piece := [(c as int - 0xFEE0) as char];
      } else if '\U{FF41}' <= c <= '\U{FF5A}' {
        piece := [(c as int - 0xFEE0) as char];
      } else {
        var h := SymbolToHalf(c);
        if h.Some? {
          piece := [h.value];
        }
      }
    } else {
      piece := [c];
    }
  }

  /** `zen2han`: null and "" are returned as they are. */
  method Zen2Han(encLen: char -> nat, str: Option<string>) returns (r: Option<string>)
    ensures IsEmpty(str) ==> r == str
    ensures !IsEmpty(str) ==> r == Some(Zen2HanText(encLen, str.value))
  {
    if IsEmpty(str) {
      return str;
    }
    var s := str.value;
    var sb: string := [];
    var i := 0;
    while i < |s|
      invariant 0 <= i <= |s|
      invariant Zen2HanText(encLen, s) == sb + Zen2HanText(encLen, s[i..])
    {
      Zen2HanTextStep(encLen, s, i);
      var piece := HalfOfChar(encLen, s[i]);
      sb := sb + piece;
      i := i + 1;
    }
    assert s[i..] == [];
    assert sb + [] == sb;
    return Some(sb);
  }

  /** The output from index `i` on: the piece of character `i`, then the rest. */
  lemma Zen2HanTextStep(encLen: char -> nat, s: string, i: nat)
    requires i < |s|
    ensures Zen2HanText(encLen, s[i..]) == HanOf(encLen, s[i]) + Zen2HanText(encLen, s[i + 1..])
  {
    assert s[i..][1..] == s[i + 1..];
  }

  /** What katakana writes for one narrow character that is not half-width kana. */
  function ZenOf(c: char): string
  {
    if IsAsciiAlnum(c) then [WidenAlnum(c)]
    else match SymbolToFull(c)
      case Some(w) => [w]
      case None => []
  }

  /** The katakana step for a narrow character that is not half-width kana. */
  method FullOfChar(c: char) returns (piece: string)
    ensures piece == ZenOf(c)
  {
    piece := [];
    if '0' <= c <= '9' {
      piece := [(c as int + 0xFEE0) as char];
    } else if 'A' <= c <= 'Z' {
      piece := [(c as int + 0xFEE0) as char];
    } else if 'a' <= c <= 'z' {
      piece := [(c as int + 0xFEE0) as char];
    } else {
      var w := SymbolToFull(c);
      if w.Some? {
        piece := [w.value];
      }
    }
  }

  /**
   * The katakana step for a narrow half-width kana at the start of `s`: what
   * is appended and how many characters are consumed. A following voicing
   * mark is tried as a pair first; on a match the mark is then looked up on
   * its own as well (the single-character scan runs after the index has
   * moved on to it), and both characters are consumed.
   */
  function HalfKanaStep(s: string): (r: (string, nat))
    requires s != []
    ensures r.1 == 1 || (r.1 == 2 && |s| > 1 && IsVoicingMark(s[1]))
  {
    if |s| > 1 && IsVoicingMark(s[1]) then
      match TableFull(s[..2])
      case Some(w) => (w + Appended(TableFull(s[1..2])), 2)
      case None => (Appended(TableFull(s[..1])), 1)
    else (Appended(TableFull(s[..1])), 1)
  }

  /** One step of the katakana loop at the start of `s`. */
  function KanaStep(encLen: char -> nat, s: string): (string, nat)
    requires s != []
  {
    if encLen(s[0]) != 1 then ([s[0]], 1)
    else if IsHalfKana(s[0]) then HalfKanaStep(s)
    else (ZenOf(s[0]), 1)
  }

  /** The text katakana builds from a non-empty input. */
  function KatakanaText(encLen: char -> nat, s: string): string
    decreases |s|
  {
    if s == [] then []
    else
      var step := KanaStep(encLen, s);
      assert 1 <= step.1 <= |s|;
      step.0 + KatakanaText(encLen, s[step.1..])
  }

  /** The katakana step at index `i` of `s`, and how far it moves. */
  lemma KanaStepShape(encLen: char -> nat, s: string, i: nat)
    requires i < |s|
    ensures KanaStep(encLen, s[i..]) == (if encLen(s[i]) != 1 then ([s[i]], 1)
      else if IsHalfKana(s[i]) then HalfKanaStep(s[i..]) else (ZenOf(s[i]), 1))
  {
  }

  /** KatakanaText at index `i` of `s`: one step, then the rest. */
  lemma KatakanaTextStep(encLen: char -> nat, s: string, i: nat)
    requires i < |s|
    ensures 1 <= KanaStep(encLen, s[i..]).1 <= |s| - i
    ensures KatakanaText(encLen, s[i..]) ==
      KanaStep(encLen, s[i..]).0 + KatakanaText(encLen, s[i + KanaStep(encLen, s[i..]).1..])
  {
    var step := KanaStep(encLen, s[i..]);
    assert 1 <= step.1 <= |s| - i;
    assert s[i..][step.1..] == s[i + step.1..];
  }

  /**
   * The katakana step for a narrow half-width kana at index `i` of `s`. On a
   * pair match the index is moved on to the voicing mark before the
   * single-character scan; `j` is the index of the last character consumed.
   */
  method HalfKanaAt(s: string, i: nat) returns (piece: string, j: nat)
    requires i < |s|
    ensures i <= j < |s|
    ensures piece == HalfKanaStep(s[i..]).0 && j + 1 - i == HalfKanaStep(s[i..]).1
  {
    var t := s[i..];
    assert t[..1] == s[i..i + 1];
    piece := [];
    j := i;
    if j != |s| - 1 && (s[j + 1] == '\U{FF9E}' || s[j + 1] == '\U{FF9F}') {
      assert t[..2] == s[i..i + 2] && t[1..2] == s[i + 1..i + 2];
      var w := ScanTable(HankakuKatakana, ZenkakuKatakana, s[j..j + 2]);
      if w.Some? {
        piece := piece + w.value;
        j := j + 1;
      }
      var m := ScanTable(HankakuKatakana, ZenkakuKatakana, s[j..j + 1]);
      if m.Some? {
        piece := piece + m.value;
      }
    } else {
      var m := ScanTable(HankakuKatakana, ZenkakuKatakana, s[j..j + 1]);
      if m.Some? {
        piece := piece + m.value;
      }
    }
  }

  /** One pass of the katakana loop body at index `i`; `j` is the last index consumed. */
  method KanaStepAt(encLen: char -> nat, s: string, i: nat) returns (piece: string, j: nat)
    requires i < |s|
    ensures i <= j < |s|
    ensures piece == KanaStep(encLen, s[i..]).0 && j + 1 - i == KanaStep(encLen, s[i..]).1
  {
    KanaStepShape(encLen, s, i);
    KatakanaTextStep(encLen, s, i);
    var c := s[i];
    j := i;
    if encLen(c) == 1 {
      if '\U{FF66}' <= c <= '\U{FF9D}' && c != '\U{FF70}' {
        piece, j := HalfKanaAt(s, i);
      } else {
        piece := FullOfChar(c);
      }
    } else {
      piece := s[i..i + 1];
    }
  }

  /** `katakana`: null and "" are returned as they are. */
  method Katakana(encLen: char -> nat, str: Option<string>) returns (r: Option<string>)
    ensures IsEmpty(str) ==> r == str
    ensures !IsEmpty(str) ==> r == Some(KatakanaText(encLen, str.value))
  {
    if IsEmpty(str) {
      return str;
    }
    var s := str.value;
    var sb: string := [];
    var i := 0;
    while i < |s|
      invariant 0 <= i <= |s|
      invariant KatakanaText(encLen, s) == sb + KatakanaText(encLen, s[i..])
    {
      KatakanaTextStep(encLen, s, i);
      var piece, last := KanaStepAt(encLen, s, i);
      sb := sb + piece;
      i := last;
      i := i + 1;
    }
    assert s[i..] == [];
    assert sb + [] == sb;
    return Some(sb);
  }

  /** Zen2HanText at the start of `t`: the first character, then the rest. */
  lemma Zen2HanHead(encLen: char -> nat, t: string)
    requires t != []
    ensures Zen2HanText(encLen, t) == HanOf(encLen, t[0]) + Zen2HanText(encLen, t[1..])
  {
  }

  /** zen2han works character by character, so it distributes over concatenation. */
  lemma {:induction false} Zen2HanAppend(encLen: char -> nat, a: string, b: string)
    ensures Zen2HanText(encLen, a + b) == Zen2HanText(encLen, a) + Zen2HanText(encLen, b)
  {
    if a == [] {
      assert a + b == b;
    } else {
      assert (a + b)[1..] == a[1..] + b;
      assert (a + b)[0] == a[0];
      Zen2HanAppend(encLen, a[1..], b);
      var h := HanOf(encLen, a[0]);
      assert Zen2HanText(encLen, a + b) == h + Zen2HanText(encLen, a[1..] + b);
      assert Zen2HanText(encLen, a) == h + Zen2HanText(encLen, a[1..]);
    }
  }

  /** zen2han copies a narrow character. */
  lemma HanOfNarrow(encLen: char -> nat, c: char)
    requires encLen(c) < 2
    ensures HanOf(encLen, c) == [c]
  {
  }

  /** zen2han copies a text without wide characters unchanged. */
  lemma {:induction false} Zen2HanKeepsNarrow(encLen: char -> nat, s: string)
    requires forall k :: 0 <= k < |s| ==> encLen(s[k]) < 2
    ensures Zen2HanText(encLen, s) == s
  {
    if s != [] {
      HanOfNarrow(encLen, s[0]);
      Zen2HanHead(encLen, s);
      Zen2HanKeepsNarrow(encLen, s[1..]);
    }
  }

  /** katakana copies a text without narrow characters unchanged. */
  lemma {:induction false} KatakanaKeepsWide(encLen: char -> nat, s: string)
    requires forall k :: 0 <= k < |s| ==> encLen(s[k]) != 1
    ensures KatakanaText(encLen, s) == s
  {
    if s != [] {
      KatakanaKeepsWide(encLen, s[1..]);
    }
  }

  /**
   * A half-width kana and a voicing mark that form a table entry become the
   * one full-width kana of that entry; the scan of the mark on its own adds
   * nothing, and both characters are consumed.
   */
  lemma PairMerges(encLen: char -> nat, b: char, m: char, rest: string, w: string)
    requires encLen(b) == 1 && IsHalfKana(b) && IsVoicingMark(m)
    requires TableFull([b, m]) == Some(w)
    ensures KatakanaText(encLen, [b, m] + rest) == w + KatakanaText(encLen, rest)
  {
    var s := [b, m] + rest;
    assert s[0] == b && s[1] == m;
    assert s[..2] == [b, m] && s[1..2] == [m] && s[2..] == rest;
    StartsWithHalfKana(encLen, s);
    MarkNotInTable(m);
    TablesAligned();
    LookupIsFind(HankakuKatakana, ZenkakuKatakana, [m]);
  }

  /**
   * A half-width kana and a voicing mark that form no table entry: the kana
   * is converted alone, and the mark then goes through the symbol switch and
   * becomes the full-width mark ゛ or ゜.
   */
  lemma UnmatchedPairSplits(encLen: char -> nat, b: char, m: char, rest: string)
    requires encLen(b) == 1 && IsHalfKana(b) && IsVoicingMark(m) && encLen(m) == 1
    requires TableFull([b, m]).None?
    ensures KatakanaText(encLen, [b, m] + rest) ==
      Appended(TableFull([b])) + (if m == '\U{FF9E}' then "\U{309B}" else "\U{309C}") + KatakanaText(encLen, rest)
  {
    var s := [b, m] + rest;
    assert s[0] == b && s[1] == m;
    assert s[..2] == [b, m] && s[..1] == [b] && s[1..] == [m] + rest;
    StartsWithHalfKana(encLen, s);
    MarkWidens(m);
    KatakanaTextCons(encLen, m, rest);
  }

  /** katakana on a text that starts with a narrow half-width kana. */
  lemma StartsWithHalfKana(encLen: char -> nat, s: string)
    requires s != [] && encLen(s[0]) == 1 && IsHalfKana(s[0])
    ensures KatakanaText(encLen, s) == HalfKanaStep(s).0 + KatakanaText(encLen, s[HalfKanaStep(s).1..])
  {
    KanaStepOfHalfKana(encLen, s);
    KatakanaTextHead(encLen, s);
  }

  /** A narrow half-width kana takes the pair path. */
  lemma KanaStepOfHalfKana(encLen: char -> nat, s: string)
    requires s != [] && encLen(s[0]) == 1 && IsHalfKana(s[0])
    ensures KanaStep(encLen, s) == HalfKanaStep(s)
  {
  }

  /** KatakanaText at the start of `s`, when it starts with a narrow half-width kana. */
  lemma KatakanaTextHead(encLen: char -> nat, s: string)
    requires s != [] && encLen(s[0]) == 1 && IsHalfKana(s[0])
    ensures KatakanaText(encLen, s) == KanaStep(encLen, s).0 + KatakanaText(encLen, s[KanaStep(encLen, s).1..])
  {
    KatakanaTextStep(encLen, s, 0);
    assert s[0..] == s;
  }

  /** A voicing mark on its own is widened by the symbol switch. */
  lemma MarkWidens(m: char)
    requires IsVoicingMark(m)
    ensures !IsHalfKana(m) && ZenOf(m) == (if m == '\U{FF9E}' then "\U{309B}" else "\U{309C}")
  {
  }

  /** Narrow characters that katakana widens through the offset or the switch. */
  predicate Widenable(c: char)
  {
    IsAsciiAlnum(c) || SymbolToFull(c).Some?
  }

  /** The single character `katakana` makes of a widenable character. */
  function Widened(c: char): char
    requires Widenable(c)
  {
    if IsAsciiAlnum(c) then WidenAlnum(c) else SymbolToFull(c).value
  }

  /** Wide characters that zen2han narrows through the offset or the switch. */
  predicate Narrowable(c: char)
  {
    IsFullAlnum(c) || SymbolToHalf(c).Some?
  }

  /** The single character `zen2han` makes of a narrowable character. */
  function Narrowed(c: char): char
    requires Narrowable(c)
  {
    if IsFullAlnum(c) then NarrowAlnum(c) else SymbolToHalf(c).value
  }

  /** The symbols zen2han switches are neither kana nor letters or digits, before and after. */
  lemma SymbolHalfRange(c: char)
    ensures SymbolToHalf(c).Some? ==> !IsFullKana(c) && !IsFullAlnum(c)
    ensures SymbolToHalf(c).Some? ==> !IsAsciiAlnum(SymbolToHalf(c).value) && !IsHalfKana(SymbolToHalf(c).value)
  {
  }

  /** The same for the symbols katakana switches. */
  lemma SymbolFullRange(c: char)
    ensures SymbolToFull(c).Some? ==> !IsAsciiAlnum(c) && !IsHalfKana(c)
    ensures SymbolToFull(c).Some? ==> !IsFullAlnum(SymbolToFull(c).value) && !IsFullKana(SymbolToFull(c).value)
  {
  }

  /** zen2han writes a narrowable wide character as its narrow form. */
  lemma HanOfNarrowable(encLen: char -> nat, c: char)
    requires Narrowable(c) && encLen(c) >= 2
    ensures HanOf(encLen, c) == [Narrowed(c)]
    ensures Widenable(Narrowed(c)) && Widened(Narrowed(c)) == c && !IsHalfKana(Narrowed(c))
  {
    if IsFullAlnum(c) {
      AlnumShiftsInverse(c);
    } else {
      SymbolHalfRange(c);
      SymbolHalfInverse(c);
    }
  }

  /** katakana writes a widenable narrow character as its full-width form. */
  lemma ZenOfWidenable(c: char)
    requires Widenable(c)
    ensures !IsHalfKana(c) && ZenOf(c) == [Widened(c)]
    ensures Narrowable(Widened(c)) && Narrowed(Widened(c)) == c && !IsFullKana(Widened(c))
  {
    if IsAsciiAlnum(c) {
      AlnumShiftsInverse(c);
    } else {
      SymbolFullRange(c);
      SymbolFullInverse(c);
    }
  }

  /** katakana on a text that starts with a narrow character other than half-width kana. */
  lemma KatakanaTextCons(encLen: char -> nat, c: char, rest: string)
    requires encLen(c) == 1 && !IsHalfKana(c)
    ensures KatakanaText(encLen, [c] + rest) == ZenOf(c) + KatakanaText(encLen, rest)
  {
    assert ([c] + rest)[1..] == rest;
  }

  /**
   * ASCII digits, letters and the symbols of the switch survive katakana
   * followed by zen2han, when the width test calls each of them narrow and
   * its full-width form wide.
   */
  lemma {:induction false} NarrowRoundTrip(encLen: char -> nat, s: string)
    requires forall k :: 0 <= k < |s| ==>
      Widenable(s[k]) && encLen(s[k]) == 1 && encLen(Widened(s[k])) >= 2
    ensures |KatakanaText(encLen, s)| == |s|
    ensures Zen2HanText(encLen, KatakanaText(encLen, s)) == s
  {
    if s != [] {
      var c := s[0];
      ZenOfWidenable(c);
      var w := Widened(c);
      assert s == [c] + s[1..];
      KatakanaTextCons(encLen, c, s[1..]);
      NarrowRoundTrip(encLen, s[1..]);
      Zen2HanAppend(encLen, [w], KatakanaText(encLen, s[1..]));
      HanOfNarrowable(encLen, w);
      assert Zen2HanText(encLen, [w]) == HanOf(encLen, w) + Zen2HanText(encLen, []);
    }
  }

  /**
   * Full-width digits, letters and the symbols of the switch survive zen2han
   * followed by katakana, when the width test calls each of them wide and
   * its narrow form narrow.
   */
  lemma {:induction false} WideRoundTrip(encLen: char -> nat, t: string)
    requires forall k :: 0 <= k < |t| ==>
      Narrowable(t[k]) && encLen(t[k]) >= 2 && encLen(Narrowed(t[k])) == 1
    ensures |Zen2HanText(encLen, t)| == |t|
    ensures KatakanaText(encLen, Zen2HanText(encLen, t)) == t
  {
    if t != [] {
      var c := t[0];
      HanOfNarrowable(encLen, c);
      var n := Narrowed(c);
      Zen2HanHead(encLen, t);
      WideRoundTrip(encLen, t[1..]);
      ZenOfWidenable(n);
      KatakanaTextCons(encLen, n, Zen2HanText(encLen, t[1..]));
      assert t == [c] + t[1..];
    }
  }

  /** ｶﾞ becomes ガ under katakana, and ガ becomes ｶﾞ under zen2han. */
  lemma VoicedKaExample(encLen: char -> nat, h: string, z: string)
    requires h == "\U{FF76}\U{FF9E}" && z == "\U{30AC}"
    requires encLen(h[0]) == 1 && encLen(z[0]) >= 2
    ensures KatakanaText(encLen, h) == z
    ensures Zen2HanText(encLen, z) == h
  {
    VoicedKaMerges(encLen, h, z);
    GaSplits(encLen, h, z);
  }

  /** `katakana("ｶﾞ") == "ガ"`: the pair is entry 11. */
  lemma VoicedKaMerges(encLen: char -> nat, h: string, z: string)
    requires h == "\U{FF76}\U{FF9E}" && z == "\U{30AC}" && encLen(h[0]) == 1
    ensures KatakanaText(encLen, h) == z
  {
    TablesAligned();
    VoicedKaFound(h);
    LookupIsFind(HankakuKatakana, ZenkakuKatakana, h);
    EntryEleven();
    assert h == [h[0], h[1]] + [];
    PairMerges(encLen, h[0], h[1], [], z);
  }

  /** `zen2han("ガ") == "ｶﾞ"`: ガ is first found at entry 11. */
  lemma GaSplits(encLen: char -> nat, h: string, z: string)
    requires h == "\U{FF76}\U{FF9E}" && z == "\U{30AC}" && encLen(z[0]) >= 2
    ensures Zen2HanText(encLen, z) == h
  {
    TablesAligned();
    GaFound(z);
    LookupIsFind(ZenkakuKatakana, HankakuKatakana, z);
    EntryEleven();
    assert [z[0]] == z && z[1..] == [];
    assert Zen2HanText(encLen, z) == HanOf(encLen, z[0]) + Zen2HanText(encLen, []);
  }

  /** ﾜ becomes ワ, the first of its two entries, never ヮ. */
  lemma WaExample(encLen: char -> nat, h: string, z: string)
    requires h == "\U{FF9C}" && z == "\U{30EF}" && encLen(h[0]) == 1
    ensures KatakanaText(encLen, h) == z
  {
    TablesAligned();
    WaResolvesToWa(h);
    LookupIsFind(HankakuKatakana, ZenkakuKatakana, h);
    assert h[..1] == h && h[1..] == [];
  }

  /**
   * ｱ followed by ﾞ is no table entry: the kana is converted alone and the
   * mark becomes the full-width mark, giving ア゛.
   */
  lemma UnmatchedPairExample(encLen: char -> nat, h: string, z: string)
    requires h == "\U{FF71}\U{FF9E}" && z == "\U{30A2}\U{309B}"
    requires encLen(h[0]) == 1 && encLen(h[1]) == 1
    ensures KatakanaText(encLen, h) == z
  {
    TablesAligned();
    VoicedANotInTable(h);
    LookupIsFind(HankakuKatakana, ZenkakuKatakana, h);
    var a := [h[0]];
    AFound(a);
    LookupIsFind(HankakuKatakana, ZenkakuKatakana, a);
    EntryOne();
    assert h == [h[0], h[1]] + [];
    UnmatchedPairSplits(encLen, h[0], h[1], []);
    assert KatakanaText(encLen, []) == [];
    assert z == [z[0]] + [z[1]] + [];
  }

  /**
   * Table entry 63 (. and ．) is never used: neither character is in a kana
   * range, so both conversions reach the symbol switch, which pairs them
   * the same way.
   */
  lemma Entry63Unused(encLen: char -> nat)
    requires encLen('.') == 1 && encLen('\U{FF0E}') >= 2
    ensures HankakuKatakana[63] == "." && ZenkakuKatakana[63] == "\U{FF0E}"
    ensures !IsHalfKana('.') && !IsFullKana('\U{FF0E}')
    ensures KatakanaText(encLen, ".") == "\U{FF0E}"
    ensures Zen2HanText(encLen, "\U{FF0E}") == "."
  {
    Entry63();
    DotWidens(encLen, '.');
    DotNarrows(encLen, '\U{FF0E}');
    assert "." == ['.'] && "\U{FF0E}" == ['\U{FF0E}'];
  }

  /** `.` is no half-width kana, so the switch widens it to `．`. */
  lemma DotWidens(encLen: char -> nat, c: char)
    requires c == '.' && encLen(c) == 1
    ensures KatakanaText(encLen, [c]) == ['\U{FF0E}']
  {
    ZenOfWidenable(c);
    KatakanaTextCons(encLen, c, []);
    assert [c] + [] == [c];
  }

  /** `．` is no full-width kana, so the switch narrows it to `.`. */
  lemma DotNarrows(encLen: char -> nat, c: char)
    requires c == '\U{FF0E}' && encLen(c) >= 2
    ensures Zen2HanText(encLen, [c]) == ['.']
  {
    HanOfNarrowable(encLen, c);
    Zen2HanHead(encLen, [c]);
  }

  /**
   * A half-width table entry that starts with a kana widens to one
   * full-width kana, which the full-width scan maps back to the entry.
   */
  lemma {:induction false} TableKanaInverse(x: string, w: string)
    requires x != [] && IsHalfKana(x[0]) && TableFull(x) == Some(w)
    ensures |w| == 1 && IsFullKana(w[0]) && TableHalf(w) == Some(x)
  {
    assert x != ".";
    LookupRoundTrip(x, w);
  }

  /** zen2han turns a wide full-width kana into its table entry. */
  lemma {:induction false} HanOfFullKana(encLen: char -> nat, c: char)
    requires IsFullKana(c) && encLen(c) >= 2
    ensures Zen2HanText(encLen, [c]) == Appended(TableHalf([c]))
  {
    assert HanOf(encLen, c) == WideToHalf(c);
    assert Zen2HanText(encLen, [c]) == HanOf(encLen, c) + Zen2HanText(encLen, []);
  }

  /**
   * zen2han turns the full-width kana that a half-width table entry widens
   * to back into that entry.
   */
  lemma {:induction false} TableKanaRoundTrip(encLen: char -> nat, x: string, c: char)
    requires x != [] && IsHalfKana(x[0]) && TableFull(x) == Some([c]) && encLen(c) >= 2
    ensures Zen2HanText(encLen, [c]) == x
  {
    TableKanaInverse(x, [c]);
    HanOfFullKana(encLen, c);
  }

  /**
   * A narrow character that the round trip below brings back: a widenable
   * character whose full-width form is wide, or a half-width kana.
   */
  predicate NarrowTableChar(encLen: char -> nat, c: char)
  {
    encLen(c) == 1 && ((Widenable(c) && encLen(Widened(c)) >= 2) || IsHalfKana(c))
  }

  /** Round-trip step for a widenable character: it comes back on its own. */
  lemma {:induction false} WidenableRoundStep(encLen: char -> nat, s: string)
    requires s != [] && NarrowTableChar(encLen, s[0]) && !IsHalfKana(s[0])
    ensures Zen2HanText(encLen, KatakanaText(encLen, s)) == [s[0]] + Zen2HanText(encLen, KatakanaText(encLen, s[1..]))
  {
    var c := s[0];
    ZenOfWidenable(c);
    var w := Widened(c);
    assert s == [c] + s[1..];
    KatakanaTextCons(encLen, c, s[1..]);
    Zen2HanAppend(encLen, [w], KatakanaText(encLen, s[1..]));
    HanOfNarrowable(encLen, w);
    assert Zen2HanText(encLen, [w]) == HanOf(encLen, w) + Zen2HanText(encLen, []);
  }

  /** Round-trip step for a voiced pair in the table: the merged kana splits back into the pair. */
  lemma {:induction false} PairRoundStep(encLen: char -> nat, s: string)
    requires PairAhead(s) && encLen(s[0]) == 1 && WideKana(encLen)
    ensures Zen2HanText(encLen, KatakanaText(encLen, s)) == s[..2] + Zen2HanText(encLen, KatakanaText(encLen, s[2..]))
  {
    var w := TableFull(s[..2]).value;
    assert s[..2] == [s[0], s[1]];
    assert s == [s[0], s[1]] + s[2..];
    PairMerges(encLen, s[0], s[1], s[2..], w);
    TableKanaInverse(s[..2], w);
    var c := w[0];
    assert w == [c];
    TableKanaRoundTrip(encLen, s[..2], c);
    Zen2HanAppend(encLen, w, KatakanaText(encLen, s[2..]));
  }

  /** A half-width kana starting no table pair is converted on its own. */
  lemma HalfKanaAlone(s: string)
    requires s != [] && IsHalfKana(s[0]) && !PairAhead(s)
    ensures HalfKanaStep(s) == (Appended(TableFull([s[0]])), 1)
  {
    assert s[..1] == [s[0]];
  }

  /** An entry of the half-width table is found by the scan. */
  lemma TableFullFound(v: string)
    requires v in HankakuKatakana
    ensures TableFull(v).Some?
  {
    TablesAligned();
    LookupIsFind(HankakuKatakana, ZenkakuKatakana, v);
  }

  /** Round-trip step for a half-width kana taken alone: its full-width kana narrows back to it. */
  lemma {:induction false} SingleRoundStep(encLen: char -> nat, s: string)
    requires s != [] && NarrowTableChar(encLen, s[0]) && IsHalfKana(s[0]) && !PairAhead(s)
    requires WideKana(encLen)
    ensures Zen2HanText(encLen, KatakanaText(encLen, s)) == [s[0]] + Zen2HanText(encLen, KatakanaText(encLen, s[1..]))
  {
    var c := s[0];
    HalfKanaAlone(s);
    StartsWithHalfKana(encLen, s);
    SingleKanaInTable(c);
    TableFullFound([c]);
    var w := TableFull([c]).value;
    TableKanaInverse([c], w);
    var d := w[0];
    assert w == [d];
    TableKanaRoundTrip(encLen, [c], d);
    Zen2HanAppend(encLen, w, KatakanaText(encLen, s[1..]));
  }

  /** What is left after a round-trip step is again such narrow text. */
  lemma NarrowTableTextTail(encLen: char -> nat, s: string, n: nat)
    requires NarrowTableText(encLen, s) && n <= |s|
    ensures NarrowTableText(encLen, s[n..])
  {
    forall k | 0 <= k < |s| - n
      ensures NarrowTableChar(encLen, s[n..][k])
    {
      assert s[n..][k] == s[k + n];
    }
  }

  /** The width test calls every full-width kana wide. */
  predicate WideKana(encLen: char -> nat)
  {
    forall c :: IsFullKana(c) ==> encLen(c) >= 2
  }

  /** Every character of `s` is a NarrowTableChar. */
  predicate NarrowTableText(encLen: char -> nat, s: string)
  {
    forall k :: 0 <= k < |s| ==> NarrowTableChar(encLen, s[k])
  }

  /** `s` starts with a half-width kana and a voicing mark that form a table entry. */
  predicate PairAhead(s: string)
  {
    |s| > 1 && IsHalfKana(s[0]) && IsVoicingMark(s[1]) && TableFull(s[..2]).Some?
  }

  /**
   * zen2han undoes katakana on narrow text made of half-width kana, voicing
   * marks, ASCII digits and letters and the switched symbols: a
   * voiced pair merged into one full-width kana splits back into the same
   * pair, because the full-width table has no repeated entry, and a mark
   * left unmerged comes back as the same mark.
   */
  lemma {:induction false} KanaRoundTrip(encLen: char -> nat, s: string)
    requires WideKana(encLen) && NarrowTableText(encLen, s)
    ensures Zen2HanText(encLen, KatakanaText(encLen, s)) == s
    decreases |s|
  {
    if s != [] {
      var n := if !IsHalfKana(s[0]) || !PairAhead(s) then 1 else 2;
      if !IsHalfKana(s[0]) {
        WidenableRoundStep(encLen, s);
      } else if PairAhead(s) {
        PairRoundStep(encLen, s);
      } else {
        SingleRoundStep(encLen, s);
      }
      NarrowTableTextTail(encLen, s, n);
      KanaRoundTrip(encLen, s[n..]);
      assert s == s[..n] + s[n..];
    }
  }

  /**
   * katakana settles after one pass on such narrow text: widening, narrowing
   * and widening again gives the first widened text.
   */
  lemma {:induction false} KatakanaSettles(encLen: char -> nat, s: string)
    requires WideKana(encLen) && NarrowTableText(encLen, s)
    ensures KatakanaText(encLen, Zen2HanText(encLen, KatakanaText(encLen, s))) == KatakanaText(encLen, s)
  {
    KanaRoundTrip(encLen, s);
  }

  /**
   * On full-width input the same round trip fails: katakana keeps ヵ, zen2han
   * narrows it to ｶ (entry 85), and katakana widens ｶ to カ, the partner of
   * its first entry 10.
   */
  lemma SmallKaRoundTrip(encLen: char -> nat, z: string, h: string)
    requires z == "\U{30F5}" && h == "\U{FF76}" && encLen(z[0]) >= 2 && encLen(h[0]) == 1
    ensures KatakanaText(encLen, z) == z
    ensures Zen2HanText(encLen, z) == h
    ensures KatakanaText(encLen, h) == "\U{30AB}" != z
  {
    KatakanaKeepsWide(encLen, z);
    TablesAligned();
    ZenkakuFirst(85);
    KaResolvesToKa(h);
    LookupIsFind(ZenkakuKatakana, HankakuKatakana, z);
    assert [z[0]] == z && z[1..] == [];
    Zen2HanHead(encLen, z);
    LookupIsFind(HankakuKatakana, ZenkakuKatakana, h);
    assert h[..1] == h && h[1..] == [];
  }
}
