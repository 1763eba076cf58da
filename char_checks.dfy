/**
 * The character-class checks of WebAPIUtil. Each walks the characters of its
 * input and answers as soon as one decides the result.
 */
module CharChecks {
  import opened Text

  /** Printable ASCII without the space: U+0021 to U+007E. */
  predicate IsAsciiGraphic(c: char)
  {
    '\U{0021}' <= c <= '\U{007E}'
  }

  /** A character `isNarrowChar` accepts; the space only when `allowSpace`. */
  predicate IsNarrowAllowed(c: char, allowSpace: bool)
  {
    IsAsciiGraphic(c) || (allowSpace && c == ' ')
  }

  /**
   * `isNarrowChar`: false for null or empty input, otherwise whether every
   * character is printable ASCII (the space counting only when `allowSpace`).
   */
  method IsNarrowChar(str: Option<string>, allowSpace: bool) returns (r: bool)
    ensures r <==> !IsEmpty(str) && forall k :: 0 <= k < |str.value| ==> IsNarrowAllowed(str.value[k], allowSpace)
  {
    if IsEmpty(str) {
      return false;
    }
    var chars := str.value;
    for i := 0 to |chars|
      invariant forall k :: 0 <= k < i ==> IsNarrowAllowed(chars[k], allowSpace)
    {
      if !('\U{0021}' <= chars[i] && chars[i] <= '\U{007E}') {
        if allowSpace {
          if chars[i] == ' ' {
            continue;
          }
        }
        return false;
      }
    }
    return true;
  }

  /** `ascii2Chk`: non-empty and only U+0021 to U+007E; a space fails. */
  method Ascii2Chk(str: Option<string>) returns (r: bool)
    ensures r <==> !IsEmpty(str) && forall k :: 0 <= k < |str.value| ==> IsAsciiGraphic(str.value[k])
  {
    if IsEmpty(str) {
      return false;
    }
    r := IsNarrowChar(str, false);
  }

  /** `asciiChk`: non-empty and only U+0020 to U+007E. */
  method AsciiChk(str: Option<string>) returns (r: bool)
    ensures r <==> !IsEmpty(str) && forall k :: 0 <= k < |str.value| ==> ' ' <= str.value[k] <= '~'
  {
    if IsEmpty(str) {
      return false;
    }
    r := IsNarrowChar(str, true);
  }

  /** DISABLE_CHARS: the characters " ' , . \ ` ~. */
  const DisableChars: string := "\"',.\\`~"

  /** The vertical bar is not among the disabled characters. */
  lemma BarIsNotDisabled()
    ensures '|' !in DisableChars && |DisableChars| == 7
  {
  }

  /** `hasDisabledChar`: whether some character is a disabled one. */
  method HasDisabledChar(str: string) returns (r: bool)
    ensures r <==> exists k :: 0 <= k < |str| && str[k] in DisableChars
  {
    var result := false;
    var i := 0;
    while i < |str|
      invariant 0 <= i <= |str|
      invariant forall k :: 0 <= k < i ==> str[k] !in DisableChars
    {
      var checkChar := str[i];
      if IndexOf(DisableChars, checkChar) >= 0 {
        result := true;
        break;
      }
      i := i + 1;
    }
    return result;
  }

  /** The characters `zenkakuChk` rejects: printable ASCII, half-width katakana and symbols, and the space. */
  predicate IsNarrowForm(c: char)
  {
    IsAsciiGraphic(c) || ('\U{FF61}' <= c <= '\U{FF9F}') || c == ' '
  }

  /** `zenkakuChk`: non-empty and without any narrow character. */
  method ZenkakuChk(str: Option<string>) returns (r: bool)
    ensures r <==> !IsEmpty(str) && forall k :: 0 <= k < |str.value| ==> !IsNarrowForm(str.value[k])
  {
    if IsEmpty(str) {
      return false;
    }
    var chars := str.value;
    for i := 0 to |chars|
      invariant forall k :: 0 <= k < i ==> !IsNarrowForm(chars[k])
    {
      if ('\U{0021}' <= chars[i] && chars[i] <= '\U{007E}')
        || ('\U{FF61}' <= chars[i] && chars[i] <= '\U{FF9F}') || chars[i] == ' '
      {
        return false;
      }
    }
    return true;
  }

  // SIGN_CHARS, one constant per source line.
  const SignLine1: string := "\U{3000}\U{3001}\U{3002}\U{FF0C}\U{FF0E}\U{30FB}\U{FF1A}\U{FF1B}\U{FF1F}\U{FF01}\U{309B}\U{309C}"
  const SignLine2: string := "\U{00B4}\U{FF40}\U{00A8}\U{FF3E}\U{FFE3}\U{FF3F}\U{30FD}\U{30FE}\U{309D}\U{309E}\U{3003}\U{4EDD}"
  const SignLine3: string := "\U{3005}\U{3006}\U{3007}\U{30FC}\U{2015}\U{2010}\U{FF0F}\U{FF3C}\U{FF5E}\U{2225}\U{FF5C}\U{2026}"
  const SignLine4: string := "\U{2025}\U{2018}\U{2019}\U{201C}\U{201D}\U{FF08}\U{FF09}\U{3014}\U{3015}\U{FF3B}\U{FF3D}\U{FF5B}"
  const SignLine5: string := "\U{FF5D}\U{3008}\U{3009}\U{300A}\U{300B}\U{300C}\U{300D}\U{300E}\U{300F}\U{3010}\U{3011}\U{FF0B}"
  const SignLine6: string := "\U{FF0D}\U{00B1}\U{00D7}\U{00F7}\U{FF1D}\U{2260}\U{FF1C}\U{FF1E}\U{2266}\U{2267}\U{221E}\U{2234}"
  const SignLine7: string := "\U{2642}\U{2640}\U{00B0}\U{2032}\U{2033}\U{2103}\U{FFE5}\U{FF04}\U{FFE0}\U{FFE1}\U{FF05}\U{FF03}"
  const SignLine8: string := "\U{FF06}\U{FF0A}\U{FF20}\U{00A7}\U{2606}\U{2605}\U{25CB}\U{25CF}\U{25CE}\U{25C7}\U{25C6}\U{25A1}"
  const SignLine9: string := "\U{25A0}\U{25B3}\U{25B2}\U{25BD}\U{25BC}\U{203B}\U{3012}\U{2192}\U{2190}\U{2191}\U{2193}\U{3013}"
  const SignLine10: string := "\U{30FB}\U{30FB}\U{30FB}\U{30FB}\U{30FB}\U{30FB}\U{30FB}\U{30FB}\U{30FB}\U{30FB}\U{30FB}\U{2208}"
  const SignLine11: string := "\U{220B}\U{2286}\U{2287}\U{2282}\U{2283}\U{222A}\U{2229}\U{2227}\U{2228}\U{FFE2}\U{21D2}\U{21D4}"
  const SignLine12: string := "\U{2200}\U{2203}\U{2220}\U{22A5}\U{2312}\U{2202}\U{2207}\U{2261}\U{2252}\U{226A}\U{226B}\U{221A}"
  const SignLine13: string := "\U{223D}\U{221D}\U{2235}\U{222B}\U{222C}\U{212B}\U{2030}\U{266F}\U{266D}\U{266A}\U{2020}\U{2021}"
  const SignLine14: string := "\U{00B6}\U{25EF}"

  /** SIGN_CHARS: the full-width symbols `zenkakuKana2Chk` accepts. */
  const SignChars: string := SignLine1 + SignLine2 + SignLine3 + SignLine4 + SignLine5 + SignLine6
    + SignLine7 + SignLine8 + SignLine9 + SignLine10 + SignLine11 + SignLine12 + SignLine13 + SignLine14

  /**
   * The characters `zenkakuKana2Chk` accepts: full-width katakana from U+30A1
   * to U+30F4, full-width letters and digits, Greek and Cyrillic letters,
   * and SIGN_CHARS.
   */
  predicate IsZenkakuKanaChar(c: char)
  {
    ('\U{30A1}' <= c <= '\U{30F4}') || ('\U{FF41}' <= c <= '\U{FF5A}') || ('\U{FF21}' <= c <= '\U{FF3A}')
      || ('\U{FF10}' <= c <= '\U{FF19}') || ('\U{0391}' <= c <= '\U{03A9}') || ('\U{03B1}' <= c <= '\U{03C9}')
      || ('\U{0410}' <= c <= '\U{042F}') || ('\U{0430}' <= c <= '\U{044F}') || c in SignChars
  }

  /** `zenkakuKana2Chk`: non-empty and every character accepted. */
  method ZenkakuKana2Chk(str: Option<string>) returns (r: bool)
    ensures r <==> !IsEmpty(str) && forall k :: 0 <= k < |str.value| ==> IsZenkakuKanaChar(str.value[k])
  {
    if IsEmpty(str) {
      return false;
    }
    var chars := str.value;
    for i := 0 to |chars|
      invariant forall k :: 0 <= k < i ==> IsZenkakuKanaChar(chars[k])
    {
      var accepted := AcceptsZenkakuKana(chars[i]);
      if !accepted {
        return false;
      }
    }
    return true;
  }

  /** The condition `zenkakuKana2Chk` tests for each character: the step of the loop above. */
  method AcceptsZenkakuKana(c: char) returns (accepted: bool)
    ensures accepted <==> IsZenkakuKanaChar(c)
  {
    accepted := (c >= '\U{30A1}' && c <= '\U{30F4}') || (c >= '\U{FF41}' && c <= '\U{FF5A}')
      || (c >= '\U{FF21}' && c <= '\U{FF3A}') || (c >= '\U{FF10}' && c <= '\U{FF19}')
      || (c >= '\U{0391}' && c <= '\U{03A9}') || (c >= '\U{03B1}' && c <= '\U{03C9}')
      || (c >= '\U{0410}' && c <= '\U{042F}') || (c >= '\U{0430}' && c <= '\U{044F}')
      || IndexOf(SignChars, c) >= 0;
  }

  /** The small ヵ and ヶ lie past the katakana range and are no sign character, so they are rejected. */
  lemma SmallKaKeRejected()
    ensures !IsZenkakuKanaChar('\U{30F5}') && !IsZenkakuKanaChar('\U{30F6}')
  {
    SmallKaNotSign();
    SmallKeNotSign();
  }

  /** The small ヵ is not a sign character (checked line by line). */
  lemma SmallKaNotSign()
    ensures forall k :: 0 <= k < |SignChars| ==> SignChars[k] != '\U{30F5}'
  {
    var c := '\U{30F5}';
    assert forall k :: 0 <= k < |SignLine1| ==> SignLine1[k] != c;
    assert forall k :: 0 <= k < |SignLine2| ==> SignLine2[k] != c;
    assert forall k :: 0 <= k < |SignLine3| ==> SignLine3[k] != c;
    assert forall k :: 0 <= k < |SignLine4| ==> SignLine4[k] != c;
    assert forall k :: 0 <= k < |SignLine5| ==> SignLine5[k] != c;
    assert forall k :: 0 <= k < |SignLine6| ==> SignLine6[k] != c;
    assert forall k :: 0 <= k < |SignLine7| ==> SignLine7[k] != c;
    assert forall k :: 0 <= k < |SignLine8| ==> SignLine8[k] != c;
    assert forall k :: 0 <= k < |SignLine9| ==> SignLine9[k] != c;
    assert forall k :: 0 <= k < |SignLine10| ==> SignLine10[k] != c;
    assert forall k :: 0 <= k < |SignLine11| ==> SignLine11[k] != c;
    assert forall k :: 0 <= k < |SignLine12| ==> SignLine12[k] != c;
    assert forall k :: 0 <= k < |SignLine13| ==> SignLine13[k] != c;
    assert forall k :: 0 <= k < |SignLine14| ==> SignLine14[k] != c;
  }

  /** The small ヶ is not a sign character (checked line by line). */
  lemma SmallKeNotSign()
    ensures forall k :: 0 <= k < |SignChars| ==> SignChars[k] != '\U{30F6}'
  {
    var c := '\U{30F6}';
    assert forall k :: 0 <= k < |SignLine1| ==> SignLine1[k] != c;
    assert forall k :: 0 <= k < |SignLine2| ==> SignLine2[k] != c;
    assert forall k :: 0 <= k < |SignLine3| ==> SignLine3[k] != c;
    assert forall k :: 0 <= k < |SignLine4| ==> SignLine4[k] != c;
    assert forall k :: 0 <= k < |SignLine5| ==> SignLine5[k] != c;
    assert forall k :: 0 <= k < |SignLine6| ==> SignLine6[k] != c;
    assert forall k :: 0 <= k < |SignLine7| ==> SignLine7[k] != c;
    assert forall k :: 0 <= k < |SignLine8| ==> SignLine8[k] != c;
    assert forall k :: 0 <= k < |SignLine9| ==> SignLine9[k] != c;
    assert forall k :: 0 <= k < |SignLine10| ==> SignLine10[k] != c;
    assert forall k :: 0 <= k < |SignLine11| ==> SignLine11[k] != c;
    assert forall k :: 0 <= k < |SignLine12| ==> SignLine12[k] != c;
    assert forall k :: 0 <= k < |SignLine13| ==> SignLine13[k] != c;
    assert forall k :: 0 <= k < |SignLine14| ==> SignLine14[k] != c;
  }

  /** The characters `isPasWrdTokushumojiCheck` looks for: space " ' , . \ ` | ~. */
  predicate IsPasswordSpecial(c: char)
  {
    match c
    case ' ' => true
    case '"' => true
    case '\'' => true
    case ',' => true
    case '.' => true
    case '\\' => true
    case '`' => true
    case '|' => true
    case '~' => true
    case _ => false
  }

  /** Every disabled character is a password special character; the space and the bar are only the latter. */
  lemma DisabledArePasswordSpecial()
    ensures forall c :: c in DisableChars ==> IsPasswordSpecial(c)
    ensures IsPasswordSpecial(' ') && IsPasswordSpecial('|') && ' ' !in DisableChars && '|' !in DisableChars
  {
  }

  /** `isPasWrdTokushumojiCheck`: whether some character is a password special character. */
  method IsPasWrdTokushumojiCheck(pasWrd: string) returns (r: bool)
    ensures r <==> exists k :: 0 <= k < |pasWrd| && IsPasswordSpecial(pasWrd[k])
  {
    for i := 0 to |pasWrd|
      invariant forall k :: 0 <= k < i ==> !IsPasswordSpecial(pasWrd[k])
    {
      match pasWrd[i]
      case ' ' => return true;
      case '"' => return true;
      case '\'' => return true;
      case ',' => return true;
      case '.' => return true;
      case '\\' => return true;
      case '`' => return true;
      case '|' => return true;
      case '~' => return true;
      case _ =>
    }
    return false;
  }

  /** The characters `isTokushumojiCheck` looks for: < > & " '. */
  predicate IsMarkupSpecial(c: char)
  {
    c == '<' || c == '>' || c == '&' || c == '"' || c == '\''
  }

  /** `isTokushumojiCheck`: false for null or empty input, otherwise whether some character is markup special. */
  method IsTokushumojiCheck(str: Option<string>) returns (r: bool)
    ensures r <==> !IsEmpty(str) && exists k :: 0 <= k < |str.value| && IsMarkupSpecial(str.value[k])
  {
    if IsEmpty(str) {
      return false;
    }
    var chars := str.value;
    for i := 0 to |chars|
      invariant forall k :: 0 <= k < i ==> !IsMarkupSpecial(chars[k])
    {
      match chars[i]
      case '<' => return true;
      case '>' => return true;
      case '&' => return true;
      case '"' => return true;
      case '\'' => return true;
      case _ =>
    }
    return false;
  }

  /** Whether `s` matches the regular expression [0-9]*. */
  predicate MatchesDigitStar(s: string)
  {
    s == [] || ('0' <= s[0] <= '9' && MatchesDigitStar(s[1..]))
  }

  /** [0-9]* matches exactly the texts made of ASCII digits. */
  lemma {:induction false} DigitStarIffDigits(s: string)
    ensures MatchesDigitStar(s) <==> forall k :: 0 <= k < |s| ==> IsAsciiDigit(s[k])
  {
    if s != [] {
      DigitStarIffDigits(s[1..]);
      assert forall k :: 1 <= k < |s| ==> s[k] == s[1..][k - 1];
    }
  }

  /** `isNumberCheck`: false for null or empty input, otherwise whether the text matches [0-9]*. */
  function IsNumberCheck(str: Option<string>): (r: bool)
    ensures r <==> !IsEmpty(str) && forall k :: 0 <= k < |str.value| ==> IsAsciiDigit(str.value[k])
  {
    if IsEmpty(str) then false
    else
      DigitStarIffDigits(str.value);
      MatchesDigitStar(str.value)
  }
}
