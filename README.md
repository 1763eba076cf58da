# Japanese-locale text rules of MetaeaseLib WebAPI01, in Dafny

This project models the two utility classes of the WebAPI01 library:
`StringUtil` and `WebAPIUtil`. Together they hold the text rules that the
library's web layer applies to Japanese input:

- full-width (zenkaku) and half-width (hankaku) conversion, through two
  aligned 87-entry kana tables, a fixed 0xFEE0 shift for digits and letters,
  and a one-to-one symbol switch in each direction;
- byte walks over Shift_JIS (code page 932) text: platform-dependent
  characters, digit extraction and control codes;
- character-class checks and the e-mail rule predicates, with their composite
  `isEMailInputCheck`;
- small string and arithmetic helpers: trimming, padding, splitting, space
  removal, leap ("dragon") years, age from two dates, yen grouping, HTML
  escaping and truncation.

Modules, one per file:

| file | module | models |
|---|---|---|
| `text.dfy` | `Text` | `String.indexOf`, `replaceAll`, `split`, and the Java null-or-empty test |
| `kana_tables.dfy` | `KanaTables` | `HANKAKU_KATAKANA` / `ZENKAKU_KATAKANA` and the first-match table scan |
| `width_conversion.dfy` | `WidthConversion` | `zen2han`, `katakana` |
| `string_util.dfy` | `StringUtil` | the other `StringUtil` helpers except `extractionNumber` |
| `shift_jis.dfy` | `ShiftJis` | `isLeadByte`, `isTrailByte`, `hasMachineCharacters`, `extractionNumber`, `isCtrlCodeChk` |
| `char_checks.dfy` | `CharChecks` | the character-class checks of `WebAPIUtil` |
| `email_rules.dfy` | `EmailRules` | `localEmptyChk` … `spaceChk` and `isEMailInputCheck` |
| `web_util.dfy` | `WebUtil` | `isDragonYear`, `calcAge`, `convertYenString`, `replaceValue`, `reduceArray`, `reduceString` |

## Modelling decisions

- **Java strings.**
  - A Java `String` is a `string`, a sequence of Dafny `char`s. A Dafny `char` is a Unicode scalar value, while a Java `char` is a UTF-16 code unit; the two agree on text without characters above U+FFFF (see "Left out").
  - `null` is `Option<string>`'s `None` wherever the result tells `null` apart from `""`.
  - `StringUtil.isEmpty` is `Text.IsEmpty`.
- **Character width.** The width test calls `getBytes()` / `getBytes("MS932")` on one character. Here it is the parameter `encLen: char -> nat`, the byte length of that character in the encoding in use. Every property of `zen2han` and `katakana` is stated relative to it.
- **Bytes.** The byte walks take the encoded bytes as input, as `seq<Byte>` with `Byte` the values 0..255. Java compares signed bytes; `ShiftJis.SignedLeadTest` proves that those signed comparisons test the same unsigned ranges.
- **Loops.** The source's loops are methods with `while` loops, each proved equal to a specification function:
  - the `StringBuffer` loops of `zen2han` / `katakana`;
  - the `while` loops of `stringDivisionOfDelim` / `stringDivision`;
  - the byte walks;
  - the `char[]` scans of the class checks;
  - the grouping loop of `convertYenString`;
  - the copy loop of `reduceArray`;
  - the join loop of `reduceString`.

  The straight-line code is functions: the e-mail rules, `isDragonYear`, `calcAge`, `replaceValue` and the replace chains.
- **Exceptions.** Where the Java code throws, the model has a precondition. Examples are `StringIndexOutOfBoundsException` from `substring` and `ArrayIndexOutOfBoundsException`.

## Model

| member | source | states |
|---|---|---|
| Text.IndexOfFrom | src/jp/co/metaease/com/StringUtil.java:705 | `indexOf(c, from)`: -1 iff `c` does not occur from `from` on, otherwise the first index at or after `from` that holds `c` |
| Text.IndexOf | src/jp/co/metaease/com/WebAPIUtil.java:635 | `indexOf(c)`: -1 iff `c` is absent, otherwise the first index holding `c` |
| Text.IndexOfSub | src/jp/co/metaease/com/WebAPIUtil.java:1522 | `indexOf("..")`: -1 iff the pattern occurs nowhere, otherwise its first occurrence |
| Text.ReplaceCharRemoves | src/jp/co/metaease/com/WebAPIUtil.java:1741-1745 | replacing every `c` by a text without `c` leaves no `c` |
| Text.ReplaceKeepsOut | src/jp/co/metaease/com/WebAPIUtil.java:1741-1745 | a replace introduces no character that is in neither the text nor the replacement |
| Text.ReplaceByEmpty | src/jp/co/metaease/com/StringUtil.java:795 | `replaceAll(c, "")` is the text without `c` |
| Text.ReplaceJoin | src/jp/co/metaease/com/StringUtil.java:997-1000 | when no piece holds the first character of the pattern, replacing the pattern in the pieces joined by it gives the pieces joined by the replacement |
| Text.ReplaceMissing | src/jp/co/metaease/com/StringUtil.java:997-1000 | a pattern holding a character the text lacks changes nothing |
| Text.WithoutCounts | src/jp/co/metaease/com/StringUtil.java:795 | removing `c` keeps the count of every other character |
| Text.SegmentsJoin | src/jp/co/metaease/com/StringUtil.java:705-718 | the segments between delimiters contain no delimiter, and joining them with it gives the text back |
| Text.DropTrailingEmpty | src/jp/co/metaease/com/WebAPIUtil.java:1847 | `String.split` drops exactly the trailing empty pieces: a prefix ending in a non-empty piece, followed only by empty ones |
| KanaTables.Find | src/jp/co/metaease/com/StringUtil.java:181-189 | the first index holding the value, and none iff the value is absent |
| KanaTables.LookupIsFind | src/jp/co/metaease/com/StringUtil.java:181-189 | the table scan returns the entry of the other table at the first match, or nothing |
| KanaTables.ScanTable | src/jp/co/metaease/com/StringUtil.java:181-189 | the `for`-`break` scan returns `Lookup`, the first-match entry |
| KanaTables.TablesAligned | src/jp/co/metaease/com/StringUtil.java:33-54 | both tables have 87 entries, so every scan index is valid in both |
| KanaTables.RepeatedHankaku | src/jp/co/metaease/com/StringUtil.java:33-44 | the half-width forms at 78/79, 3/80, 7/81, 10/85 and 16/86 are equal |
| KanaTables.PairedZenkaku | src/jp/co/metaease/com/StringUtil.java:46-54 | their full-width partners differ: ワ/ヮ, イ/ヰ, エ/ヱ, カ/ヵ, ケ/ヶ |
| KanaTables.WaResolvesToWa | src/jp/co/metaease/com/StringUtil.java:444-453 | ﾜ is first found at 78, so it resolves to ワ and never to ヮ |
| KanaTables.IResolvesToI | src/jp/co/metaease/com/StringUtil.java:444-453 | ｲ is first found at 3 and resolves to イ, never to ヰ |
| KanaTables.EResolvesToE | src/jp/co/metaease/com/StringUtil.java:444-453 | ｴ is first found at 7 and resolves to エ, never to ヱ |
| KanaTables.KaResolvesToKa | src/jp/co/metaease/com/StringUtil.java:444-453 | ｶ is first found at 10 and resolves to カ, never to ヵ |
| KanaTables.KeResolvesToKe | src/jp/co/metaease/com/StringUtil.java:444-453 | ｹ is first found at 16 and resolves to ケ, never to ヶ |
| KanaTables.MarkNotInTable | src/jp/co/metaease/com/StringUtil.java:426-438 | the voicing marks ﾞ and ﾟ alone match no table entry |
| KanaTables.VoicedANotInTable | src/jp/co/metaease/com/StringUtil.java:410-420 | the pair ｱﾞ is not in the table |
| KanaTables.Entry63 | src/jp/co/metaease/com/StringUtil.java:33-54 | entry 63 pairs `.` with `．` |
| KanaTables.ZenkakuFirst | src/jp/co/metaease/com/StringUtil.java:46-54 | every full-width entry is first found at its own index: the full-width table has no repeated entry |
| KanaTables.LookupRoundTrip | src/jp/co/metaease/com/StringUtil.java:33-54 | what the half-width scan finds for an entry, the full-width scan maps back to that entry; for every entry but `.` it is one full-width kana |
| KanaTables.SingleKanaInTable | src/jp/co/metaease/com/StringUtil.java:33-44 | every half-width kana from ｦ to ﾝ except ｰ is an entry of the half-width table on its own |
| WidthConversion.SymbolSwitchesInverse | src/jp/co/metaease/com/StringUtil.java:212-345 | the two symbol switches are inverse to each other on every character either one maps |
| WidthConversion.SymbolHalfRange | src/jp/co/metaease/com/StringUtil.java:212-345 | a symbol the `zen2han` switch maps is no kana or alphanumeric, and neither is its image |
| WidthConversion.SymbolFullRange | src/jp/co/metaease/com/StringUtil.java:476-610 | a symbol the `katakana` switch maps is no kana or alphanumeric, and neither is its image |
| WidthConversion.NarrowAlnum | src/jp/co/metaease/com/StringUtil.java:193-208 | a full-width digit or letter shifted down by 0xFEE0 is an ASCII digit or letter |
| WidthConversion.WidenAlnum | src/jp/co/metaease/com/StringUtil.java:457-472 | an ASCII digit or letter shifted up by 0xFEE0 is a full-width digit or letter |
| WidthConversion.AlnumShiftsInverse | src/jp/co/metaease/com/StringUtil.java:193-208 | the two shifts undo each other |
| WidthConversion.HalfOfChar | src/jp/co/metaease/com/StringUtil.java:174-352 | one pass of the `zen2han` loop appends `HanOf` of the character |
| WidthConversion.Zen2Han | src/jp/co/metaease/com/StringUtil.java:157-357 | null or "" is returned unchanged; otherwise the pieces `HanOf` of all the characters, in order |
| WidthConversion.Zen2HanTextStep | src/jp/co/metaease/com/StringUtil.java:171 | the output from index `i` on is the piece of character `i` followed by the rest |
| WidthConversion.Zen2HanAppend | src/jp/co/metaease/com/StringUtil.java:171-352 | `zen2han` works character by character: the output of a concatenation is the concatenation of the outputs |
| WidthConversion.Zen2HanKeepsNarrow | src/jp/co/metaease/com/StringUtil.java:346-350 | a text of narrow characters (`encLen` below 2) is returned unchanged |
| WidthConversion.FullOfChar | src/jp/co/metaease/com/StringUtil.java:457-610 | one pass of the `katakana` loop on a narrow non-kana character appends `ZenOf` of it |
| WidthConversion.HalfKanaStep | src/jp/co/metaease/com/StringUtil.java:397-452 | a half-width kana consumes one character, or two when the next one is a voicing mark |
| WidthConversion.KanaStepShape | src/jp/co/metaease/com/StringUtil.java:396-615 | the step at index `i`: wide characters stay as they are; half-width kana take the pair path; other narrow characters take `ZenOf` |
| WidthConversion.KatakanaTextStep | src/jp/co/metaease/com/StringUtil.java:384-418 | a step consumes 1 or 2 characters, and the output is its piece followed by the output of the rest |
| WidthConversion.HalfKanaAt | src/jp/co/metaease/com/StringUtil.java:397-452 | the pair match, the `i++`, and the second scan that looks up the mark and finds nothing, equal `HalfKanaStep` |
| WidthConversion.KanaStepAt | src/jp/co/metaease/com/StringUtil.java:386-615 | one pass of the `katakana` loop: the piece and the new index are those of `KanaStep` |
| WidthConversion.Katakana | src/jp/co/metaease/com/StringUtil.java:370-622 | null or "" is returned unchanged; otherwise `KatakanaText` of the input |
| WidthConversion.KatakanaKeepsWide | src/jp/co/metaease/com/StringUtil.java:613-617 | a text of characters with `encLen` other than 1 is returned unchanged |
| WidthConversion.PairMerges | src/jp/co/metaease/com/StringUtil.java:401-420 | a half-width kana and a voicing mark whose pair is in the table become exactly that table's full-width character, and both are consumed |
| WidthConversion.UnmatchedPairSplits | src/jp/co/metaease/com/StringUtil.java:422-438 | when the pair is not in the table, the base converts alone and the mark then becomes U+309B / U+309C |
| WidthConversion.MarkWidens | src/jp/co/metaease/com/StringUtil.java:497-501 | ﾞ widens to ゛ and ﾟ to ゜ |
| WidthConversion.StartsWithHalfKana | src/jp/co/metaease/com/StringUtil.java:396-452 | a text starting with a narrow half-width kana is its kana step followed by the rest |
| WidthConversion.HanOfNarrowable | src/jp/co/metaease/com/StringUtil.java:193-345 | a wide alphanumeric or switch symbol narrows to one character, which widens back to it |
| WidthConversion.ZenOfWidenable | src/jp/co/metaease/com/StringUtil.java:457-610 | a narrow alphanumeric or switch symbol widens to one character, which narrows back to it |
| WidthConversion.KatakanaTextCons | src/jp/co/metaease/com/StringUtil.java:457-610 | a narrow character that is no half-width kana contributes `ZenOf` of itself |
| WidthConversion.NarrowRoundTrip | src/jp/co/metaease/com/StringUtil.java:157-622 | on narrow alphanumerics and symbols, `zen2han(katakana(s)) == s`, one character for one |
| WidthConversion.WideRoundTrip | src/jp/co/metaease/com/StringUtil.java:157-622 | on wide alphanumerics and symbols, `katakana(zen2han(t)) == t`, one character for one |
| WidthConversion.TableKanaRoundTrip | src/jp/co/metaease/com/StringUtil.java:157-453 | zen2han turns the full-width kana that a half-width entry widens to back into that entry |
| WidthConversion.KanaRoundTrip | src/jp/co/metaease/com/StringUtil.java:157-622 | on narrow text of half-width kana, voicing marks, ASCII digits and letters and switched symbols, `zen2han(katakana(s)) == s`: merged voiced pairs split back, unmerged marks come back as marks |
| WidthConversion.KatakanaSettles | src/jp/co/metaease/com/StringUtil.java:157-622 | on such narrow text `katakana(zen2han(katakana(s))) == katakana(s)` |
| WidthConversion.SmallKaRoundTrip | src/jp/co/metaease/com/StringUtil.java:157-453 | on full-width input the round trip fails: `katakana` keeps ヵ, `zen2han` gives ｶ, and `katakana` turns ｶ into カ |
| WidthConversion.VoicedKaExample | src/jp/co/metaease/com/StringUtil.java:401-420 | `katakana("ｶﾞ") == "ガ"` and `zen2han("ガ") == "ｶﾞ"` |
| WidthConversion.WaExample | src/jp/co/metaease/com/StringUtil.java:444-453 | `katakana("ﾜ") == "ワ"` |
| WidthConversion.UnmatchedPairExample | src/jp/co/metaease/com/StringUtil.java:422-438 | `katakana("ｱﾞ") == "ア゛"` |
| WidthConversion.Entry63Unused | src/jp/co/metaease/com/StringUtil.java:33-54 | entry 63 (`.`/`．`) lies outside both kana ranges; the switches map `.` to `．` and back |
| StringUtil.RightStrip | src/jp/co/metaease/com/StringUtil.java:643-650 | the result is a prefix of the input that is empty or ends in a character above U+0020 |
| StringUtil.RightStripRemovesBlanks | src/jp/co/metaease/com/StringUtil.java:643-650 | every removed character is U+0020 or below |
| StringUtil.LeftStrip | src/jp/co/metaease/com/StringUtil.java:672-679 | the result is a suffix of the input that is empty or starts with a character above U+0020 |
| StringUtil.LeftStripRemovesBlanks | src/jp/co/metaease/com/StringUtil.java:672-679 | every removed character is U+0020 or below |
| StringUtil.StripsIdempotent | src/jp/co/metaease/com/StringUtil.java:632-680 | stripping twice is stripping once, on either side |
| StringUtil.BlankStrips | src/jp/co/metaease/com/StringUtil.java:632-680 | an all-blank text strips to "" on either side |
| StringUtil.RemoveRightSpace | src/jp/co/metaease/com/StringUtil.java:632-651 | null or "" is returned unchanged; otherwise the right-stripped text |
| StringUtil.RemoveLeftSpace | src/jp/co/metaease/com/StringUtil.java:661-680 | null or "" is returned unchanged; otherwise the left-stripped text |
| StringUtil.Trim | src/jp/co/metaease/com/StringUtil.java:113 | `String.trim` leaves a text that is empty or has no character U+0020 or below at either end |
| StringUtil.TrimIsInfix | src/jp/co/metaease/com/StringUtil.java:113 | `trim` returns a slice of the input, and everything outside that slice is U+0020 or below |
| StringUtil.PaddingString | src/jp/co/metaease/com/StringUtil.java:97-144 | null gives null; an empty pad gives the input; otherwise `Padded` of the trimmed input |
| StringUtil.PaddedShape | src/jp/co/metaease/com/StringUtil.java:113-143 | with a one-character pad and a shorter text, the result has exactly `length` characters: pad then text when `leftFlg`, text then pad otherwise; in every other case it is the trimmed text |
| StringUtil.RepeatLength | src/jp/co/metaease/com/StringUtil.java:118-140 | a one-character pad fills exactly the missing length; a longer pad overshoots `length`, so the text comes back unpadded |
| StringUtil.RepeatSize | src/jp/co/metaease/com/StringUtil.java:119-121 | `n` appends of a pad give `n` times its length |
| StringUtil.RepeatOne | src/jp/co/metaease/com/StringUtil.java:119-121 | every character added by a one-character pad is that character |
| StringUtil.CollectStep | src/jp/co/metaease/com/StringUtil.java:705-710 | one pass of the loop moves the segment before the next delimiter into the list |
| StringUtil.PiecesOfSegments | src/jp/co/metaease/com/StringUtil.java:713-718 | after the loop, the rest is added iff anything is left |
| StringUtil.StringDivisionOfDelim | src/jp/co/metaease/com/StringUtil.java:694-722 | the pieces are the delimiter-separated segments, less an empty last one |
| StringUtil.DivisionJoins | src/jp/co/metaease/com/StringUtil.java:694-722 | no piece holds the delimiter; joining the pieces with it gives the input, less one trailing delimiter when the input ends with one |
| StringUtil.FirstDoubled | src/jp/co/metaease/com/StringUtil.java:744-770 | the first index from `i` on where two delimiters stand side by side, or -1 |
| StringUtil.RunEnd | src/jp/co/metaease/com/StringUtil.java:754-759 | the last index of a run of delimiters |
| StringUtil.AfterDoubledRun | src/jp/co/metaease/com/StringUtil.java:735-775 | the result is a suffix that is empty or does not start with the delimiter; when non-empty, two delimiters precede it |
| StringUtil.WalkStarts | src/jp/co/metaease/com/StringUtil.java:738-741 | the walk starts at the first delimiter, outside a run |
| StringUtil.WalkEnds | src/jp/co/metaease/com/StringUtil.java:748-751 | a delimiter at or next to the end gives "" |
| StringUtil.WalkPair | src/jp/co/metaease/com/StringUtil.java:754-759 | a second delimiter in a row starts or continues a run |
| StringUtil.WalkReturns | src/jp/co/metaease/com/StringUtil.java:762-764 | a run of two or more ends: the text after it is the result |
| StringUtil.WalkSkips | src/jp/co/metaease/com/StringUtil.java:766-767 | a single delimiter is skipped and the walk moves to the next one |
| StringUtil.StringDivision | src/jp/co/metaease/com/StringUtil.java:735-775 | the `while` walk returns `AfterDoubledRun`: the text after the first run of two or more delimiters, or "" |
| StringUtil.RemoveHalfSpace | src/jp/co/metaease/com/StringUtil.java:787-796 | null stays null; otherwise the text without U+0020 |
| StringUtil.RemoveFullSpace | src/jp/co/metaease/com/StringUtil.java:808-817 | null stays null; otherwise the text without U+3000 |
| StringUtil.RemoveAllSpace | src/jp/co/metaease/com/StringUtil.java:829-838 | no space of either width is left, and every other character keeps its count |
| StringUtil.ChangeToHyphen | src/jp/co/metaease/com/StringUtil.java:899-919 | null, "", " " and "　" become "―"; any other text is returned unchanged |
| StringUtil.ChangeToHyphenSettles | src/jp/co/metaease/com/StringUtil.java:899-919 | the result is never empty, and applying the rule again changes nothing |
| StringUtil.SanitizeLineBreak | src/jp/co/metaease/com/StringUtil.java:990-1003 | null or "" gives null; otherwise neither CR nor LF is left (the value: SanitizeLines) |
| StringUtil.SanitizeKeepsPlainText | src/jp/co/metaease/com/StringUtil.java:990-1003 | a non-empty text without CR or LF is returned unchanged |
| StringUtil.SanitizeLines | src/jp/co/metaease/com/StringUtil.java:990-1003 | lines without CR and LF joined by one kind of break (CR LF, LF CR, LF or CR) come back joined by `<br>`: one `<br>` per break, the lines unchanged; for LF CR no line between the first and the last may be empty |
| StringUtil.SanitizeOneBreak | src/jp/co/metaease/com/StringUtil.java:997-1000 | `a` + break + `b` becomes `a` + `<br>` + `b` for each of the four breaks |
| StringUtil.LfCrJoinHasNoCrLf | src/jp/co/metaease/com/StringUtil.java:997 | lines joined by LF CR, with no empty line inside, hold no CR LF, so the first pass keeps them |
| StringUtil.LfCrPairsOverlap | src/jp/co/metaease/com/StringUtil.java:997-1000 | two LF CR in a row (`"\n\r\n\r"`) give three `<br>`: the CR LF in the middle is taken by the first pass |
| ShiftJis.Signed | src/jp/co/metaease/com/StringUtil.java:867 | a Java `byte` is the unsigned byte read in -128..127, congruent modulo 256 |
| ShiftJis.SignedLeadTest | src/jp/co/metaease/com/StringUtil.java:868-875 | the signed comparisons of `extractionNumber` test the lead range 0x81–0x9F / 0xE0–0xFC and the digit range 0x30–0x39 |
| ShiftJis.ShiftOrIsCode | src/jp/co/metaease/com/WebAPIUtil.java:1643 | `(lead << 8) \| trail` is `lead * 256 + trail` |
| ShiftJis.MachineIffBadStart | src/jp/co/metaease/com/WebAPIUtil.java:1616-1665 | the walk reports a problem iff some byte reached as a lead has a missing or invalid trail byte, or a code in 0x8740–0x879E, 0xED40–0xEFFC or 0xFA40–0xFC4B |
| ShiftJis.HasMachineCharacters | src/jp/co/metaease/com/WebAPIUtil.java:1616-1665 | the `++i` loop returns `MachineFrom` of the bytes, and false on empty input |
| ShiftJis.DigitsFrom | src/jp/co/metaease/com/StringUtil.java:866-878 | the output holds only bytes 0x30–0x39 and is no longer than the input |
| ShiftJis.DigitsInOrder | src/jp/co/metaease/com/StringUtil.java:866-878 | the output is a subsequence of the input, in input order |
| ShiftJis.LeadHidesNextByte | src/jp/co/metaease/com/StringUtil.java:868-873 | the byte after a lead byte is always skipped, even when it is a digit |
| ShiftJis.NoLeadKeepsAllDigits | src/jp/co/metaease/com/StringUtil.java:866-878 | without lead bytes, every ASCII digit is kept |
| ShiftJis.ExtractionNumber | src/jp/co/metaease/com/StringUtil.java:850-887 | null stays null; otherwise the loop's output is `DigitsFrom` of the bytes |
| ShiftJis.InvalidPairExample | src/jp/co/metaease/com/WebAPIUtil.java:1638-1641 | 0x81 0x31 counts as a problem for `hasMachineCharacters`, and `extractionNumber` drops the digit after the lead byte |
| ShiftJis.YenExample | src/jp/co/metaease/com/StringUtil.java:866-878 | the bytes of "円10" give "10" and carry no platform-dependent character |
| ShiftJis.ControlCodeRange | src/jp/co/metaease/com/WebAPIUtil.java:790-794 | a control code is a byte below 0x20 other than 0x09, 0x0A and 0x0D |
| ShiftJis.IsCtrlCodeChk | src/jp/co/metaease/com/WebAPIUtil.java:785-799 | true iff no byte is a control code |
| CharChecks.IsNarrowChar | src/jp/co/metaease/com/WebAPIUtil.java:266-296 | true iff the text is non-empty and every character is in 0x21–0x7E, or is U+0020 when spaces are allowed |
| CharChecks.Ascii2Chk | src/jp/co/metaease/com/WebAPIUtil.java:188-196 | true iff the text is non-empty and every character is in 0x21–0x7E |
| CharChecks.AsciiChk | src/jp/co/metaease/com/WebAPIUtil.java:208-216 | true iff the text is non-empty and every character is in 0x20–0x7E |
| CharChecks.BarIsNotDisabled | src/jp/co/metaease/com/WebAPIUtil.java:60-64 | the forbidden set has seven characters and leaves out the `\|` its comment lists |
| CharChecks.HasDisabledChar | src/jp/co/metaease/com/WebAPIUtil.java:228-254 | true iff some character is a forbidden character |
| CharChecks.ZenkakuChk | src/jp/co/metaease/com/WebAPIUtil.java:443-466 | true iff the text is non-empty and no character is narrow (0x20–0x7E, or half-width kana) |
| CharChecks.ZenkakuKana2Chk | src/jp/co/metaease/com/WebAPIUtil.java:477-504 | true iff the text is non-empty and every character is a full-width katakana, digit, letter, Greek or Cyrillic letter, space or `SIGN_CHARS` symbol |
| CharChecks.SmallKaKeRejected | src/jp/co/metaease/com/WebAPIUtil.java:69-74 | ヵ and ヶ lie outside U+30A1–U+30F4 and are not accepted |
| CharChecks.SmallKaNotSign | src/jp/co/metaease/com/WebAPIUtil.java:152-165 | ヵ is not among `SIGN_CHARS` |
| CharChecks.SmallKeNotSign | src/jp/co/metaease/com/WebAPIUtil.java:152-165 | ヶ is not among `SIGN_CHARS` |
| CharChecks.DisabledArePasswordSpecial | src/jp/co/metaease/com/WebAPIUtil.java:702-758 | the password check rejects every forbidden character, and also space and `\|`, which `hasDisabledChar` lets through |
| CharChecks.IsPasWrdTokushumojiCheck | src/jp/co/metaease/com/WebAPIUtil.java:702-758 | true iff some character is one of the password-special characters |
| CharChecks.IsTokushumojiCheck | src/jp/co/metaease/com/WebAPIUtil.java:1564-1607 | true iff the text is non-empty and holds a markup-special character |
| CharChecks.DigitStarIffDigits | src/jp/co/metaease/com/WebAPIUtil.java:774 | the regular expression `[0-9]*` matches exactly the all-digit texts |
| CharChecks.IsNumberCheck | src/jp/co/metaease/com/WebAPIUtil.java:768-775 | true iff the text is non-empty and all ASCII digits |
| EmailRules.LocalPart | src/jp/co/metaease/com/WebAPIUtil.java:843 | the text before the first `@`: it holds no `@` and the `@` follows it |
| EmailRules.DomainPart | src/jp/co/metaease/com/WebAPIUtil.java:1085 | the text after the first `@`: local part, `@` and domain part make up the address; without `@`, the whole text |
| EmailRules.LocalEmptyChk | src/jp/co/metaease/com/WebAPIUtil.java:834-853 | fails iff the address starts with `@` |
| EmailRules.LocalTopDotChk | src/jp/co/metaease/com/WebAPIUtil.java:863-882 | fails iff the address starts with `.` |
| EmailRules.FirstAtEnd | src/jp/co/metaease/com/WebAPIUtil.java:909 | the first `.` is at the last index iff the only `.` is the last character |
| EmailRules.LocalLastDotChk | src/jp/co/metaease/com/WebAPIUtil.java:892-917 | as written: fails iff the only `.` of the local part is its last character |
| EmailRules.LocalLastDotChkIntended | src/jp/co/metaease/com/WebAPIUtil.java:884-891 | as documented: fails iff the local part ends with `.` |
| EmailRules.LocalLastDotExample | src/jp/co/metaease/com/WebAPIUtil.java:892-917 | `a.b.@x.jp` passes the rule as written and fails the documented one |
| EmailRules.LocalLastDotDifference | src/jp/co/metaease/com/WebAPIUtil.java:892-917 | the two differ exactly on local parts that end with `.` and hold another `.` before it |
| EmailRules.LocalTopHyphenChk | src/jp/co/metaease/com/WebAPIUtil.java:927-946 | fails iff the address starts with `-` |
| EmailRules.LocalLeftSquareBracketChk | src/jp/co/metaease/com/WebAPIUtil.java:956-975 | fails iff `[` occurs before the first `@` |
| EmailRules.LocalRightSquareBracketChk | src/jp/co/metaease/com/WebAPIUtil.java:985-1004 | fails iff `]` occurs before the first `@` |
| EmailRules.DomeinEmptyChk | src/jp/co/metaease/com/WebAPIUtil.java:1014-1033 | fails iff the first `@` is the last character |
| EmailRules.DomeinTopDotChk | src/jp/co/metaease/com/WebAPIUtil.java:1044-1065 | fails iff the domain part starts with `.` |
| EmailRules.DomeinDotChk | src/jp/co/metaease/com/WebAPIUtil.java:1076-1098 | fails iff no `.` follows the first `@` |
| EmailRules.DomeinSquareBracketChk | src/jp/co/metaease/com/WebAPIUtil.java:1108-1132 | fails iff the domain part holds exactly one of `[` and `]` |
| EmailRules.DomeinSquareBracketTLChk | src/jp/co/metaease/com/WebAPIUtil.java:1142-1166 | with both brackets present, passes iff `[` is the first character of the domain and its only `]` is the last |
| EmailRules.DigitRun | src/jp/co/metaease/com/WebAPIUtil.java:1196-1197 | the length of the leading run of ASCII digits |
| EmailRules.MatchesGroupsIffPieces | src/jp/co/metaease/com/WebAPIUtil.java:1196-1197 | the regular expression `\d{1,3}(\.\d{1,3}){n-1}` matches exactly the texts whose `.`-separated pieces are `n` groups of 1–3 digits |
| EmailRules.Bracketed | src/jp/co/metaease/com/WebAPIUtil.java:1191-1193 | the text strictly between the first `[` and the first `]` |
| EmailRules.BracketedQuad | src/jp/co/metaease/com/WebAPIUtil.java:1191-1197 | this text is a dotted quad iff its pieces are four groups of 1–3 digits |
| EmailRules.DomeinSquareBracketNumberDotChk | src/jp/co/metaease/com/WebAPIUtil.java:1176-1205 | with both brackets present, passes iff the text between them is four `.`-separated groups of 1–3 ASCII digits |
| EmailRules.DottedQuadExample | src/jp/co/metaease/com/WebAPIUtil.java:1191 | `192.168.0.1` is a dotted quad |
| EmailRules.TooManyGroups | src/jp/co/metaease/com/WebAPIUtil.java:1191 | five digit groups are no dotted quad |
| EmailRules.FiveGroupsExample | src/jp/co/metaease/com/WebAPIUtil.java:1191 | `1.2.3.4.5` is no dotted quad |
| EmailRules.LongGroupExample | src/jp/co/metaease/com/WebAPIUtil.java:1191 | `1234.1.1.1` is no dotted quad |
| EmailRules.CommercialChk | src/jp/co/metaease/com/WebAPIUtil.java:1216-1241 | passes iff the address is empty or holds exactly one `@` |
| EmailRules.Lacks | src/jp/co/metaease/com/WebAPIUtil.java:1251-1264 | `indexOf(c) < 0` holds iff `c` is absent |
| EmailRules.LeftParenthesisChk | src/jp/co/metaease/com/WebAPIUtil.java:1251-1264 | fails iff `(` occurs |
| EmailRules.RightParenthesisChk | src/jp/co/metaease/com/WebAPIUtil.java:1274-1287 | fails iff `)` occurs |
| EmailRules.LessThanSignChk | src/jp/co/metaease/com/WebAPIUtil.java:1297-1310 | fails iff `<` occurs |
| EmailRules.GreaterThanSignChk | src/jp/co/metaease/com/WebAPIUtil.java:1320-1333 | fails iff `>` occurs |
| EmailRules.CommaChk | src/jp/co/metaease/com/WebAPIUtil.java:1343-1356 | fails iff `,` occurs |
| EmailRules.SemicolonChk | src/jp/co/metaease/com/WebAPIUtil.java:1366-1379 | fails iff `;` occurs |
| EmailRules.ColonChk | src/jp/co/metaease/com/WebAPIUtil.java:1389-1402 | fails iff `:` occurs |
| EmailRules.YenSignChk | src/jp/co/metaease/com/WebAPIUtil.java:1412-1425 | fails iff `\` occurs |
| EmailRules.SingleQuoteChk | src/jp/co/metaease/com/WebAPIUtil.java:1436-1450 | fails iff `'` occurs |
| EmailRules.DoubleQuotationChk | src/jp/co/metaease/com/WebAPIUtil.java:1461-1475 | fails iff `"` occurs |
| EmailRules.SpaceChk | src/jp/co/metaease/com/WebAPIUtil.java:1539-1552 | fails iff U+0020 occurs |
| EmailRules.DotChk | src/jp/co/metaease/com/WebAPIUtil.java:1486-1506 | fails iff the domain part holds no `.` |
| EmailRules.DotRulesAgree | src/jp/co/metaease/com/WebAPIUtil.java:1076-1098 | `dotChk` and `domeinDotChk` agree on every address with an `@` |
| EmailRules.DoubleDotFound | src/jp/co/metaease/com/WebAPIUtil.java:1522 | `indexOf("..") >= 0` iff two dots stand side by side |
| EmailRules.ContinueDotChk | src/jp/co/metaease/com/WebAPIUtil.java:1516-1529 | fails iff two dots stand side by side |
| EmailRules.IsEMailInputCheck | src/jp/co/metaease/com/WebAPIUtil.java:621-691 | false when `checkflg` is false; otherwise true iff the address is empty or well formed |
| EmailRules.EMailCheckIsRules | src/jp/co/metaease/com/WebAPIUtil.java:627-690 | the composite holds iff the address is empty, or it has an `@` and passes the chained rules: local part non-empty, no quotes, a `.` after the `@`, one `@`, no `.` right after it, no `..` in the domain |
| EmailRules.AddressOfParts | src/jp/co/metaease/com/WebAPIUtil.java:627-690 | a non-empty local part and a dotted domain, with no quotes, `@`, `..` or leading `.`, pass |
| EmailRules.PlainAddressExample | src/jp/co/metaease/com/WebAPIUtil.java:627-690 | `taro@example.jp` passes |
| EmailRules.NoLocalPartExample | src/jp/co/metaease/com/WebAPIUtil.java:635-639 | `@example.jp` fails |
| EmailRules.DotAfterAt | src/jp/co/metaease/com/WebAPIUtil.java:683-687 | an address whose domain starts with `.` fails |
| EmailRules.DotAfterAtExample | src/jp/co/metaease/com/WebAPIUtil.java:683-687 | `taro@.example.jp` fails |
| WebUtil.JavaRem | src/jp/co/metaease/com/WebAPIUtil.java:811-819 | Java's `%` truncates toward zero: the remainder has the sign of the dividend |
| WebUtil.JavaRemZero | src/jp/co/metaease/com/WebAPIUtil.java:811-819 | the remainder is zero under Java's `%` iff it is zero under Euclidean `%` |
| WebUtil.IsDragonYear | src/jp/co/metaease/com/WebAPIUtil.java:809-824 | true iff the year is divisible by 4, and by 400 if it is divisible by 100, for negative years too |
| WebUtil.DragonYearCycle | src/jp/co/metaease/com/WebAPIUtil.java:809-824 | the rule repeats every 400 years |
| WebUtil.DragonYearExamples | src/jp/co/metaease/com/WebAPIUtil.java:809-824 | 2000 and 2024 are leap years; 1900 and 2023 are not |
| WebUtil.CalcAge | src/jp/co/metaease/com/WebAPIUtil.java:308-358 | an age is returned iff both dates are non-empty texts of eight ASCII digits |
| WebUtil.DateFields | src/jp/co/metaease/com/WebAPIUtil.java:330-335 | an eight-digit date is its year times 10000, plus its month times 100, plus its day |
| WebUtil.AgeOfFields | src/jp/co/metaease/com/WebAPIUtil.java:330-352 | the age is the difference of the years, less one while the birthday (month, then day) is still ahead |
| WebUtil.AgeIsWholeYears | src/jp/co/metaease/com/WebAPIUtil.java:308-358 | the age is the number of whole 10000s between the two dates read as eight-digit numbers |
| WebUtil.GroupedFront | src/jp/co/metaease/com/WebAPIUtil.java:411-427 | grouping from the left in 1–3 digits, then threes, agrees with grouping in threes from the right |
| WebUtil.Parts | src/jp/co/metaease/com/WebAPIUtil.java:384-406 | the price splits into sign, integer digits and fraction, which together give it back |
| WebUtil.PartsCut | src/jp/co/metaease/com/WebAPIUtil.java:387-406 | the sign is a leading `-`, and the fraction starts at the first `.` |
| WebUtil.AppendGrouped | src/jp/co/metaease/com/WebAPIUtil.java:411-427 | the shrinking `while` loop appends the digits grouped in threes from the right |
| WebUtil.ConvertYenString | src/jp/co/metaease/com/WebAPIUtil.java:369-432 | null stays null; otherwise `YenText` of the decimal text |
| WebUtil.GroupedUncommas | src/jp/co/metaease/com/WebAPIUtil.java:411-427 | deleting the commas from the grouped digits gives the digits back |
| WebUtil.YenUncommas | src/jp/co/metaease/com/WebAPIUtil.java:369-432 | deleting the commas from the result gives the decimal text back, sign and fraction untouched |
| WebUtil.Chunks | src/jp/co/metaease/com/WebAPIUtil.java:411-427 | the groups: the first has 1–3 digits and every later one has 3, and joined with `,` they make the grouped text |
| WebUtil.YenGroups | src/jp/co/metaease/com/WebAPIUtil.java:369-432 | the result is the sign, the integer groups joined with `,`, and the fraction |
| WebUtil.Escape | src/jp/co/metaease/com/WebAPIUtil.java:1741-1745 | a character is escaped (starts with `&`) iff it is one of `& " < > '` |
| WebUtil.ReplaceValue | src/jp/co/metaease/com/WebAPIUtil.java:1734-1748 | null gives null; otherwise each character is replaced by its escape |
| WebUtil.PassesEscape | src/jp/co/metaease/com/WebAPIUtil.java:1741-1745 | the five `replace` passes, `&` first, equal escaping character by character |
| WebUtil.EscapedHasNoSpecials | src/jp/co/metaease/com/WebAPIUtil.java:1734-1748 | the output holds no `<`, `>`, `"` or `'` |
| WebUtil.UnescapeStep | src/jp/co/metaease/com/WebAPIUtil.java:1741-1745 | decoding an escaped character gives the character back |
| WebUtil.EscapeRoundTrip | src/jp/co/metaease/com/WebAPIUtil.java:1734-1748 | decoding `&lt; &gt; &quot; &#39; &amp;` restores the input |
| WebUtil.ReduceArray | src/jp/co/metaease/com/WebAPIUtil.java:1816-1834 | null gives null; otherwise a new array of `maxCount + 1` entries, holding the old entries where they exist and null past them |
| WebUtil.JoinNext | src/jp/co/metaease/com/WebAPIUtil.java:1851-1856 | one pass of the loop appends a `,` (except before the first piece) and the next piece |
| WebUtil.ReduceString | src/jp/co/metaease/com/WebAPIUtil.java:1843-1859 | null or "" is returned unchanged; otherwise the first `maxCount + 1` pieces of `split(",")`, joined with `,` |
| WebUtil.ReducedIsPrefix | src/jp/co/metaease/com/WebAPIUtil.java:1843-1859 | the result is a prefix of the input |

## Left out

- The controller `WebAPI010101Controller` (URL streams, environment variables, the Spring model) is network I/O and framework glue, and is not part of this model.
- `getPropertyValueIchiran` and both `getPropertyValue` overloads are `ResourceBundle` file lookups.
- The `System.out.println` logging inside the rules is dropped; only return values are modelled.
- The codecs are not modelled. `getBytes()`, `getBytes("MS932")` and `new String(raw, "MS932")` become the `encLen` parameter or a byte-sequence input.
  - `extractionNumber` returns the kept bytes, not the string decoded from them.
  - The `UnsupportedEncodingException` paths are left out: the fallback `valueLen = 1` in `katakana`, the `false` in `hasMachineCharacters`, and the `RuntimeException`s in `extractionNumber`.
- `isNumber` (`Double.parseDouble`), `updateGraphValue`, `sumData`, `getManYen`, `getManYenN`, `toBigDecimal` and `valueOf` are BigDecimal or floating-point arithmetic and parsing.
- WebUtil.ConvertYenString: takes the decimal text of the `BigDecimal`, since `BigDecimal.toString` and its scientific notation are not modelled. It requires that text to be non-empty.
- WebUtil.CalcAge: `Integer.parseInt` is modelled only on ASCII digits. Its sign handling and its acceptance of other Unicode digits are left out, so an input such as `"+1234567"` gives no age here.
- Exceptions are preconditions, not behaviour:
  - the local-part rules and `dotChk` require an `@` (`substring(0, -1)` throws without one);
  - `domeinTopDotChk` requires the `@` not to be last;
  - `domeinSquareBracketNumberDotChk` requires `[` to come before `]` when both are present;
  - `reduceString` requires `maxCount` to be below the number of pieces;
  - `reduceArray` requires `maxCount >= -1`.
- The NullPointerExceptions of `hasDisabledChar`, `isPasWrdTokushumojiCheck`, `isCtrlCodeChk`, `stringDivision` and `stringDivisionOfDelim` on null are left out. Those members take a plain `string`.
- The round trip `toFullWidth(toHalfWidth(toFullWidth(x))) == toFullWidth(x)` is proved only for narrow input (WidthConversion.KatakanaSettles). On full-width input it does not hold: WidthConversion.SmallKaRoundTrip shows it for ヵ, and ヮ, ヰ, ヱ and ヶ go the same way, since their half-width forms are listed earlier for ワ, イ, エ and ケ. A full-width kana followed by a full-width voicing mark (カ゛) also narrows to a pair that widens to one voiced kana (ガ).
- WebUtil.EscapeRoundTrip: the decoding is a character-by-character inverse of the escaping, not the sequence of Java `replace` calls a caller would write; sequential decoding is not modelled.
- Characters above U+FFFF: such a character is one Dafny `char` but two Java `char`s (a surrogate pair), and a lone surrogate cannot be represented at all. Every length and index the model computes therefore matches the Java code only on text without such characters. For example, `paddingString` of U+20BB7 to length 3 with `"x"` adds one `x` in Java, where `length()` is 2, but two in the model (StringUtil.PaddedShape).
- WebUtil.ReduceArray: the new array is compared entry by entry. Aliasing of the string objects it shares with the old array is not modelled.

## Findings

| source | as written | input that shows it | evidently intended | confidence | as-written member | corrected member |
|---|---|---|---|---|---|---|
| src/jp/co/metaease/com/WebAPIUtil.java:909 | `localLastDotChk` compares the index of the first `.` of the local part with its last index, so it fails only when the only `.` is the last character | `a.b.@x.jp` passes, although its local part ends with `.` | the rule its comment describes: fail when the local part ends with `.` | not executed | EmailRules.LocalLastDotChk, EmailRules.LocalLastDotExample | EmailRules.LocalLastDotChkIntended, EmailRules.LocalLastDotDifference |

The comment on `DISABLE_CHARS` (WebAPIUtil.java:61-62) lists `|`, but the constant does not contain it. This is modelled as written, and `CharChecks.BarIsNotDisabled` states it.
