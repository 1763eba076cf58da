/**
 * The two index-aligned kana tables of StringUtil and the in-order table
 * scan that both conversions use. Entry `l` of the half-width table
 * corresponds to entry `l` of the full-width table; a scan stops at the first
 * equal entry, so a later duplicate is never chosen.
 */
module KanaTables {
  import opened Text

  // The tables row by row, one constant per source line.
  const HankakuLine1: seq<string> := ["\U{FF67}", "\U{FF71}", "\U{FF68}", "\U{FF72}", "\U{FF69}", "\U{FF73}", "\U{FF6A}", "\U{FF74}", "\U{FF6B}", "\U{FF75}", "\U{FF76}", "\U{FF76}\U{FF9E}", "\U{FF77}", "\U{FF77}\U{FF9E}"]
  const HankakuLine2: seq<string> := ["\U{FF78}", "\U{FF78}\U{FF9E}", "\U{FF79}", "\U{FF79}\U{FF9E}", "\U{FF7A}", "\U{FF7A}\U{FF9E}", "\U{FF7B}", "\U{FF7B}\U{FF9E}", "\U{FF7C}", "\U{FF7C}\U{FF9E}", "\U{FF7D}", "\U{FF7D}\U{FF9E}", "\U{FF7E}"]
  const HankakuLine3: seq<string> := ["\U{FF7E}\U{FF9E}", "\U{FF7F}", "\U{FF7F}\U{FF9E}", "\U{FF80}", "\U{FF80}\U{FF9E}", "\U{FF81}", "\U{FF81}\U{FF9E}", "\U{FF6F}", "\U{FF82}", "\U{FF82}\U{FF9E}", "\U{FF83}", "\U{FF83}\U{FF9E}", "\U{FF84}"]
  const HankakuLine4: seq<string> := ["\U{FF84}\U{FF9E}", "\U{FF85}", "\U{FF86}", "\U{FF87}", "\U{FF88}", "\U{FF89}", "\U{FF8A}", "\U{FF8A}\U{FF9E}", "\U{FF8A}\U{FF9F}", "\U{FF8B}", "\U{FF8B}\U{FF9E}", "\U{FF8B}\U{FF9F}", "\U{FF8C}"]
  const HankakuLine5: seq<string> := ["\U{FF8C}\U{FF9E}", "\U{FF8C}\U{FF9F}", "\U{FF8D}", "\U{FF8D}\U{FF9E}", "\U{FF8D}\U{FF9F}", "\U{FF8E}", "\U{FF8E}\U{FF9E}", "\U{FF8E}\U{FF9F}", "\U{FF8F}", "\U{FF90}", ".", "\U{FF91}", "\U{FF92}"]
  const HankakuLine6: seq<string> := ["\U{FF93}", "\U{FF6C}", "\U{FF94}", "\U{FF6D}", "\U{FF95}", "\U{FF6E}", "\U{FF96}", "\U{FF97}", "\U{FF98}", "\U{FF99}", "\U{FF9A}", "\U{FF9B}", "\U{FF9C}", "\U{FF9C}"]
  const HankakuLine7: seq<string> := ["\U{FF72}", "\U{FF74}", "\U{FF66}", "\U{FF9D}", "\U{FF73}\U{FF9E}", "\U{FF76}", "\U{FF79}"]
  const ZenkakuLine1: seq<string> := ["\U{30A1}", "\U{30A2}", "\U{30A3}", "\U{30A4}", "\U{30A5}", "\U{30A6}", "\U{30A7}", "\U{30A8}", "\U{30A9}", "\U{30AA}", "\U{30AB}", "\U{30AC}", "\U{30AD}", "\U{30AE}"]
  const ZenkakuLine2: seq<string> := ["\U{30AF}", "\U{30B0}", "\U{30B1}", "\U{30B2}", "\U{30B3}", "\U{30B4}", "\U{30B5}", "\U{30B6}", "\U{30B7}", "\U{30B8}", "\U{30B9}", "\U{30BA}", "\U{30BB}", "\U{30BC}"]
  const ZenkakuLine3: seq<string> := ["\U{30BD}", "\U{30BE}", "\U{30BF}", "\U{30C0}", "\U{30C1}", "\U{30C2}", "\U{30C3}", "\U{30C4}", "\U{30C5}", "\U{30C6}", "\U{30C7}", "\U{30C8}", "\U{30C9}", "\U{30CA}"]
  const ZenkakuLine4: seq<string> := ["\U{30CB}", "\U{30CC}", "\U{30CD}", "\U{30CE}", "\U{30CF}", "\U{30D0}", "\U{30D1}", "\U{30D2}", "\U{30D3}", "\U{30D4}", "\U{30D5}", "\U{30D6}", "\U{30D7}", "\U{30D8}"]
  const ZenkakuLine5: seq<string> := ["\U{30D9}", "\U{30DA}", "\U{30DB}", "\U{30DC}", "\U{30DD}", "\U{30DE}", "\U{30DF}", "\U{FF0E}", "\U{30E0}", "\U{30E1}", "\U{30E2}", "\U{30E3}", "\U{30E4}", "\U{30E5}"]
  const ZenkakuLine6: seq<string> := ["\U{30E6}", "\U{30E7}", "\U{30E8}", "\U{30E9}", "\U{30EA}", "\U{30EB}", "\U{30EC}", "\U{30ED}", "\U{30EF}", "\U{30EE}", "\U{30F0}", "\U{30F1}", "\U{30F2}", "\U{30F3}"]
  const ZenkakuLine7: seq<string> := ["\U{30F4}", "\U{30F5}", "\U{30F6}"]

  /** HANKAKU_KATAKANA: one character, or a base kana and its voicing mark. */
  const HankakuKatakana: seq<string> := HankakuLine1 + HankakuLine2 + HankakuLine3 + HankakuLine4
    + HankakuLine5 + HankakuLine6 + HankakuLine7

  /** ZENKAKU_KATAKANA: one full-width character per entry. */
  const ZenkakuKatakana: seq<string> := ZenkakuLine1 + ZenkakuLine2 + ZenkakuLine3 + ZenkakuLine4
    + ZenkakuLine5 + ZenkakuLine6 + ZenkakuLine7

  /** The first index whose entry equals `v`, or None when no entry does. */
  function Find(t: seq<string>, v: string): (r: Option<nat>)
    ensures r.Some? ==> r.value < |t| && t[r.value] == v && v !in t[..r.value]
    ensures r.None? <==> v !in t
  {
    if t == [] then None
    else if t[0] == v then Some(0)
    else
      match Find(t[1..], v)
      case None => None
      case Some(k) =>
        assert t[..k + 1] == [t[0]] + t[1..][..k];
        Some(k + 1)
  }

  /**
   * The entry of `to` at the first index whose entry of `from` equals `v`:
   * the value a table scan appends.
   */
  function Lookup(from: seq<string>, to: seq<string>, v: string): Option<string>
    requires |from| == |to|
  {
    LookupFrom(from, to, v, 0)
  }

  /** The same scan, started at index `i`. */
  function LookupFrom(from: seq<string>, to: seq<string>, v: string, i: nat): Option<string>
    requires |from| == |to|
    decreases |from| - i
  {
    if i >= |from| then None
    else if from[i] == v then Some(to[i])
    else LookupFrom(from, to, v, i + 1)
  }

  /** A lookup answers with the entry paired with the first match. */
  lemma LookupIsFind(from: seq<string>, to: seq<string>, v: string)
    requires |from| == |to|
    ensures Find(from, v).None? ==> Lookup(from, to, v) == None
    ensures Find(from, v).Some? ==> Lookup(from, to, v) == Some(to[Find(from, v).value])
  {
    LookupFromIsFind(from, to, v, 0);
    assert from[0..] == from;
  }

  /** The scan from index `i` finds what `Find` finds in the tail from `i`. */
  lemma {:induction false} LookupFromIsFind(from: seq<string>, to: seq<string>, v: string, i: nat)
    requires |from| == |to| && i <= |from|
    ensures Find(from[i..], v).None? ==> LookupFrom(from, to, v, i) == None
    ensures Find(from[i..], v).Some? ==> LookupFrom(from, to, v, i) == Some(to[i + Find(from[i..], v).value])
    decreases |from| - i
  {
    if i < |from| && from[i] != v {
      assert from[i..][0] == from[i];
      assert from[i..][1..] == from[i + 1..];
      LookupFromIsFind(from, to, v, i + 1);
    }
  }

  /**
   * The scan `for (l = 0; l < from.length; l++) if (v.equals(from[l]))
   * { … to[l] …; break; }`.
   */
  method ScanTable(from: seq<string>, to: seq<string>, v: string) returns (r: Option<string>)
    requires |from| == |to|
    ensures r == Lookup(from, to, v)
  {
    var l := 0;
    while l < |from|
      invariant 0 <= l <= |from|
      invariant Lookup(from, to, v) == LookupFrom(from, to, v, l)
    {
      if v == from[l] {
        return Some(to[l]);
      }
      l := l + 1;
    }
    return None;
  }

  /** An entry with no equal entry before it is the one a scan finds. */
  lemma {:induction false} FindAt(t: seq<string>, v: string, k: nat)
    requires k < |t| && t[k] == v && v !in t[..k]
    ensures Find(t, v) == Some(k)
  {
    if k > 0 {
      assert t[0] == t[..k][0];
      assert t[1..][..k - 1] == t[..k][1..];
      FindAt(t[1..], v, k - 1);
    }
  }

  /** Searching a concatenation finds an entry of the first part there. */
  lemma {:induction false} FindInFront(a: seq<string>, b: seq<string>, v: string)
    requires v in a
    ensures Find(a + b, v) == Find(a, v)
  {
    assert (a + b)[0] == a[0];
    if a[0] != v {
      assert (a + b)[1..] == a[1..] + b;
      FindInFront(a[1..], b, v);
    }
  }

  /** An entry found in the second part of a concatenation, and absent from the first. */
  lemma FindPastFront(a: seq<string>, b: seq<string>, v: string, k: nat)
    requires v !in a && Find(b, v) == Some(k)
    ensures Find(a + b, v) == Some(|a| + k)
  {
    assert (a + b)[..|a| + k] == a + b[..k];
    FindAt(a + b, v, |a| + k);
  }

  /** Both tables have 87 entries, so an index found in one is valid in the other. */
  lemma TablesAligned()
    ensures |HankakuKatakana| == |ZenkakuKatakana| == 87
  {
  }

  /*
   * The first characters of each row of the half-width table lie in a
   * narrow range; a string starting outside a row's range is not in it.
   */

  lemma Firsts1()
    ensures forall k :: 0 <= k < |HankakuLine1| ==>
      HankakuLine1[k] != [] && '\U{FF67}' <= HankakuLine1[k][0] <= '\U{FF77}'
  {
  }

  lemma Firsts2()
    ensures forall k :: 0 <= k < |HankakuLine2| ==>
      HankakuLine2[k] != [] && '\U{FF78}' <= HankakuLine2[k][0] <= '\U{FF7E}'
  {
  }

  lemma Firsts3()
    ensures forall k :: 0 <= k < |HankakuLine3| ==>
      HankakuLine3[k] != [] && '\U{FF6F}' <= HankakuLine3[k][0] <= '\U{FF84}'
  {
  }

  lemma Firsts4()
    ensures forall k :: 0 <= k < |HankakuLine4| ==>
      HankakuLine4[k] != [] && '\U{FF84}' <= HankakuLine4[k][0] <= '\U{FF8C}'
  {
  }

  /** Row 5 holds the ASCII full stop; its other entries start in ﾌ..ﾒ. */
  lemma Firsts5()
    ensures forall k :: 0 <= k < |HankakuLine5| ==>
      HankakuLine5[k] == "." || (HankakuLine5[k] != [] && '\U{FF8C}' <= HankakuLine5[k][0] <= '\U{FF92}')
  {
  }

  lemma Firsts6()
    ensures forall k :: 0 <= k < |HankakuLine6| ==>
      HankakuLine6[k] != [] && '\U{FF6C}' <= HankakuLine6[k][0] <= '\U{FF9C}'
  {
  }

  lemma Firsts7()
    ensures forall k :: 0 <= k < |HankakuLine7| ==>
      HankakuLine7[k] != [] && '\U{FF66}' <= HankakuLine7[k][0] <= '\U{FF9D}'
  {
  }

  /** A string whose first character is outside the range of a row's first characters. */
  lemma NotInByFirst(line: seq<string>, v: string, lo: char, hi: char)
    requires forall k :: 0 <= k < |line| ==> line[k] != [] && lo <= line[k][0] <= hi
    requires v != [] && (v[0] < lo || hi < v[0])
    ensures v !in line
  {
  }

  /** Rows 1 to 5, where no entry starts with ﾜ. */
  const BeforeWa: seq<string> := HankakuLine1 + HankakuLine2 + HankakuLine3 + HankakuLine4 + HankakuLine5

  /*
   * First match wins: the half-width forms listed twice (ﾜ at 78 and 79, ｲ at
   * 3 and 80, ｴ at 7 and 81, ｶ at 10 and 85, ｹ at 16 and 86) always resolve
   * to the earlier entry, so ヮ, ヰ, ヱ, ヵ and ヶ never come out of the
   * half-width tables.
   */

  /** ﾜ starts no entry of rows 1 to 5. */
  lemma WaNotBefore(v: string)
    requires v == "\U{FF9C}"
    ensures v !in BeforeWa
  {
    Firsts1(); Firsts2(); Firsts3(); Firsts4(); Firsts5();
    NotInByFirst(HankakuLine1, v, '\U{FF67}', '\U{FF77}');
    NotInByFirst(HankakuLine2, v, '\U{FF78}', '\U{FF7E}');
    NotInByFirst(HankakuLine3, v, '\U{FF6F}', '\U{FF84}');
    NotInByFirst(HankakuLine4, v, '\U{FF84}', '\U{FF8C}');
    assert v !in HankakuLine5;
  }

  /** The search for ﾜ stops at its first entry in row 6, index 78 of the table. */
  lemma WaFound(v: string)
    requires v == "\U{FF9C}"
    ensures Find(HankakuKatakana, v) == Some(78)
  {
    WaNotBefore(v);
    FindAt(HankakuLine6, v, 12);
    FindPastFront(BeforeWa, HankakuLine6, v, 12);
    FindInFront(BeforeWa + HankakuLine6, HankakuLine7, v);
  }

  /** An entry of rows 1 and 2 is found there, whatever the later rows hold. */
  lemma FindInFirstRows(v: string)
    requires v in HankakuLine1 + HankakuLine2
    ensures Find(HankakuKatakana, v) == Find(HankakuLine1 + HankakuLine2, v)
  {
    var t2 := HankakuLine1 + HankakuLine2;
    var t3 := t2 + HankakuLine3;
    var t4 := t3 + HankakuLine4;
    var t5 := t4 + HankakuLine5;
    var t6 := t5 + HankakuLine6;
    FindInFront(t2, HankakuLine3, v);
    FindInFront(t3, HankakuLine4, v);
    FindInFront(t4, HankakuLine5, v);
    FindInFront(t5, HankakuLine6, v);
    FindInFront(t6, HankakuLine7, v);
  }

  /** An entry of row 1 at index `k`, with no equal entry before it, is found at `k`. */
  lemma FindInFirstRow(v: string, k: nat)
    requires k < |HankakuLine1| && HankakuLine1[k] == v && v !in HankakuLine1[..k]
    ensures Find(HankakuKatakana, v) == Some(k)
  {
    FindAt(HankakuLine1, v, k);
    FindInFront(HankakuLine1, HankakuLine2, v);
    FindInFirstRows(v);
  }

  /** The half-width forms listed twice, and the full-width entries paired with them. */
  lemma RepeatedHankaku()
    ensures HankakuKatakana[79] == HankakuKatakana[78] == "\U{FF9C}"
    ensures HankakuKatakana[80] == HankakuKatakana[3] == "\U{FF72}"
    ensures HankakuKatakana[81] == HankakuKatakana[7] == "\U{FF74}"
    ensures HankakuKatakana[85] == HankakuKatakana[10] == "\U{FF76}"
    ensures HankakuKatakana[86] == HankakuKatakana[16] == "\U{FF79}"
  {
  }

  /** The full-width partners of the repeated half-width forms are all different. */
  lemma PairedZenkaku()
    ensures ZenkakuKatakana[78] == "\U{30EF}" && ZenkakuKatakana[79] == "\U{30EE}"
    ensures ZenkakuKatakana[3] == "\U{30A4}" && ZenkakuKatakana[80] == "\U{30F0}"
    ensures ZenkakuKatakana[7] == "\U{30A8}" && ZenkakuKatakana[81] == "\U{30F1}"
    ensures ZenkakuKatakana[10] == "\U{30AB}" && ZenkakuKatakana[85] == "\U{30F5}"
    ensures ZenkakuKatakana[16] == "\U{30B1}" && ZenkakuKatakana[86] == "\U{30F6}"
  {
  }

  /** Searching for ｹ passes row 1 and stops at index 2 of row 2. */
  lemma KeFound(v: string)
    requires v == "\U{FF79}"
    ensures Find(HankakuKatakana, v) == Some(16)
  {
    Firsts1();
    NotInByFirst(HankakuLine1, v, '\U{FF67}', '\U{FF77}');
    FindAt(HankakuLine2, v, 2);
    FindPastFront(HankakuLine1, HankakuLine2, v, 2);
    FindInFirstRows(v);
  }

  /** Entries 1 and 11 of both tables: ｱ with ア, ｶﾞ with ガ. */
  lemma EntryOne()
    ensures HankakuKatakana[1] == "\U{FF71}" && ZenkakuKatakana[1] == "\U{30A2}"
  {
  }

  /** Entry 11 pairs ｶﾞ with ガ. */
  lemma EntryEleven()
    ensures HankakuKatakana[11] == "\U{FF76}\U{FF9E}" && ZenkakuKatakana[11] == "\U{30AC}"
  {
  }

  /** ｶﾞ is entry 11 of the half-width table, ｱ entry 1. */
  lemma VoicedKaFound(v: string)
    requires v == "\U{FF76}\U{FF9E}"
    ensures Find(HankakuKatakana, v) == Some(11)
  {
    FindInFirstRow(v, 11);
  }

  /** ｱ is first found at index 1. */
  lemma AFound(v: string)
    requires v == "\U{FF71}"
    ensures Find(HankakuKatakana, v) == Some(1)
  {
    FindInFirstRow(v, 1);
  }

  /** ガ is entry 11 of the full-width table. */
  lemma GaFound(v: string)
    requires v == "\U{30AC}"
    ensures Find(ZenkakuKatakana, v) == Some(11)
  {
    FindInFirstZenkakuRow(v, 11);
  }

  /** ﾜ appears at 78 and 79; the scan stops at 78, whose partner is ワ, not ヮ. */
  lemma WaResolvesToWa(v: string)
    requires v == "\U{FF9C}"
    ensures HankakuKatakana[79] == HankakuKatakana[78] == v
    ensures Find(HankakuKatakana, v) == Some(78)
    ensures ZenkakuKatakana[78] == "\U{30EF}" && ZenkakuKatakana[79] == "\U{30EE}"
  {
    RepeatedHankaku();
    PairedZenkaku();
    WaFound(v);
  }

  /** The same for the full-width table: an entry of row 1 is found where it first occurs. */
  lemma FindInFirstZenkakuRow(v: string, k: nat)
    requires k < |ZenkakuLine1| && ZenkakuLine1[k] == v && v !in ZenkakuLine1[..k]
    ensures Find(ZenkakuKatakana, v) == Some(k)
  {
    var t2 := ZenkakuLine1 + ZenkakuLine2;
    var t3 := t2 + ZenkakuLine3;
    var t4 := t3 + ZenkakuLine4;
    var t5 := t4 + ZenkakuLine5;
    var t6 := t5 + ZenkakuLine6;
    FindAt(ZenkakuLine1, v, k);
    FindInFront(ZenkakuLine1, ZenkakuLine2, v);
    FindInFront(t2, ZenkakuLine3, v);
    FindInFront(t3, ZenkakuLine4, v);
    FindInFront(t4, ZenkakuLine5, v);
    FindInFront(t5, ZenkakuLine6, v);
    FindInFront(t6, ZenkakuLine7, v);
  }

  /** ｲ appears at 3 and 80; the scan stops at 3, whose partner is イ, not ヰ. */
  lemma IResolvesToI(v: string)
    requires v == "\U{FF72}"
    ensures HankakuKatakana[80] == HankakuKatakana[3] == v
    ensures Find(HankakuKatakana, v) == Some(3)
    ensures ZenkakuKatakana[3] == "\U{30A4}" && ZenkakuKatakana[80] == "\U{30F0}"
  {
    RepeatedHankaku();
    PairedZenkaku();
    FindInFirstRow(v, 3);
  }

  /** ｴ appears at 7 and 81; the scan stops at 7, whose partner is エ, not ヱ. */
  lemma EResolvesToE(v: string)
    requires v == "\U{FF74}"
    ensures HankakuKatakana[81] == HankakuKatakana[7] == v
    ensures Find(HankakuKatakana, v) == Some(7)
    ensures ZenkakuKatakana[7] == "\U{30A8}" && ZenkakuKatakana[81] == "\U{30F1}"
  {
    RepeatedHankaku();
    PairedZenkaku();
    FindInFirstRow(v, 7);
  }

  /** ｶ appears at 10 and 85; the scan stops at 10, whose partner is カ, not ヵ. */
  lemma KaResolvesToKa(v: string)
    requires v == "\U{FF76}"
    ensures HankakuKatakana[85] == HankakuKatakana[10] == v
    ensures Find(HankakuKatakana, v) == Some(10)
    ensures ZenkakuKatakana[10] == "\U{30AB}" && ZenkakuKatakana[85] == "\U{30F5}"
  {
    RepeatedHankaku();
    PairedZenkaku();
    FindInFirstRow(v, 10);
  }

  /** ｹ appears at 16 and 86; the scan stops at 16, whose partner is ケ, not ヶ. */
  lemma KeResolvesToKe(v: string)
    requires v == "\U{FF79}"
    ensures HankakuKatakana[86] == HankakuKatakana[16] == v
    ensures Find(HankakuKatakana, v) == Some(16)
    ensures ZenkakuKatakana[16] == "\U{30B1}" && ZenkakuKatakana[86] == "\U{30F6}"
  {
    RepeatedHankaku();
    PairedZenkaku();
    KeFound(v);
  }

  /** The voicing marks ﾞ and ﾟ on their own are no entry of the half-width table. */
  lemma MarkNotInTable(m: char)
    requires m == '\U{FF9E}' || m == '\U{FF9F}'
    ensures Find(HankakuKatakana, [m]) == None
  {
    NotInTable([m]);
  }

  /** A single character that no half-width entry starts with is not in the table. */
  lemma NotInTable(v: string)
    requires |v| == 1 && !('\U{FF66}' <= v[0] <= '\U{FF9D}') && v[0] != '.'
    ensures v !in HankakuKatakana
  {
    Firsts1(); Firsts2(); Firsts3(); Firsts4(); Firsts5(); Firsts6(); Firsts7();
    NotInByFirst(HankakuLine1, v, '\U{FF67}', '\U{FF77}');
    NotInByFirst(HankakuLine2, v, '\U{FF78}', '\U{FF7E}');
    NotInByFirst(HankakuLine3, v, '\U{FF6F}', '\U{FF84}');
    NotInByFirst(HankakuLine4, v, '\U{FF84}', '\U{FF8C}');
    assert v != ".";
    NotInByFirst(HankakuLine6, v, '\U{FF6C}', '\U{FF9C}');
    NotInByFirst(HankakuLine7, v, '\U{FF66}', '\U{FF9D}');
  }

  /** Entry 63 pairs the ASCII full stop with the full-width one. */
  lemma Entry63()
    ensures HankakuKatakana[63] == "." && ZenkakuKatakana[63] == "\U{FF0E}"
  {
  }

  /** ｱﾞ is in none of the rows that hold entries starting with ｱ's neighbours. */
  lemma VoicedANotInRows(v: string)
    requires v == "\U{FF71}\U{FF9E}"
    ensures v !in HankakuLine1 && v !in HankakuLine3
  {
  }

  /** ｱﾞ is not in the last two lines of the half-width table either. */
  lemma VoicedANotInLastRows(v: string)
    requires v == "\U{FF71}\U{FF9E}"
    ensures v !in HankakuLine6 && v !in HankakuLine7
  {
  }

  /** ｱ with a voicing mark is no entry: the table has no voiced form of ｱ. */
  lemma VoicedANotInTable(v: string)
    requires v == "\U{FF71}\U{FF9E}"
    ensures v !in HankakuKatakana
  {
    VoicedANotInRows(v);
    VoicedANotInLastRows(v);
    Firsts2(); Firsts4(); Firsts5();
    NotInByFirst(HankakuLine2, v, '\U{FF78}', '\U{FF7E}');
    NotInByFirst(HankakuLine4, v, '\U{FF84}', '\U{FF8C}');
  }

  /*
   * The full-width table lists every character once: its entries run from
   * ァ upwards one code point at a time, except for ． at 63 and the
   * swapped pair ワ, ヮ at 78 and 79.
   */

  /** The code point of full-width entry `j`. */
  function ZenkakuCode(j: nat): (r: char)
    requires j < 87
    ensures j != 63 ==> '\U{30A1}' <= r <= '\U{30F6}'
  {
    if j < 63 then (0x30A1 + j) as char
    else if j == 63 then '\U{FF0E}'
    else if j == 78 then '\U{30EF}'
    else if j == 79 then '\U{30EE}'
    else (0x30A0 + j) as char
  }

  lemma ZenkakuCodes1()
    ensures forall k :: 0 <= k < |ZenkakuLine1| ==> ZenkakuLine1[k] == [ZenkakuCode(k)]
  {
  }

  lemma ZenkakuCodes2()
    ensures forall k :: 0 <= k < |ZenkakuLine2| ==> ZenkakuLine2[k] == [ZenkakuCode(14 + k)]
  {
  }

  lemma ZenkakuCodes3()
    ensures forall k :: 0 <= k < |ZenkakuLine3| ==> ZenkakuLine3[k] == [ZenkakuCode(28 + k)]
  {
  }

  lemma ZenkakuCodes4()
    ensures forall k :: 0 <= k < |ZenkakuLine4| ==> ZenkakuLine4[k] == [ZenkakuCode(42 + k)]
  {
  }

  lemma ZenkakuCodes5()
    ensures forall k :: 0 <= k < |ZenkakuLine5| ==> ZenkakuLine5[k] == [ZenkakuCode(56 + k)]
  {
  }

  lemma ZenkakuCodes6()
    ensures forall k :: 0 <= k < |ZenkakuLine6| ==> ZenkakuLine6[k] == [ZenkakuCode(70 + k)]
  {
  }

  lemma ZenkakuCodes7()
    ensures forall k :: 0 <= k < |ZenkakuLine7| ==> ZenkakuLine7[k] == [ZenkakuCode(84 + k)]
  {
  }

  /** Every full-width entry is the one character ZenkakuCode gives. */
  lemma ZenkakuCodes()
    ensures |ZenkakuKatakana| == 87
    ensures forall j :: 0 <= j < 87 ==> ZenkakuKatakana[j] == [ZenkakuCode(j)]
  {
    ZenkakuCodes1(); ZenkakuCodes2(); ZenkakuCodes3(); ZenkakuCodes4();
    ZenkakuCodes5(); ZenkakuCodes6(); ZenkakuCodes7();
    var t2 := ZenkakuLine1 + ZenkakuLine2;
    var t3 := t2 + ZenkakuLine3;
    var t4 := t3 + ZenkakuLine4;
    var t5 := t4 + ZenkakuLine5;
    var t6 := t5 + ZenkakuLine6;
    assert ZenkakuKatakana == t6 + ZenkakuLine7;
    forall j | 0 <= j < 87
      ensures ZenkakuKatakana[j] == [ZenkakuCode(j)]
    {
      if j < 14 {
        assert ZenkakuKatakana[j] == ZenkakuLine1[j];
      } else if j < 28 {
        assert ZenkakuKatakana[j] == ZenkakuLine2[j - 14];
      } else if j < 42 {
        assert ZenkakuKatakana[j] == ZenkakuLine3[j - 28];
      } else if j < 56 {
        assert ZenkakuKatakana[j] == ZenkakuLine4[j - 42];
      } else if j < 70 {
        assert ZenkakuKatakana[j] == ZenkakuLine5[j - 56];
      } else if j < 84 {
        assert ZenkakuKatakana[j] == ZenkakuLine6[j - 70];
      } else {
        assert ZenkakuKatakana[j] == ZenkakuLine7[j - 84];
      }
    }
  }

  /** A full-width entry is first found at its own index: the table has no repeats. */
  lemma {:induction false} ZenkakuFirst(j: nat)
    requires j < 87
    ensures Find(ZenkakuKatakana, ZenkakuKatakana[j]) == Some(j)
  {
    ZenkakuCodes();
    var v := ZenkakuKatakana[j];
    forall i | 0 <= i < j
      ensures ZenkakuKatakana[..j][i] != v
    {
      assert ZenkakuKatakana[..j][i] == [ZenkakuCode(i)];
      assert ZenkakuCode(i) != ZenkakuCode(j);
    }
    FindAt(ZenkakuKatakana, v, j);
  }

  /**
   * What the half-width scan finds, the full-width scan maps back: a
   * half-width entry `x` gives `w`, and `w` gives `x` again. For any entry
   * but the full stop, `w` is one full-width kana.
   */
  lemma LookupRoundTrip(x: string, w: string)
    requires Lookup(HankakuKatakana, ZenkakuKatakana, x) == Some(w)
    ensures Lookup(ZenkakuKatakana, HankakuKatakana, w) == Some(x)
    ensures x != "." ==> |w| == 1 && '\U{30A1}' <= w[0] <= '\U{30F6}'
  {
    TablesAligned();
    LookupIsFind(HankakuKatakana, ZenkakuKatakana, x);
    var j := Find(HankakuKatakana, x).value;
    assert w == ZenkakuKatakana[j];
    ZenkakuFirst(j);
    LookupIsFind(ZenkakuKatakana, HankakuKatakana, w);
    Entry63();
    ZenkakuCodes();
  }

  /*
   * Every half-width kana but ｰ is an entry of its own; the lemmas below
   * name that entry, a range of codes at a time.
   */

  lemma SingleKanaFF66(c: char)
    requires '\U{FF66}' <= c <= '\U{FF6F}'
    ensures [c] in HankakuKatakana
  {
    TablesAligned();
    if c == '\U{FF66}' {
      assert HankakuKatakana[82] == [c];
    } else if c == '\U{FF67}' {
      assert HankakuKatakana[0] == [c];
    } else if c == '\U{FF68}' {
      assert HankakuKatakana[2] == [c];
    } else if c == '\U{FF69}' {
      assert HankakuKatakana[4] == [c];
    } else if c == '\U{FF6A}' {
      assert HankakuKatakana[6] == [c];
    } else if c == '\U{FF6B}' {
      assert HankakuKatakana[8] == [c];
    } else if c == '\U{FF6C}' {
      assert HankakuKatakana[67] == [c];
    } else if c == '\U{FF6D}' {
      assert HankakuKatakana[69] == [c];
    } else if c == '\U{FF6E}' {
      assert HankakuKatakana[71] == [c];
    } else {
      assert HankakuKatakana[34] == [c];
    }
  }

  lemma SingleKanaFF71(c: char)
    requires '\U{FF71}' <= c <= '\U{FF7A}'
    ensures [c] in HankakuKatakana
  {
    TablesAligned();
    if c == '\U{FF71}' {
      assert HankakuKatakana[1] == [c];
    } else if c == '\U{FF72}' {
      assert HankakuKatakana[3] == [c];
    } else if c == '\U{FF73}' {
      assert HankakuKatakana[5] == [c];
    } else if c == '\U{FF74}' {
      assert HankakuKatakana[7] == [c];
    } else if c == '\U{FF75}' {
      assert HankakuKatakana[9] == [c];
    } else if c == '\U{FF76}' {
      assert HankakuKatakana[10] == [c];
    } else if c == '\U{FF77}' {
      assert HankakuKatakana[12] == [c];
    } else if c == '\U{FF78}' {
      assert HankakuKatakana[14] == [c];
    } else if c == '\U{FF79}' {
      assert HankakuKatakana[16] == [c];
    } else {
      assert HankakuKatakana[18] == [c];
    }
  }

  lemma SingleKanaFF7B(c: char)
    requires '\U{FF7B}' <= c <= '\U{FF84}'
    ensures [c] in HankakuKatakana
  {
    TablesAligned();
    if c == '\U{FF7B}' {
      assert HankakuKatakana[20] == [c];
    } else if c == '\U{FF7C}' {
      assert HankakuKatakana[22] == [c];
    } else if c == '\U{FF7D}' {
      assert HankakuKatakana[24] == [c];
    } else if c == '\U{FF7E}' {
      assert HankakuKatakana[26] == [c];
    } else if c == '\U{FF7F}' {
      assert HankakuKatakana[28] == [c];
    } else if c == '\U{FF80}' {
      assert HankakuKatakana[30] == [c];
    } else if c == '\U{FF81}' {
      assert HankakuKatakana[32] == [c];
    } else if c == '\U{FF82}' {
      assert HankakuKatakana[35] == [c];
    } else if c == '\U{FF83}' {
      assert HankakuKatakana[37] == [c];
    } else {
      assert HankakuKatakana[39] == [c];
    }
  }

  lemma SingleKanaFF85(c: char)
    requires '\U{FF85}' <= c <= '\U{FF8E}'
    ensures [c] in HankakuKatakana
  {
    TablesAligned();
    if c == '\U{FF85}' {
      assert HankakuKatakana[41] == [c];
    } else if c == '\U{FF86}' {
      assert HankakuKatakana[42] == [c];
    } else if c == '\U{FF87}' {
      assert HankakuKatakana[43] == [c];
    } else if c == '\U{FF88}' {
      assert HankakuKatakana[44] == [c];
    } else if c == '\U{FF89}' {
      assert HankakuKatakana[45] == [c];
    } else if c == '\U{FF8A}' {
      assert HankakuKatakana[46] == [c];
    } else if c == '\U{FF8B}' {
      assert HankakuKatakana[49] == [c];
    } else if c == '\U{FF8C}' {
      assert HankakuKatakana[52] == [c];
    } else if c == '\U{FF8D}' {
      assert HankakuKatakana[55] == [c];
    } else {
      assert HankakuKatakana[58] == [c];
    }
  }

  lemma SingleKanaFF8F(c: char)
    requires '\U{FF8F}' <= c <= '\U{FF98}'
    ensures [c] in HankakuKatakana
  {
    TablesAligned();
    if c == '\U{FF8F}' {
      assert HankakuKatakana[61] == [c];
    } else if c == '\U{FF90}' {
      assert HankakuKatakana[62] == [c];
    } else if c == '\U{FF91}' {
      assert HankakuKatakana[64] == [c];
    } else if c == '\U{FF92}' {
      assert HankakuKatakana[65] == [c];
    } else if c == '\U{FF93}' {
      assert HankakuKatakana[66] == [c];
    } else if c == '\U{FF94}' {
      assert HankakuKatakana[68] == [c];
    } else if c == '\U{FF95}' {
      assert HankakuKatakana[70] == [c];
    } else if c == '\U{FF96}' {
      assert HankakuKatakana[72] == [c];
    } else if c == '\U{FF97}' {
      assert HankakuKatakana[73] == [c];
    } else {
      assert HankakuKatakana[74] == [c];
    }
  }

  lemma SingleKanaFF99(c: char)
    requires '\U{FF99}' <= c <= '\U{FF9D}'
    ensures [c] in HankakuKatakana
  {
    TablesAligned();
    if c == '\U{FF99}' {
      assert HankakuKatakana[75] == [c];
    } else if c == '\U{FF9A}' {
      assert HankakuKatakana[76] == [c];
    } else if c == '\U{FF9B}' {
      assert HankakuKatakana[77] == [c];
    } else if c == '\U{FF9C}' {
      assert HankakuKatakana[78] == [c];
    } else {
      assert HankakuKatakana[83] == [c];
    }
  }

  /** Every half-width kana but ｰ is an entry of the half-width table on its own. */
  lemma SingleKanaInTable(c: char)
    requires '\U{FF66}' <= c <= '\U{FF9D}' && c != '\U{FF70}'
    ensures [c] in HankakuKatakana
  {
    if c <= '\U{FF6F}' {
      SingleKanaFF66(c);
    } else if c <= '\U{FF7A}' {
      SingleKanaFF71(c);
    } else if c <= '\U{FF84}' {
      SingleKanaFF7B(c);
    } else if c <= '\U{FF8E}' {
      SingleKanaFF85(c);
    } else if c <= '\U{FF98}' {
      SingleKanaFF8F(c);
    } else {
      SingleKanaFF99(c);
    }
  }

}
