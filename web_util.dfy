/**
 * The arithmetic and formatting helpers of WebAPIUtil: `isDragonYear`,
 * `calcAge`, `convertYenString`, `replaceValue`, `reduceArray` and
 * `reduceString`. A Java `null` is `None`.
 */
module WebUtil {
  import opened Text

  // ---------------------------------------------------------------------
  // isDragonYear
  // ---------------------------------------------------------------------

  /** Java's `%` on `int`: the remainder takes the sign of the dividend. */
  function JavaRem(a: int, b: int): (r: int)
    requires b > 0
    ensures a >= 0 ==> 0 <= r < b
    ensures a < 0 ==> -b < r <= 0
  {
    if a >= 0 then a % b else -((-a) % b)
  }

  /** A Java remainder is zero exactly when the Euclidean one is. */
  lemma JavaRemZero(a: int, b: int)
    requires b > 0
    ensures JavaRem(a, b) == 0 <==> a % b == 0
  {
    if a < 0 {
      var x := -a;
      assert x == b * (x / b) + x % b;
      assert a == b * (a / b) + a % b;
      if x % b == 0 {
        assert a == b * (-(x / b));
        MulMod(-(x / b), b);
      }
      if a % b == 0 {
        assert x == b * (-(a / b));
        MulMod(-(a / b), b);
      }
    }
  }
  /** A multiple of `b` leaves no remainder. */
  lemma MulMod(q: int, b: int)
    requires b > 0
    ensures (b * q) % b == 0
  {
    var m := (b * q) % b;
    var d := (b * q) / b;
    assert b * q == b * d + m;
    assert b * (q - d) == m;
    MulSign(b, q - d);
  }
  /** Multiplying by a non-zero integer moves at least `b` away from zero. */
  lemma MulSign(b: int, e: int)
    requires b > 0
    ensures e >= 1 ==> b * e >= b
    ensures e <= -1 ==> b * e <= -b
  {
    if e >= 1 {
      assert b * e == b + b * (e - 1);
    } else if e <= -1 {
      assert b * e == -b + b * (e + 1);
    }
  }
  /** `isDragonYear(year)`: the leap-year test, written as the source nests it. */
  function IsDragonYear(year: int): (r: bool)
    ensures r <==> year % 4 == 0 && (year % 100 != 0 || year % 400 == 0)
  {
    JavaRemZero(year, 4);
    JavaRemZero(year, 100);
    JavaRemZero(year, 400);
    if JavaRem(year, 4) != 0 then false
    else if JavaRem(year, 100) != 0 then true
    else if JavaRem(year, 400) != 0 then false
    else true
  }

  /** The rule repeats every 400 years. */
  lemma DragonYearCycle(year: int)
    ensures IsDragonYear(year + 400) == IsDragonYear(year)
  {
    assert (year + 400) % 4 == year % 4;
    assert (year + 400) % 100 == year % 100;
    assert (year + 400) % 400 == year % 400;
  }

  /** 2000 and 2024 are leap years; 1900 and 2023 are not. */
  lemma DragonYearExamples()
    ensures IsDragonYear(2000) && IsDragonYear(2024)
    ensures !IsDragonYear(1900) && !IsDragonYear(2023)
  {
  }

  // ---------------------------------------------------------------------
  // calcAge
  // ---------------------------------------------------------------------

  /** Eight ASCII digits: the only date strings this model parses. */
  predicate IsDateDigits(s: string)
  {
    |s| == 8 && forall i :: 0 <= i < |s| ==> IsAsciiDigit(s[i])
  }

  /** Ten to the power `n`. */
  function Pow10(n: nat): (r: nat)
    ensures r >= 1
  {
    if n == 0 then 1 else 10 * Pow10(n - 1)
  }

  /** A digit string is worth less than ten to the power of its length. */
  lemma {:induction false} DecimalBound(s: string)
    requires forall i :: 0 <= i < |s| ==> IsAsciiDigit(s[i])
    ensures DecimalValue(s) < Pow10(|s|)
  {
    if s != [] {
      DecimalBound(s[..|s| - 1]);
    }
  }

  /** Two digit strings make a digit string. */
  lemma DigitsAppend(a: string, b: string)
    requires forall i :: 0 <= i < |a| ==> IsAsciiDigit(a[i])
    requires forall i :: 0 <= i < |b| ==> IsAsciiDigit(b[i])
    ensures forall i :: 0 <= i < |a + b| ==> IsAsciiDigit((a + b)[i])
  {
    forall i | 0 <= i < |a + b| ensures IsAsciiDigit((a + b)[i]) {
      if i >= |a| { assert (a + b)[i] == b[i - |a|]; }
    }
  }

  /** Reading `a + b` reads `a`, shifts it by the length of `b`, and adds `b`. */
  lemma {:induction false} DecimalAppend(a: string, b: string)
    requires forall i :: 0 <= i < |a| ==> IsAsciiDigit(a[i])
    requires forall i :: 0 <= i < |b| ==> IsAsciiDigit(b[i])
    ensures forall i :: 0 <= i < |a + b| ==> IsAsciiDigit((a + b)[i])
    ensures DecimalValue(a + b) == DecimalValue(a) * Pow10(|b|) + DecimalValue(b)
  {
    DigitsAppend(a, b);
    if b == [] {
      assert a + b == a;
    } else {
      var b' := b[..|b| - 1];
      assert (a + b)[..|a + b| - 1] == a + b';
      assert (a + b)[|a + b| - 1] == b[|b| - 1];
      DecimalAppend(a, b');
      var l := b[|b| - 1] as int - '0' as int;
      assert DecimalValue(a + b) == DecimalValue(a + b') * 10 + l;
      ShiftDigit(DecimalValue(a), Pow10(|b'|), DecimalValue(b'), l);
    }
  }

  /** The arithmetic step of `DecimalAppend`. */
  lemma ShiftDigit(x: int, p: int, y: int, l: int)
    ensures (x * p + y) * 10 + l == x * (p * 10) + (y * 10 + l)
  {
  }

  /** An eight-digit date is its year times 10000, plus its month times 100, plus its day. */
  lemma DateFields(s: string)
    requires IsDateDigits(s)
    ensures DecimalValue(s) ==
      DecimalValue(s[..4]) * 10000 + DecimalValue(s[4..6]) * 100 + DecimalValue(s[6..])
    ensures DecimalValue(s[4..6]) < 100 && DecimalValue(s[6..]) < 100
  {
    var y, m, d := s[..4], s[4..6], s[6..];
    SliceDigits(s, 0, 4);
    SliceDigits(s, 4, 6);
    SliceDigits(s, 6, 8);
    assert s[0..4] == y && s[6..8] == d;
    DecimalAppend(y, m);
    assert y + m == s[..6];
    DecimalAppend(s[..6], d);
    assert s[..6] + d == s;
    assert Pow10(|m|) == 100 && Pow10(|d|) == 100;
    DateArithmetic(DecimalValue(y), DecimalValue(m), DecimalValue(d), DecimalValue(s[..6]), DecimalValue(s));
    DecimalBound(m);
    DecimalBound(d);
  }

  /** A slice of a digit string is a digit string. */
  lemma SliceDigits(s: string, a: nat, b: nat)
    requires a <= b <= |s| && forall i :: 0 <= i < |s| ==> IsAsciiDigit(s[i])
    ensures forall i :: 0 <= i < |s[a..b]| ==> IsAsciiDigit(s[a..b][i])
  {
    assert forall i :: 0 <= i < |s[a..b]| ==> s[a..b][i] == s[a + i];
  }

  /** The year, month and day fields combined in two steps of 100. */
  lemma DateArithmetic(y: int, m: int, d: int, v6: int, v: int)
    requires v6 == y * 100 + m && v == v6 * 100 + d
    ensures v == y * 10000 + m * 100 + d
  {
  }

  /**
   * `calcAge(byyyymmdd, yyyymmdd)`: null, "", a length other than 8 or a
   * non-number give null; otherwise the difference of the years, less one
   * while this year's birthday (month, then day) is still ahead.
   */
  function CalcAge(byyyymmdd: Option<string>, yyyymmdd: Option<string>): (r: Option<int>)
    ensures r.Some? <==> (!IsEmpty(byyyymmdd) && !IsEmpty(yyyymmdd) &&
      IsDateDigits(byyyymmdd.value) && IsDateDigits(yyyymmdd.value))
  {
    if IsEmpty(byyyymmdd) || IsEmpty(yyyymmdd) then None
    else if |byyyymmdd.value| != 8 || |yyyymmdd.value| != 8 then None
    else if !IsDateDigits(byyyymmdd.value) || !IsDateDigits(yyyymmdd.value) then None
    else
      var b := byyyymmdd.value;
      var t := yyyymmdd.value;
      var byyyy := DecimalValue(b[..4]);
      var bmm := DecimalValue(b[4..6]);
      var bdd := DecimalValue(b[6..]);
      var yyyy := DecimalValue(t[..4]);
      var mm := DecimalValue(t[4..6]);
      var dd := DecimalValue(t[6..]);
      var ret := yyyy - byyyy;
      var ret' := if mm < bmm then ret - 1 else ret;
      var ret'' := if mm == bmm && dd < bdd then ret' - 1 else ret';
      Some(ret'')
  }

  /**
   * The arithmetic of the age: with months and days below 100, the whole
   * 10000s between the two dates are the years, less one when the month
   * and day come before those of the birth date.
   */
  lemma AgeArithmetic(byear: int, bm: int, bd: int, year: int, m: int, d: int, vb: int, vt: int)
    requires 0 <= bm < 100 && 0 <= bd < 100 && 0 <= m < 100 && 0 <= d < 100
    requires vb == byear * 10000 + bm * 100 + bd && vt == year * 10000 + m * 100 + d
    ensures (vt - vb) / 10000 == (year - byear) - (if m < bm || (m == bm && d < bd) then 1 else 0)
  {
    var rest := (m * 100 + d) - (bm * 100 + bd);
    var q := (year - byear) - (if m < bm || (m == bm && d < bd) then 1 else 0);
    assert rest < 0 <==> (m < bm || (m == bm && d < bd));
    assert q * 10000 <= (year - byear) * 10000 + rest < q * 10000 + 10000;
  }

  /** `calcAge` on two dates of eight digits, in terms of their fields. */
  lemma AgeOfFields(b: string, t: string)
    requires IsDateDigits(b) && IsDateDigits(t)
    ensures var bm, bd := DecimalValue(b[4..6]), DecimalValue(b[6..]);
      var m, d := DecimalValue(t[4..6]), DecimalValue(t[6..]);
      CalcAge(Some(b), Some(t)) == Some((DecimalValue(t[..4]) - DecimalValue(b[..4])) -
        (if m < bm || (m == bm && d < bd) then 1 else 0))
  {
  }

  /**
   * The age is the number of whole 10000s between the two dates read as
   * eight-digit numbers: `(yyyymmdd - byyyymmdd) / 10000`, rounded down.
   */
  lemma AgeIsWholeYears(b: string, t: string)
    requires IsDateDigits(b) && IsDateDigits(t)
    ensures CalcAge(Some(b), Some(t)) == Some((DecimalValue(t) - DecimalValue(b)) / 10000)
  {
    AgeOfFields(b, t);
    DateFields(b);
    DateFields(t);
    AgeArithmetic(DecimalValue(b[..4]), DecimalValue(b[4..6]), DecimalValue(b[6..]),
      DecimalValue(t[..4]), DecimalValue(t[4..6]), DecimalValue(t[6..]), DecimalValue(b), DecimalValue(t));
  }

  // ---------------------------------------------------------------------
  // convertYenString
  // ---------------------------------------------------------------------

  /** Digits grouped in threes from the right, with ',' between groups. */
  function Grouped(i: string): (r: string)
    decreases |i|
  {
    if |i| <= 3 then i else Grouped(i[..|i| - 3]) + "," + i[|i| - 3..]
  }

  /**
   * The left-to-right walk of the source agrees with grouping from the
   * right: when the digits after the first `k` (1 to 3) are a whole number
   * of groups, the first `k` digits form the first group.
   */
  lemma {:induction false} GroupedFront(p: string, k: nat)
    requires 1 <= k <= 3 && k < |p| && (|p| - k) % 3 == 0
    decreases |p|
    ensures Grouped(p) == p[..k] + "," + Grouped(p[k..])
  {
    var n := |p|;
    var q := p[..n - 3];
    assert q[..k] == p[..k];
    if n - k == 3 {
      assert q == p[..k];
      assert p[k..] == p[n - 3..];
    } else {
      GroupedFront(q, k);
      assert p[k..][..|p[k..]| - 3] == q[k..];
      assert p[k..][|p[k..]| - 3..] == p[n - 3..];
    }
  }

  /** One step of the walk: the first group moves from the digits to the text printed so far. */
  lemma FrontStep(acc: string, p: string, k: nat)
    requires 3 < |p| && k == if |p| % 3 == 0 then 3 else |p| % 3
    ensures k <= |p| && |p[k..]| % 3 == 0
    ensures acc + Grouped(p) == acc + p[..k] + "," + Grouped(p[k..])
  {
    GroupedFront(p, k);
  }

  /** The sign, integer part and fraction `convertYenString` cuts a price string into. */
  datatype PriceParts = PriceParts(sign: string, integer: string, fraction: string)

  /** The sign, integer digits and fraction (from the first `.`) of a decimal text. */
  function Parts(s: string): (r: PriceParts)
    requires s != []
    ensures r.sign + r.integer + r.fraction == s
    ensures r.sign == [] || (r.sign == [s[0]] && s[0] == '-')
    ensures '.' !in r.integer
    ensures r.fraction == [] || r.fraction[0] == '.'
  {
    var n := if s[0] == '-' then 1 else 0;
    var i := IndexOf(s[n..], '.');
    var e := if i == -1 then |s| else n + i;
    assert s[..n] + s[n..e] + s[e..] == s;
    assert '.' !in s[n..e] by {
      assert s[n..e] == s[n..][..e - n];
    }
    PriceParts(s[..n], s[n..e], s[e..])
  }

  /** The cut `convertYenString` makes: the sign first, then the fraction from the first '.'. */
  lemma PartsCut(s: string)
    requires s != []
    ensures var body := if s[0] == '-' then s[1..] else s;
      var i := IndexOf(body, '.');
      Parts(s) == PriceParts(if s[0] == '-' then s[..1] else "",
        if i == -1 then body else body[..i], if i == -1 then "" else body[i..])
  {
  }

  /** What `convertYenString` prints for the plain decimal string `s`. */
  function YenText(s: string): string
    requires s != []
  {
    var parts := Parts(s);
    parts.sign + Grouped(parts.integer) + parts.fraction
  }

  /**
   * `convertYenString(price)` on `price.toString()`: null gives null;
   * otherwise the sign, the integer digits in groups of three, then the
   * fraction as it was. The source's `charAt(0)` needs a non-empty string.
   */
  method ConvertYenString(price: Option<string>) returns (r: Option<string>)
    requires price.Some? ==> price.value != []
    ensures price.None? ==> r.None?
    ensures price.Some? ==> r == Some(YenText(price.value))
  {
    if price.None? {
      return None;
    }
    var sFugou := "";
    var sSyousu := "";
    var sbPrice := "";
    var sPrice := price.value;
    ghost var parts := Parts(price.value);
    PartsCut(price.value);
    var cTemp := sPrice[0];
    if cTemp == '-' {
      sFugou := sPrice[..1];
      sPrice := sPrice[1..];
    }
    var iIndex := IndexOf(sPrice, '.');
    if iIndex != -1 {
      sSyousu := sPrice[iIndex..];
      sPrice := sPrice[..iIndex];
    }
    assert sFugou == parts.sign && sPrice == parts.integer && sSyousu == parts.fraction;
    sbPrice := sbPrice + sFugou;
    assert sbPrice == parts.sign;
    sbPrice := AppendGrouped(sbPrice, sPrice);
    sbPrice := sbPrice + sSyousu;
    return Some(sbPrice);
  }

  /**
   * The grouping walk of `convertYenString`: the digits before the first
   * whole group of three, then each group, each followed by ','; the last
   * group closes the text.
   */
  method AppendGrouped(sb0: string, digits: string) returns (sb: string)
    ensures sb == sb0 + Grouped(digits)
  {
    sb := sb0;
    var sPrice := digits;
    if |sPrice| > 3 {
      var iPiriodIndex := |sPrice| % 3;
      if iPiriodIndex != 0 {
        FrontStep(sb, sPrice, iPiriodIndex);
        sb := sb + sPrice[..iPiriodIndex];
        sPrice := sPrice[iPiriodIndex..];
        sb := sb + ",";
      }
      while |sPrice| > 3
        invariant |sPrice| % 3 == 0
        invariant sb0 + Grouped(digits) == sb + Grouped(sPrice)
        decreases |sPrice|
      {
        FrontStep(sb, sPrice, 3);
        sb := sb + sPrice[..3];
        sPrice := sPrice[3..];
        sb := sb + ",";
      }
    }
    sb := sb + sPrice;
  }

  /** Grouping only puts commas between the digits. */
  lemma {:induction false} GroupedUncommas(i: string)
    requires ',' !in i
    decreases |i|
    ensures Without(Grouped(i), ',') == i
  {
    if |i| <= 3 {
      WithoutAbsent(i, ',');
    } else {
      var q := i[..|i| - 3];
      var t := i[|i| - 3..];
      assert ',' !in q && ',' !in t by {
        assert forall k :: 0 <= k < |q| ==> q[k] == i[k];
        assert forall k :: 0 <= k < |t| ==> t[k] == i[|i| - 3 + k];
      }
      GroupedUncommas(q);
      WithoutAppend(Grouped(q) + ",", t, ',');
      WithoutAppend(Grouped(q), ",", ',');
      WithoutAbsent(t, ',');
      assert i == q + t;
    }
  }

  /** Deleting the commas from the printed price gives the price string back. */
  lemma YenUncommas(s: string)
    requires s != [] && ',' !in s
    ensures Without(YenText(s), ',') == s
  {
    var parts := Parts(s);
    assert ',' !in parts.sign && ',' !in parts.integer && ',' !in parts.fraction by {
      assert forall k :: 0 <= k < |parts.sign| ==> parts.sign[k] == s[k];
      assert forall k :: 0 <= k < |parts.integer| ==> parts.integer[k] == s[|parts.sign| + k];
      assert forall k :: 0 <= k < |parts.fraction| ==>
        parts.fraction[k] == s[|parts.sign| + |parts.integer| + k];
    }
    GroupedUncommas(parts.integer);
    WithoutAppend(parts.sign + Grouped(parts.integer), parts.fraction, ',');
    WithoutAppend(parts.sign, Grouped(parts.integer), ',');
    WithoutAbsent(parts.sign, ',');
    WithoutAbsent(parts.fraction, ',');
  }

  /** The groups: the first has one to three digits, every later one exactly three. */
  function Chunks(i: string): (c: seq<string>)
    requires i != []
    decreases |i|
    ensures |c| >= 1 && 1 <= |c[0]| <= 3
    ensures forall k :: 1 <= k < |c| ==> |c[k]| == 3
    ensures Join(c, ",") == Grouped(i)
  {
    if |i| <= 3 then [i]
    else
      var front := Chunks(i[..|i| - 3]);
      JoinSnoc(front, i[|i| - 3..], ',');
      front + [i[|i| - 3..]]
  }

  /** A price with a grouped integer part prints its chunks joined by ','. */
  lemma YenGroups(s: string)
    requires s != [] && Parts(s).integer != []
    ensures YenText(s) == Parts(s).sign + Join(Chunks(Parts(s).integer), ",") + Parts(s).fraction
  {
  }

  /** Without `,` in `s`, deleting `,` changes nothing. */
  lemma {:induction false} WithoutAbsent(s: string, c: char)
    requires c !in s
    ensures Without(s, c) == s
  {
    if s != [] {
      assert s[0] != c;
      WithoutAbsent(s[1..], c);
    }
  }

  /** Deleting a character from a concatenation deletes it from each part. */
  lemma {:induction false} WithoutAppend(a: string, b: string, c: char)
    ensures Without(a + b, c) == Without(a, c) + Without(b, c)
  {
    if a == [] {
      assert a + b == b;
    } else {
      assert (a + b)[0] == a[0];
      assert (a + b)[1..] == a[1..] + b;
      WithoutAppend(a[1..], b, c);
    }
  }

  // ---------------------------------------------------------------------
  // replaceValue
  // ---------------------------------------------------------------------

  /** The HTML entity for each of the five characters `replaceValue` escapes. */
  function Escape(c: char): (r: string)
    ensures r != []
    ensures c == '&' || c == '"' || c == '<' || c == '>' || c == '\'' <==> r[0] == '&'
  {
    match c
    case '&' => "&amp;"
    case '"' => "&quot;"
    case '<' => "&lt;"
    case '>' => "&gt;"
    case '\'' => "&#39;"
    case _ => [c]
  }

  /** One `replace` pass of a character by its entity. */
  function Pass(s: string, x: char, rep: string): string
  {
    ReplaceAll(s, [x], rep)
  }

  /** The passes after the first: `"`, `<`, `>` and `'`. */
  function LaterPasses(s: string): string
  {
    Pass(Pass(Pass(Pass(s, '"', "&quot;"), '<', "&lt;"), '>', "&gt;"), '\'', "&#39;")
  }

  /** The five `replace` passes of `replaceValue`, `&` first. */
  function ReplacePasses(s: string): string
  {
    LaterPasses(Pass(s, '&', "&amp;"))
  }

  /** `replaceValue(inValue)`: null stays null; otherwise the five passes. */
  function ReplaceValue(inValue: Option<string>): (r: Option<string>)
    ensures inValue.None? <==> r.None?
    ensures inValue.Some? ==> r.value == FlatMap(Escape, inValue.value)
  {
    if inValue.None? then inValue
    else
      PassesEscape(inValue.value);
      Some(ReplacePasses(inValue.value))
  }

  /** Each pass works character by character, so the five passes do too. */
  lemma PassesAppend(a: string, b: string)
    ensures ReplacePasses(a + b) == ReplacePasses(a) + ReplacePasses(b)
  {
    var a1 := Pass(a, '&', "&amp;");
    var b1 := Pass(b, '&', "&amp;");
    ReplaceCharAppend(a, b, '&', "&amp;");
    var a2 := Pass(a1, '"', "&quot;");
    var b2 := Pass(b1, '"', "&quot;");
    ReplaceCharAppend(a1, b1, '"', "&quot;");
    var a3 := Pass(a2, '<', "&lt;");
    var b3 := Pass(b2, '<', "&lt;");
    ReplaceCharAppend(a2, b2, '<', "&lt;");
    var a4 := Pass(a3, '>', "&gt;");
    var b4 := Pass(b3, '>', "&gt;");
    ReplaceCharAppend(a3, b3, '>', "&gt;");
    ReplaceCharAppend(a4, b4, '\'', "&#39;");
  }

  /** A pass over one character. */
  lemma PassOne(c: char, x: char, rep: string)
    ensures Pass([c], x, rep) == if c == x then rep else [c]
  {
    assert [c][1..] == [];
    assert ReplaceAll([], [x], rep) == [];
    if c == x {
      assert [x] <= [c] && [c][|[x]|..] == [];
      assert rep + [] == rep;
    } else {
      assert [c][..1] == [c] != [x];
      assert [c] + [] == [c];
    }
  }

  /** A text without `x` goes through its pass unchanged. */
  lemma PassMisses(t: string, x: char, rep: string)
    requires x !in t
    ensures Pass(t, x, rep) == t
  {
    ReplaceAbsent(t, [x], rep);
  }

  /** An entity goes through the later passes unchanged. */
  lemma LaterMiss(t: string)
    requires '"' !in t && '<' !in t && '>' !in t && '\'' !in t
    ensures LaterPasses(t) == t
  {
    PassMisses(t, '"', "&quot;");
    PassMisses(t, '<', "&lt;");
    PassMisses(t, '>', "&gt;");
    PassMisses(t, '\'', "&#39;");
  }

  /** The passes from `<` on leave a text without `<`, `>` and `'` alone. */
  lemma FromLtMiss(t: string)
    requires '<' !in t && '>' !in t && '\'' !in t
    ensures Pass(Pass(Pass(t, '<', "&lt;"), '>', "&gt;"), '\'', "&#39;") == t
  {
    PassMisses(t, '<', "&lt;");
    PassMisses(t, '>', "&gt;");
    PassMisses(t, '\'', "&#39;");
  }

  /** One character goes through the five passes as its entity. */
  lemma PassesChar(c: char)
    ensures ReplacePasses([c]) == Escape(c)
  {
    var s1 := Pass([c], '&', "&amp;");
    PassOne(c, '&', "&amp;");
    if c == '&' {
      LaterMiss(s1);
    } else {
      var s2 := Pass(s1, '"', "&quot;");
      PassOne(c, '"', "&quot;");
      if c == '"' {
        FromLtMiss(s2);
      } else {
        var s3 := Pass(s2, '<', "&lt;");
        PassOne(c, '<', "&lt;");
        var s4 := Pass(s3, '>', "&gt;");
        if c == '<' {
          PassMisses(s3, '>', "&gt;");
          PassMisses(s4, '\'', "&#39;");
        } else {
          PassOne(c, '>', "&gt;");
          PassOne(c, '\'', "&#39;");
          if c == '>' {
            PassMisses(s4, '\'', "&#39;");
          }
        }
      }
    }
  }

  /** The five passes escape every character by its entity. */
  lemma {:induction false} PassesEscape(s: string)
    ensures ReplacePasses(s) == FlatMap(Escape, s)
  {
    if s == [] {
      assert ReplacePasses(s) == [];
    } else {
      assert s == [s[0]] + s[1..];
      PassesAppend([s[0]], s[1..]);
      PassesChar(s[0]);
      PassesEscape(s[1..]);
    }
  }

  /** No `<`, `>`, `"` or `'` is left after escaping. */
  lemma {:induction false} EscapedHasNoSpecials(s: string)
    ensures '<' !in FlatMap(Escape, s) && '>' !in FlatMap(Escape, s)
    ensures '"' !in FlatMap(Escape, s) && '\'' !in FlatMap(Escape, s)
  {
    if s != [] {
      EscapedHasNoSpecials(s[1..]);
      var e := Escape(s[0]);
      assert '<' !in e && '>' !in e && '"' !in e && '\'' !in e;
    }
  }

  /** Decoding the five entities left to right, every other character copied. */
  function Unescape(t: string): string
    decreases |t|
  {
    if t == [] then []
    else if "&amp;" <= t then "&" + Unescape(t[5..])
    else if "&quot;" <= t then "\"" + Unescape(t[6..])
    else if "&lt;" <= t then "<" + Unescape(t[4..])
    else if "&gt;" <= t then ">" + Unescape(t[4..])
    else if "&#39;" <= t then "'" + Unescape(t[5..])
    else [t[0]] + Unescape(t[1..])
  }

  /** Decoding an entity and what follows it. */
  lemma UnescapeStep(c: char, rest: string)
    ensures Unescape(Escape(c) + rest) == [c] + Unescape(rest)
  {
    var e := Escape(c);
    var t := e + rest;
    assert t[|e|..] == rest;
    assert t[..|e|] == e;
    if e[0] != '&' {
      assert t[0] == c && t[1..] == rest;
      assert !("&amp;" <= t) && !("&quot;" <= t) && !("&lt;" <= t) && !("&gt;" <= t) && !("&#39;" <= t);
    } else {
      assert t[0] == '&' && t[1] == e[1];
    }
  }

  /** Decoding the escaped text gives the original back. */
  lemma {:induction false} EscapeRoundTrip(s: string)
    ensures Unescape(FlatMap(Escape, s)) == s
  {
    if s != [] {
      UnescapeStep(s[0], FlatMap(Escape, s[1..]));
      EscapeRoundTrip(s[1..]);
    }
  }

  // ---------------------------------------------------------------------
  // reduceArray and reduceString
  // ---------------------------------------------------------------------

  /**
   * `reduceArray(oldStringArr, maxCount)`: null stays null; otherwise a new
   * array of `maxCount + 1` elements holding the old elements as far as
   * they go and null after them. The source's `new String[maxCount + 1]`
   * throws for `maxCount < -1`.
   */
  method ReduceArray(oldStringArr: array?<Option<string>>, maxCount: int)
    returns (newStringArr: array?<Option<string>>)
    requires oldStringArr != null ==> maxCount >= -1
    ensures oldStringArr == null ==> newStringArr == null
    ensures oldStringArr != null ==> (newStringArr != null && fresh(newStringArr) &&
      newStringArr.Length == maxCount + 1 &&
      forall k :: 0 <= k < newStringArr.Length ==>
        newStringArr[k] == if k < oldStringArr.Length then oldStringArr[k] else None)
  {
    if oldStringArr == null {
      return oldStringArr;
    }
    var maxArrayCount := maxCount;
    if maxArrayCount >= oldStringArr.Length {
      maxArrayCount := oldStringArr.Length - 1;
    }
    newStringArr := new Option<string>[maxCount + 1](_ => None);
    for idx := 0 to maxArrayCount + 1
      invariant forall k :: 0 <= k < newStringArr.Length ==>
        newStringArr[k] == if k < idx then oldStringArr[k] else None
    {
      newStringArr[idx] := oldStringArr[idx];
    }
  }

  /**
   * `reduceString(inputArray, maxCount)`: null and "" come back as they
   * are; otherwise the first `maxCount + 1` pieces of `split(",")` joined
   * by ','. The source indexes past the pieces, and throws, when
   * `maxCount` is not below their number.
   */
  method ReduceString(inputArray: Option<string>, maxCount: int) returns (r: Option<string>)
    requires !IsEmpty(inputArray) ==> maxCount < |JavaSplit(inputArray.value, ',')|
    ensures IsEmpty(inputArray) ==> r == inputArray
    ensures !IsEmpty(inputArray) ==> r == Some(
      if maxCount < 0 then "" else Join(JavaSplit(inputArray.value, ',')[..maxCount + 1], ","))
  {
    if IsEmpty(inputArray) {
      return inputArray;
    }
    var oldStringArr := JavaSplit(inputArray.value, ',');
    var returnString := "";
    var idx := 0;
    while idx <= maxCount
      invariant 0 <= idx <= |oldStringArr|
      invariant idx == 0 || idx <= maxCount + 1
      invariant idx > 0 ==> returnString == Join(oldStringArr[..idx], ",")
      invariant idx == 0 ==> returnString == ""
    {
      JoinNext(oldStringArr, idx, returnString);
      if idx != 0 {
        returnString := returnString + ",";
      }
      returnString := returnString + oldStringArr[idx];
      idx := idx + 1;
    }
    return Some(returnString);
  }

  /** One pass of the reduceString loop: the next piece joins the text built so far. */
  lemma JoinNext(p: seq<string>, idx: nat, acc: string)
    requires idx < |p|
    requires idx > 0 ==> acc == Join(p[..idx], ",")
    requires idx == 0 ==> acc == ""
    ensures (if idx != 0 then acc + "," else acc) + p[idx] == Join(p[..idx + 1], ",")
  {
    if idx != 0 {
      assert p[..idx + 1] == p[..idx] + [p[idx]];
      JoinSnoc(p[..idx], p[idx], ',');
    } else {
      assert p[..1] == [p[0]];
    }
  }

  /** The split pieces of `s` joined again are a prefix of `s`. */
  lemma SplitJoinsToPrefix(s: string, n: nat)
    requires n <= |JavaSplit(s, ',')|
    ensures Join(JavaSplit(s, ',')[..n], ",") <= s
  {
    var pieces := Segments(s, ',');
    SegmentsJoin(s, ',');
    if ',' !in s {
      JoinPrefix([s], n, ',');
      assert Join([s], ",") == s;
    } else {
      var kept := DropTrailingEmpty(pieces);
      assert kept == pieces[..|kept|];
      assert kept[..n] == pieces[..n];
      JoinPrefix(pieces, n, ',');
    }
  }

  /** What `reduceString` returns is a prefix of its input. */
  lemma ReducedIsPrefix(s: string, maxCount: int)
    requires s != [] && maxCount < |JavaSplit(s, ',')|
    ensures (if maxCount < 0 then "" else Join(JavaSplit(s, ',')[..maxCount + 1], ",")) <= s
  {
    if maxCount >= 0 {
      SplitJoinsToPrefix(s, maxCount + 1);
    }
  }
}
