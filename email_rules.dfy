/**
 * The e-mail address rules of WebAPIUtil: the composite check
 * `isEMailInputCheck` and the single rules (`localEmptyChk` … `spaceChk`).
 * Every rule accepts the empty address (null behaves as ""), and each
 * answers true when the address passes.
 *
 * Where the Java code would throw (`substring` with an index the address
 * does not have), the rule requires the input that avoids the throw.
 */
module EmailRules {
  import opened Text

  /** The address before the first '@': `str.substring(0, str.indexOf("@"))`. */
  function LocalPart(s: string): (r: string)
    requires '@' in s
    ensures '@' !in r
    ensures |r| < |s| && r == s[..|r|] && s[|r|] == '@'
  {
    s[..IndexOf(s, '@')]
  }

  /**
   * The address after the first '@': `str.substring(str.indexOf("@") + 1)`.
   * With no '@' the index is -1 and this is the whole address.
   */
  function DomainPart(s: string): (r: string)
    ensures '@' in s ==> s == LocalPart(s) + "@" + r
    ensures '@' !in s ==> r == s
  {
    var i := IndexOf(s, '@');
    assert '@' in s ==> s == s[..i] + "@" + s[i + 1..];
    s[i + 1..]
  }

  // ---------------------------------------------------------------------
  // Rules on the local part. Each takes `substring(0, indexOf("@"))`, so a
  // non-empty address without '@' makes the Java code throw.
  // ---------------------------------------------------------------------

  /** `localEmptyChk`: something stands before the '@'. */
  function LocalEmptyChk(str: string): (ok: bool)
    requires str != [] ==> '@' in str
    ensures ok <==> str == [] || str[0] != '@'
  {
    if str == [] then true
    else
      var local := LocalPart(str);
      assert local != [] ==> local[0] == str[0];
      local != []
  }

  /** `localTopDotChk`: the address does not start with '.'. */
  function LocalTopDotChk(str: string): (ok: bool)
    requires str != [] ==> '@' in str
    ensures ok <==> str == [] || str[0] != '.'
  {
    if str == [] then true
    else
      var local := LocalPart(str);
      assert local != [] ==> local[0] == str[0];
      IndexOf(local, '.') != 0
  }

  /** The first `c` of `t` is its last character. */
  predicate OnlyIsLast(t: string, c: char)
  {
    t != [] && t[|t| - 1] == c && c !in t[..|t| - 1]
  }

  /** `t.indexOf(c) == t.length() - 1` says that the first `c` is the last character. */
  lemma FirstAtEnd(t: string, c: char)
    requires t != []
    ensures IndexOf(t, c) == |t| - 1 <==> OnlyIsLast(t, c)
  {
    if OnlyIsLast(t, c) {
      assert t == t[..|t| - 1] + [c];
    }
  }

  /** `t.indexOf(c) == 0` says that `t` starts with `c`. */
  lemma FirstAtStart(t: string, c: char)
    ensures IndexOf(t, c) == 0 <==> t != [] && t[0] == c
  {
  }

  /**
   * `localLastDotChk` as written: it rejects the local part only when the
   * FIRST '.' in it is the last character, so "a.b." passes.
   */
  function LocalLastDotChk(str: string): (ok: bool)
    requires str != [] ==> '@' in str
    ensures ok <==> str == [] || !OnlyIsLast(LocalPart(str), '.')
  {
    if str == [] then true
    else
      var local := LocalPart(str);
      var len := |local|;
      if len != 0 then
        FirstAtEnd(local, '.');
        IndexOf(local, '.') != len - 1
      else true
  }

  /** The intended `localLastDotChk`: the local part does not end with '.'. */
  function LocalLastDotChkIntended(str: string): (ok: bool)
    requires str != [] ==> '@' in str
    ensures ok <==> str == [] || LocalPart(str) == [] || LocalPart(str)[|LocalPart(str)| - 1] != '.'
  {
    if str == [] then true
    else
      var local := LocalPart(str);
      !(local != [] && local[|local| - 1] == '.')
  }

  /** A local part with two dots, the last at its end, passes as written. */
  lemma LocalLastDotExample()
    ensures LocalLastDotChk("a.b.@x.jp")
    ensures !LocalLastDotChkIntended("a.b.@x.jp")
  {
    var s := "a.b.@x.jp";
    assert IndexOf(s, '@') == 4 by {
      assert s[4] == '@' && '@' !in s[..4];
    }
    assert LocalPart(s) == "a.b.";
    assert "a.b."[..3][1] == '.';
  }

  /** The two rules differ only on a local part with a '.' before its trailing '.'. */
  lemma LocalLastDotDifference(str: string)
    requires str != [] ==> '@' in str
    ensures LocalLastDotChk(str) != LocalLastDotChkIntended(str) <==>
      str != [] && LocalPart(str) != [] && LocalPart(str)[|LocalPart(str)| - 1] == '.'
        && '.' in LocalPart(str)[..|LocalPart(str)| - 1]
  {
  }

  /** `localTopHyphenChk`: the address does not start with '-'. */
  function LocalTopHyphenChk(str: string): (ok: bool)
    requires str != [] ==> '@' in str
    ensures ok <==> str == [] || str[0] != '-'
  {
    if str == [] then true
    else
      var local := LocalPart(str);
      assert local != [] ==> local[0] == str[0];
      IndexOf(local, '-') != 0
  }

  /** `localLeftSquareBracketChk`: no '[' before the first '@'. */
  function LocalLeftSquareBracketChk(str: string): (ok: bool)
    requires str != [] ==> '@' in str
    ensures ok <==> str == [] || forall k :: 0 <= k < IndexOf(str, '@') ==> str[k] != '['
  {
    if str == [] then true
    else
      var local := LocalPart(str);
      assert forall k :: 0 <= k < |local| ==> local[k] == str[k];
      IndexOf(local, '[') < 0
  }

  /** `localRightSquareBracketChk`: no ']' before the first '@'. */
  function LocalRightSquareBracketChk(str: string): (ok: bool)
    requires str != [] ==> '@' in str
    ensures ok <==> str == [] || forall k :: 0 <= k < IndexOf(str, '@') ==> str[k] != ']'
  {
    if str == [] then true
    else
      var local := LocalPart(str);
      assert forall k :: 0 <= k < |local| ==> local[k] == str[k];
      IndexOf(local, ']') < 0
  }

  // ---------------------------------------------------------------------
  // Rules on the domain part, `substring(indexOf("@") + 1)`.
  // ---------------------------------------------------------------------

  /** `domeinEmptyChk`: the first '@' is not the last character. */
  function DomeinEmptyChk(str: string): (ok: bool)
    ensures ok <==> str == [] || IndexOf(str, '@') != |str| - 1
  {
    str == [] || DomainPart(str) != []
  }

  /**
   * `domeinTopDotChk`: the character after the first '@' (the first
   * character when there is none) is not '.'. The code takes
   * `substring(index + 1, index + 2)`, which throws when '@' is last.
   */
  function DomeinTopDotChk(eMail: string): (ok: bool)
    requires eMail == [] || IndexOf(eMail, '@') + 2 <= |eMail|
    ensures ok <==> eMail == [] || DomainPart(eMail)[0] != '.'
  {
    if eMail == [] then true
    else
      var index := IndexOf(eMail, '@');
      var str := eMail[index + 1..index + 2];
      assert str == [DomainPart(eMail)[0]];
      str != "."
  }

  /** `domeinDotChk`: there is a '.' after the first '@'. */
  function DomeinDotChk(eMail: string): (ok: bool)
    ensures ok <==> eMail == [] || exists k :: IndexOf(eMail, '@') < k < |eMail| && eMail[k] == '.'
  {
    if eMail == [] then true
    else
      var moji2 := DomainPart(eMail);
      var index := IndexOf(eMail, '@');
      assert forall k :: 0 <= k < |moji2| ==> moji2[k] == eMail[index + 1 + k];
      assert forall k :: index < k < |eMail| ==> eMail[k] == moji2[k - index - 1];
      IndexOf(moji2, '.') >= 0
  }

  /** `domeinSquareBracketChk`: after the '@', '[' occurs exactly when ']' does. */
  function DomeinSquareBracketChk(str: string): (ok: bool)
    ensures ok <==> str == [] || ('[' in DomainPart(str) <==> ']' in DomainPart(str))
  {
    if str == [] then true
    else
      var moji2 := DomainPart(str);
      if IndexOf(moji2, '[') >= 0 && IndexOf(moji2, ']') < 0 then false
      else if IndexOf(moji2, ']') >= 0 && IndexOf(moji2, '[') < 0 then false
      else true
  }

  /**
   * `domeinSquareBracketTLChk`: when the domain holds both brackets, it
   * starts with '[' and its only ']' is its last character.
   */
  function DomeinSquareBracketTLChk(str: string): (ok: bool)
    ensures ok <==> (str == [] || !('[' in DomainPart(str) && ']' in DomainPart(str)) ||
      (DomainPart(str)[0] == '[' && OnlyIsLast(DomainPart(str), ']')))
  {
    if str == [] then true
    else
      var moji2 := DomainPart(str);
      if IndexOf(moji2, '[') >= 0 && IndexOf(moji2, ']') >= 0 then
        FirstAtStart(moji2, '[');
        FirstAtEnd(moji2, ']');
        !(IndexOf(moji2, '[') != 0 || IndexOf(moji2, ']') != |moji2| - 1)
      else true
  }

  /** The length of the run of ASCII digits that `t` starts with. */
  function DigitRun(t: string): (n: nat)
    ensures n <= |t|
    ensures forall k :: 0 <= k < n ==> IsAsciiDigit(t[k])
    ensures n < |t| ==> !IsAsciiDigit(t[n])
  {
    if t == [] || !IsAsciiDigit(t[0]) then 0 else 1 + DigitRun(t[1..])
  }

  /**
   * The regular expression `(\d{1,3})\.(\d{1,3})\. …` with `n` groups of
   * one to three ASCII digits, matched against the whole of `t` (Java's
   * `String.matches`). A group cannot run into a '.', so each group is the
   * whole run of digits ahead of it.
   */
  predicate MatchesGroups(t: string, n: nat)
    decreases n
  {
    if n == 0 then false
    else
      var k := DigitRun(t);
      1 <= k <= 3 &&
      if n == 1 then k == |t|
      else k < |t| && t[k] == '.' && MatchesGroups(t[k + 1..], n - 1)
  }

  /** One to three ASCII digits. */
  predicate IsDigitGroup(p: string)
  {
    1 <= |p| <= 3 && forall k :: 0 <= k < |p| ==> IsAsciiDigit(p[k])
  }

  /** Cut at every '.', `t` falls into `n` pieces of one to three digits each. */
  predicate IsDigitGroups(t: string, n: nat)
  {
    var pieces := Segments(t, '.');
    |pieces| == n && forall i :: 0 <= i < |pieces| ==> IsDigitGroup(pieces[i])
  }

  /** Without a '.', only a single group can match, and the whole text is it. */
  lemma NoDotGroups(t: string, n: nat)
    requires '.' !in t
    ensures MatchesGroups(t, n) <==> n == 1 && IsDigitGroup(t)
  {
    var k := DigitRun(t);
    if k < |t| {
      assert t[k] != '.';
      assert !IsAsciiDigit(t[k]);
    }
  }

  /** Without a '.', the text is its only piece. */
  lemma NoDotPieces(t: string, n: nat)
    requires '.' !in t
    ensures IsDigitGroups(t, n) <==> n == 1 && IsDigitGroup(t)
  {
    SegmentsFirst(t, '.');
    var pieces := Segments(t, '.');
    assert pieces == [t] && pieces[0] == t;
    if n == 1 && IsDigitGroup(t) {
      assert forall i :: 0 <= i < |pieces| ==> pieces[i] == t;
    }
  }

  /** With a first '.' at `e`, the first group is the text before it. */
  lemma DotGroups(t: string, n: nat, e: nat)
    requires e < |t| && t[e] == '.' && '.' !in t[..e]
    ensures MatchesGroups(t, n) <==>
      n >= 2 && IsDigitGroup(t[..e]) && MatchesGroups(t[e + 1..], n - 1)
  {
    var k := DigitRun(t);
    assert !IsAsciiDigit(t[e]);
    assert k <= e;
    if k < e {
      assert t[k] != '.' by { assert t[k] == t[..e][k]; }
      assert !IsDigitGroup(t[..e]) by { assert t[..e][k] == t[k]; }
    } else {
      assert IsDigitGroup(t[..e]) <==> 1 <= k <= 3 by {
        assert forall j :: 0 <= j < e ==> t[..e][j] == t[j];
      }
    }
  }

  /** Cutting at the first '.' peels one piece off the pieces of `t`. */
  lemma DotPieces(t: string, n: nat, e: nat)
    requires e < |t| && t[e] == '.' && '.' !in t[..e]
    ensures IsDigitGroups(t, n) <==>
      n >= 2 && IsDigitGroup(t[..e]) && IsDigitGroups(t[e + 1..], n - 1)
  {
    SegmentsFirst(t, '.');
    var pieces := Segments(t, '.');
    var rest := Segments(t[e + 1..], '.');
    assert pieces == [t[..e]] + rest;
    assert forall i :: 0 <= i < |rest| ==> rest[i] == pieces[i + 1];
    assert pieces[0] == t[..e];
    if n >= 2 && IsDigitGroup(t[..e]) && IsDigitGroups(t[e + 1..], n - 1) {
      assert forall i :: 1 <= i < |pieces| ==> pieces[i] == rest[i - 1];
    }
  }

  /** The regular expression and the cut-at-dots reading agree. */
  lemma {:induction false} MatchesGroupsIffPieces(t: string, n: nat)
    decreases n
    ensures MatchesGroups(t, n) <==> IsDigitGroups(t, n)
  {
    var e := IndexOf(t, '.');
    if e == -1 {
      NoDotGroups(t, n);
      NoDotPieces(t, n);
    } else {
      DotGroups(t, n, e);
      DotPieces(t, n, e);
      if n >= 2 {
        MatchesGroupsIffPieces(t[e + 1..], n - 1);
      }
    }
  }

  /** `matches("(\\d{1,3})\\.(\\d{1,3})\\.(\\d{1,3})\\.(\\d{1,3})")`. */
  predicate IsDottedQuad(t: string)
  {
    MatchesGroups(t, 4)
  }

  /** The text between the first '[' and the first ']' of the domain. */
  function Bracketed(d: string): (r: string)
    requires '[' in d && ']' in d && IndexOf(d, '[') < IndexOf(d, ']')
    ensures |r| < |d| - 1
  {
    d[IndexOf(d, '[') + 1..IndexOf(d, ']')]
  }

  /**
   * `domeinSquareBracketNumberDotChk`: when the domain holds both brackets,
   * the text between them is four dot-separated groups of one to three
   * digits. The code takes `substring(indexOf("[") + 1, indexOf("]"))`,
   * which throws when the first ']' comes before the first '['.
   */
  function DomeinSquareBracketNumberDotChk(str: string): (ok: bool)
    requires str == [] || !('[' in DomainPart(str) && ']' in DomainPart(str)) ||
      IndexOf(DomainPart(str), '[') < IndexOf(DomainPart(str), ']')
    ensures ok <==> (str == [] || !('[' in DomainPart(str) && ']' in DomainPart(str)) ||
      IsDigitGroups(Bracketed(DomainPart(str)), 4))
  {
    if str == [] then true
    else
      var moji2 := DomainPart(str);
      if IndexOf(moji2, '[') >= 0 && IndexOf(moji2, ']') >= 0 then
        var moji3 := moji2[IndexOf(moji2, '[') + 1..IndexOf(moji2, ']')];
        BracketedQuad(moji2, moji3);
        IsDottedQuad(moji3)
      else true
  }

  /** The text the code cuts out is `Bracketed`, and it matches as it splits. */
  lemma BracketedQuad(d: string, t: string)
    requires '[' in d && ']' in d && IndexOf(d, '[') < IndexOf(d, ']')
    requires t == d[IndexOf(d, '[') + 1..IndexOf(d, ']')]
    ensures t == Bracketed(d) && (IsDottedQuad(t) <==> IsDigitGroups(Bracketed(d), 4))
  {
    MatchesGroupsIffPieces(t, 4);
  }

  /** A run of digits followed by a non-digit is exactly as long as the run. */
  lemma {:induction false} DigitRunOf(p: string, rest: string)
    requires forall k :: 0 <= k < |p| ==> IsAsciiDigit(p[k])
    requires rest == [] || !IsAsciiDigit(rest[0])
    ensures DigitRun(p + rest) == |p|
  {
    if p != [] {
      assert (p + rest)[1..] == p[1..] + rest;
      DigitRunOf(p[1..], rest);
    } else {
      assert p + rest == rest;
    }
  }

  /** A leading group and its '.' are consumed by one step of the match. */
  lemma GroupStep(p: string, rest: string, n: nat)
    requires IsDigitGroup(p) && n >= 2
    ensures MatchesGroups(p + "." + rest, n) == MatchesGroups(rest, n - 1)
  {
    DigitRunOf(p, "." + rest);
    assert p + "." + rest == p + ("." + rest);
    assert (p + "." + rest)[|p| + 1..] == rest;
  }

  /** A group and its '.' in front of text that matches one group fewer. */
  lemma GroupThen(p: string, rest: string, t: string, n: nat)
    requires IsDigitGroup(p) && n >= 2 && MatchesGroups(rest, n - 1)
    requires t == p + "." + rest
    ensures MatchesGroups(t, n)
  {
    GroupStep(p, rest, n);
  }

  /** A single group of digits matches one group. */
  lemma LastGroup(p: string)
    requires IsDigitGroup(p)
    ensures MatchesGroups(p, 1)
  {
    DigitRunOf(p, "");
    assert p + "" == p;
  }

  /** Two groups of one to three digits joined by '.' match two groups. */
  lemma TwoGroups(c: string, d: string)
    requires IsDigitGroup(c) && IsDigitGroup(d)
    ensures MatchesGroups(c + "." + d, 2)
  {
    LastGroup(d);
    GroupThen(c, d, c + "." + d, 2);
  }

  /** Any four groups of one to three digits, joined by '.', match. */
  lemma DottedQuadOfGroups(a: string, b: string, c: string, d: string)
    requires IsDigitGroup(a) && IsDigitGroup(b) && IsDigitGroup(c) && IsDigitGroup(d)
    ensures IsDottedQuad(a + "." + (b + "." + (c + "." + d)))
  {
    TwoGroups(c, d);
    GroupThen(b, c + "." + d, b + "." + (c + "." + d), 3);
    GroupThen(a, b + "." + (c + "." + d), a + "." + (b + "." + (c + "." + d)), 4);
  }

  /** A bracketed address literal is a dotted quad. */
  lemma DottedQuadExample(t: string)
    requires t == "192.168.0.1"
    ensures IsDottedQuad(t)
  {
    assert t == "192" + "." + ("168" + "." + ("0" + "." + "1"));
    DottedQuadOfGroups("192", "168", "0", "1");
  }

  /** After a group and its '.', a single group cannot match: text is left over. */
  lemma GroupThenNoMore(p: string, rest: string)
    requires IsDigitGroup(p)
    ensures !MatchesGroups(p + "." + rest, 1)
  {
    DigitRunOf(p, "." + rest);
    assert p + "." + rest == p + ("." + rest);
  }

  /** Five groups of one to three digits are one too many. */
  lemma TooManyGroups(a: string, b: string, c: string, d: string, e: string)
    requires IsDigitGroup(a) && IsDigitGroup(b) && IsDigitGroup(c) && IsDigitGroup(d) && IsDigitGroup(e)
    ensures !IsDottedQuad(a + "." + (b + "." + (c + "." + (d + "." + e))))
  {
    GroupThenNoMore(d, e);
    GroupStep(c, d + "." + e, 2);
    GroupStep(b, c + "." + (d + "." + e), 3);
    GroupStep(a, b + "." + (c + "." + (d + "." + e)), 4);
  }

  /** Five groups are one too many. */
  lemma FiveGroupsExample(t: string)
    requires t == "1.2.3.4.5"
    ensures !IsDottedQuad(t)
  {
    assert t == "1" + "." + ("2" + "." + ("3" + "." + ("4" + "." + "5")));
    TooManyGroups("1", "2", "3", "4", "5");
  }

  /** A group of four digits is one digit too long. */
  lemma LongGroupExample()
    ensures !IsDottedQuad("1234.1.1.1")
  {
    DigitRunOf("1234", ".1.1.1");
    assert "1234" + ".1.1.1" == "1234.1.1.1";
  }

  /** `commercialChk`: the address holds exactly one '@'. */
  function CommercialChk(eMail: string): (ok: bool)
    ensures ok <==> eMail == [] || multiset(eMail)['@'] == 1
  {
    if eMail == [] then true
    else
      var index := IndexOf(eMail, '@');
      if index < 0 then
        assert multiset(eMail)['@'] == 0;
        false
      else
        var moji1 := eMail[index + 1..];
        assert eMail == eMail[..index] + "@" + moji1;
        assert multiset(eMail[..index])['@'] == 0;
        assert multiset(eMail)['@'] == 1 + multiset(moji1)['@'];
        IndexOf(moji1, '@') < 0
  }

  // ---------------------------------------------------------------------
  // Rules on characters anywhere in the address.
  // ---------------------------------------------------------------------

  /** The common shape of the one-character rules: `str.indexOf(c) >= 0` fails. */
  function Lacks(str: string, c: char): (ok: bool)
    ensures ok <==> c !in str
  {
    str == [] || IndexOf(str, c) < 0
  }

  /** `leftParenthesisChk`. */
  function LeftParenthesisChk(str: string): (ok: bool)
    ensures ok <==> '(' !in str
  {
    Lacks(str, '(')
  }

  /** `rightParenthesisChk`. */
  function RightParenthesisChk(str: string): (ok: bool)
    ensures ok <==> ')' !in str
  {
    Lacks(str, ')')
  }

  /** `lessThanSignChk`. */
  function LessThanSignChk(str: string): (ok: bool)
    ensures ok <==> '<' !in str
  {
    Lacks(str, '<')
  }

  /** `greaterThanSignChk`. */
  function GreaterThanSignChk(str: string): (ok: bool)
    ensures ok <==> '>' !in str
  {
    Lacks(str, '>')
  }

  /** `commaChk`. */
  function CommaChk(str: string): (ok: bool)
    ensures ok <==> ',' !in str
  {
    Lacks(str, ',')
  }

  /** `semicolonChk`. */
  function SemicolonChk(str: string): (ok: bool)
    ensures ok <==> ';' !in str
  {
    Lacks(str, ';')
  }

  /** `colonChk`. */
  function ColonChk(str: string): (ok: bool)
    ensures ok <==> ':' !in str
  {
    Lacks(str, ':')
  }

  /** `yenSignChk`: no backslash (shown as the yen sign in Japanese fonts). */
  function YenSignChk(str: string): (ok: bool)
    ensures ok <==> '\\' !in str
  {
    Lacks(str, '\\')
  }

  /** `singleQuoteChk`. */
  function SingleQuoteChk(eMail: string): (ok: bool)
    ensures ok <==> '\'' !in eMail
  {
    Lacks(eMail, '\'')
  }

  /** `doubleQuotationChk`. */
  function DoubleQuotationChk(eMail: string): (ok: bool)
    ensures ok <==> '"' !in eMail
  {
    Lacks(eMail, '"')
  }

  /** `spaceChk`: no ASCII space. */
  function SpaceChk(str: string): (ok: bool)
    ensures ok <==> ' ' !in str
  {
    Lacks(str, ' ')
  }

  /**
   * `dotChk`: a '.' follows the first '@'. The code takes
   * `substring(indexOf("@"))`, which throws when there is no '@'.
   */
  function DotChk(eMail: string): (ok: bool)
    requires eMail != [] ==> '@' in eMail
    ensures ok <==> eMail == [] || '.' in DomainPart(eMail)
  {
    if eMail == [] then true
    else
      var index := IndexOf(eMail, '@');
      var moji1 := eMail[index..];
      assert moji1 == "@" + DomainPart(eMail);
      IndexOf(moji1, '.') > 0
  }

  /** `dotChk` and `domeinDotChk` agree wherever both can run. */
  lemma DotRulesAgree(eMail: string)
    requires eMail != [] ==> '@' in eMail
    ensures DotChk(eMail) == DomeinDotChk(eMail)
  {
    if eMail != [] {
      var index := IndexOf(eMail, '@');
      var d := DomainPart(eMail);
      if '.' in d {
        var k :| 0 <= k < |d| && d[k] == '.';
        assert eMail[index + 1 + k] == '.';
      }
    }
  }

  /** Two '.' side by side somewhere in `s`. */
  predicate HasDoubleDot(s: string)
  {
    exists k :: 0 <= k < |s| - 1 && s[k] == '.' && s[k + 1] == '.'
  }

  /** `str.indexOf("..") >= 0` is `HasDoubleDot`. */
  lemma DoubleDotFound(s: string)
    ensures IndexOfSub(s, "..") >= 0 <==> HasDoubleDot(s)
  {
    if HasDoubleDot(s) {
      var k :| 0 <= k < |s| - 1 && s[k] == '.' && s[k + 1] == '.';
      assert s[k..k + 2] == "..";
      assert OccursAt(s, "..", k);
    }
    if IndexOfSub(s, "..") >= 0 {
      var k := IndexOfSub(s, "..");
      assert s[k..k + 2] == "..";
      assert s[k] == s[k..k + 2][0] && s[k + 1] == s[k..k + 2][1];
    }
  }

  /** `continueDotChk`: no two '.' side by side anywhere in the address. */
  function ContinueDotChk(str: string): (ok: bool)
    ensures ok <==> !HasDoubleDot(str)
  {
    DoubleDotFound(str);
    str == [] || IndexOfSub(str, "..") < 0
  }

  // ---------------------------------------------------------------------
  // The composite check.
  // ---------------------------------------------------------------------

  /**
   * What `isEMailInputCheck` demands of a non-empty address: a first '@'
   * that is not the first character, no quote of either kind, a '.' after
   * the '@', no second '@', no ".." after the '@', and no '.' right after it.
   */
  predicate WellFormedAddress(s: string)
  {
    IndexOf(s, '@') > 0 && '\'' !in s && '"' !in s &&
    var d := DomainPart(s);
    '.' in d && '@' !in d && !HasDoubleDot(d) && d[0] != '.'
  }

  /**
   * `isEMailInputCheck(eMail, checkflg)`: false when the flag already says
   * false; true for the empty address; otherwise the address must pass
   * the steps below in this order. The '.' found after the '@' guarantees
   * that `substring(index + 1, index + 2)` at the end cannot throw.
   */
  function IsEMailInputCheck(eMail: string, checkflg: bool): (ok: bool)
    ensures ok <==> checkflg && (eMail == [] || WellFormedAddress(eMail))
  {
    if !checkflg then checkflg
    else if eMail == [] then true
    else if IndexOf(eMail, '@') <= 0 then false
    else if IndexOf(eMail, '\'') >= 0 then false
    else if IndexOf(eMail, '"') >= 0 then false
    else
      var index := IndexOf(eMail, '@');
      var moji1 := eMail[index..];
      var moji2 := eMail[index + 1..];
      assert moji1 == "@" + moji2;
      DoubleDotFound(moji2);
      if IndexOf(moji1, '.') <= 0 then false
      else if IndexOf(moji2, '@') >= 0 then false
      else if IndexOfSub(moji2, "..") >= 0 then false
      else
        var str := eMail[index + 1..index + 2];
        assert str == [moji2[0]];
        str != "."
  }

  /**
   * The composite check is the conjunction of the single rules that cover
   * the same ground, taken in an order where each rule's own demand on its
   * input is met by the ones before it.
   */
  lemma EMailCheckIsRules(eMail: string)
    ensures IsEMailInputCheck(eMail, true) <==>
      eMail == [] ||
      ('@' in eMail && LocalEmptyChk(eMail) && SingleQuoteChk(eMail) &&
       DoubleQuotationChk(eMail) && DotChk(eMail) && CommercialChk(eMail) &&
       DomeinTopDotChk(eMail) && ContinueDotChk(DomainPart(eMail)))
  {
    if eMail != [] && '@' in eMail {
      var d := DomainPart(eMail);
      assert eMail == LocalPart(eMail) + "@" + d;
      assert multiset(eMail)['@'] == 1 + multiset(d)['@'] by {
        assert multiset(LocalPart(eMail))['@'] == 0;
      }
    }
  }

  /** The domain of the plain address below. */
  lemma PlainDomain(d: string)
    requires d == "example.jp"
    ensures '.' in d && '@' !in d && !HasDoubleDot(d) && d[0] != '.'
  {
    assert d[7] == '.';
  }

  /**
   * A non-empty local part without '@' or quotes, then '@', then a domain
   * that meets the rules, passes.
   */
  lemma AddressOfParts(l: string, d: string)
    requires l != [] && '@' !in l && '\'' !in l && '"' !in l
    requires '\'' !in d && '"' !in d
    requires '.' in d && '@' !in d && !HasDoubleDot(d) && d[0] != '.'
    ensures IsEMailInputCheck(l + "@" + d, true)
  {
    var s := l + "@" + d;
    assert s[|l|] == '@' && s[..|l|] == l;
    assert IndexOf(s, '@') == |l|;
    assert s[|l| + 1..] == d;
    assert DomainPart(s) == d;
  }

  /** A plain address passes. */
  lemma PlainAddressExample(s: string)
    requires s == "taro@example.jp"
    ensures IsEMailInputCheck(s, true)
  {
    assert s == "taro" + "@" + "example.jp";
    PlainDomain("example.jp");
    AddressOfParts("taro", "example.jp");
  }

  /** An address that starts with its '@' fails. */
  lemma NoLocalPartExample()
    ensures !IsEMailInputCheck("@example.jp", true)
  {
    assert "@example.jp"[0] == '@';
  }

  /** An address whose domain part starts with '.' fails. */
  lemma DotAfterAt(l: string, d: string)
    requires l != [] && '@' !in l && d != [] && d[0] == '.'
    ensures !IsEMailInputCheck(l + "@" + d, true)
  {
    var s := l + "@" + d;
    assert s[|l|] == '@' && s[..|l|] == l;
    assert IndexOf(s, '@') == |l|;
    assert s[|l| + 1..] == d;
    assert s[|l| + 1..|l| + 2] == [d[0]];
  }

  /** An address with a '.' right after its '@' fails. */
  lemma DotAfterAtExample(t: string)
    requires t == "taro@.example.jp"
    ensures !IsEMailInputCheck(t, true)
  {
    assert t == "taro" + "@" + ".example.jp";
    DotAfterAt("taro", ".example.jp");
  }
}
