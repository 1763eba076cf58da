/**
 * The parts of java.lang.String that the utilities rely on, stated as
 * functions on `string` (a `seq<char>`). A Java `null` string is `None`.
 */
module Text {

  datatype Option<+T> = None | Some(value: T)

  /** `isEmpty` of the utilities: null or "". */
  predicate IsEmpty(str: Option<string>)
  {
    str.None? || str.value == []
  }

  /** `s.indexOf(c, from)`: the first index at or after `from` holding `c`, or -1. */
  function IndexOfFrom(s: string, c: char, from: nat): (r: int)
    decreases |s| - from
    ensures r == -1 || (from <= r < |s| && s[r] == c)
    ensures r == -1 ==> forall k :: from <= k < |s| ==> s[k] != c
    ensures r != -1 ==> forall k :: from <= k < r ==> s[k] != c
  {
    if from >= |s| then -1
    else if s[from] == c then from
    else IndexOfFrom(s, c, from + 1)
  }

  /** `s.indexOf(c)`: the first index holding `c`, or -1. */
  function IndexOf(s: string, c: char): (r: int)
    ensures r == -1 <==> c !in s
    ensures r != -1 ==> 0 <= r < |s| && s[r] == c && c !in s[..r]
  {
    var r := IndexOfFrom(s, c, 0);
    assert r != -1 ==> forall k :: 0 <= k < |s[..r]| ==> s[..r][k] != c;
    r
  }

  /** `pat` occurs in `s` at index `k`. */
  predicate OccursAt(s: string, pat: string, k: int)
  {
    0 <= k && k + |pat| <= |s| && s[k..k + |pat|] == pat
  }

  /** `s.indexOf(pat)` for a string pattern: the first index where `pat` occurs, or -1. */
  function IndexOfSub(s: string, pat: string): (r: int)
    decreases |s|
    ensures r == -1 || OccursAt(s, pat, r)
    ensures r == -1 <==> forall k :: !OccursAt(s, pat, k)
    ensures r != -1 ==> forall k :: 0 <= k < r ==> !OccursAt(s, pat, k)
  {
    if |s| < |pat| then -1
    else if s[..|pat|] == pat then 0
    else
      var k := IndexOfSub(s[1..], pat);
      forall j | OccursAt(s, pat, j) && j > 0 ensures OccursAt(s[1..], pat, j - 1) {
        assert s[1..][j - 1..j - 1 + |pat|] == s[j..j + |pat|];
      }
      forall j | OccursAt(s[1..], pat, j) ensures OccursAt(s, pat, j + 1) {
        assert s[1..][j..j + |pat|] == s[j + 1..j + 1 + |pat|];
      }
      if k == -1 then -1 else k + 1
  }

  /**
   * `s.replace(pat, rep)` (and `replaceAll` with a pattern that has no
   * regular-expression metacharacters): every occurrence of `pat`, scanned
   * left to right without overlap, becomes `rep`.
   */
  function ReplaceAll(s: string, pat: string, rep: string): string
    requires pat != []
    decreases |s|
  {
    if s == [] then []
    else if pat <= s then rep + ReplaceAll(s[|pat|..], pat, rep)
    else [s[0]] + ReplaceAll(s[1..], pat, rep)
  }

  /** Replacing a single character works character by character. */
  lemma {:induction false} ReplaceCharAppend(a: string, b: string, c: char, rep: string)
    ensures ReplaceAll(a + b, [c], rep) == ReplaceAll(a, [c], rep) + ReplaceAll(b, [c], rep)
  {
    if a == [] {
      assert a + b == b;
    } else {
      assert (a + b)[1..] == a[1..] + b;
      ReplaceCharAppend(a[1..], b, c, rep);
      if a[0] == c {
        assert [c] <= a + b && [c] <= a;
        assert (a + b)[|[c]|..] == a[1..] + b;
      } else {
        assert !([c] <= a + b) && !([c] <= a);
      }
    }
  }

  /** After replacing `c` by a text without `c`, no `c` is left. */
  lemma {:induction false} ReplaceCharRemoves(s: string, c: char, rep: string)
    requires c !in rep
    ensures c !in ReplaceAll(s, [c], rep)
  {
    if s != [] {
      ReplaceCharRemoves(s[1..], c, rep);
      if s[0] == c {
        assert [c] <= s && s[|[c]|..] == s[1..];
      } else {
        assert !([c] <= s);
      }
    }
  }

  /** Replacing a character that does not occur changes nothing. */
  lemma {:induction false} ReplaceAbsent(s: string, pat: string, rep: string)
    requires pat != [] && pat[0] !in s
    ensures ReplaceAll(s, pat, rep) == s
  {
    if s != [] {
      assert s[0] != pat[0];
      assert !(pat <= s);
      ReplaceAbsent(s[1..], pat, rep);
    }
  }

  /**
   * A text without the first character of `pat` is copied through, and the
   * replacement goes on after it.
   */
  lemma {:induction false} ReplaceSkip(u: string, rest: string, pat: string, rep: string)
    requires pat != [] && pat[0] !in u
    ensures ReplaceAll(u + rest, pat, rep) == u + ReplaceAll(rest, pat, rep)
  {
    if u == [] {
      assert u + rest == rest;
    } else {
      assert (u + rest)[0] == u[0] != pat[0];
      assert !(pat <= u + rest);
      assert (u + rest)[1..] == u[1..] + rest;
      ReplaceSkip(u[1..], rest, pat, rep);
    }
  }

  /** A character in neither the text nor the replacement is not in the result. */
  lemma {:induction false} ReplaceKeepsOut(s: string, pat: string, rep: string, x: char)
    requires pat != [] && x !in s && x !in rep
    decreases |s|
    ensures x !in ReplaceAll(s, pat, rep)
  {
    if s != [] {
      if pat <= s {
        ReplaceKeepsOut(s[|pat|..], pat, rep, x);
      } else {
        ReplaceKeepsOut(s[1..], pat, rep, x);
      }
    }
  }

  /** A pattern holding a character the text lacks never matches, so nothing changes. */
  lemma {:induction false} ReplaceMissing(s: string, pat: string, rep: string, x: char)
    requires pat != [] && x in pat && x !in s
    ensures ReplaceAll(s, pat, rep) == s
  {
    if s != [] {
      ReplaceMissing(s[1..], pat, rep, x);
    }
  }

  /** A text that starts with the pattern: the replacement, then the rest replaced. */
  lemma ReplaceLead(pat: string, rest: string, rep: string)
    requires pat != []
    ensures ReplaceAll(pat + rest, pat, rep) == rep + ReplaceAll(rest, pat, rep)
  {
    assert pat <= pat + rest && (pat + rest)[|pat|..] == rest;
  }

  /**
   * Pieces without the first character of `pat`, joined by `pat`: every
   * separator, and nothing else, is replaced.
   */
  lemma {:induction false} ReplaceJoin(pieces: seq<string>, pat: string, rep: string)
    requires pat != [] && pieces != []
    requires forall i :: 0 <= i < |pieces| ==> pat[0] !in pieces[i]
    ensures ReplaceAll(Join(pieces, pat), pat, rep) == Join(pieces, rep)
    decreases |pieces|
  {
    if |pieces| == 1 {
      ReplaceAbsent(pieces[0], pat, rep);
    } else {
      var rest := Join(pieces[1..], pat);
      assert Join(pieces, pat) == pieces[0] + (pat + rest);
      ReplaceSkip(pieces[0], pat + rest, pat, rep);
      ReplaceLead(pat, rest, rep);
      ReplaceJoin(pieces[1..], pat, rep);
    }
  }

  /** A character in no piece and not in the separator is not in the joined text. */
  lemma {:induction false} JoinLacks(pieces: seq<string>, sep: string, x: char)
    requires x !in sep && forall i :: 0 <= i < |pieces| ==> x !in pieces[i]
    ensures x !in Join(pieces, sep)
    decreases |pieces|
  {
    if |pieces| > 1 {
      JoinLacks(pieces[1..], sep, x);
    }
  }

  /** Every character of `s` that is not `c`, in order. */
  function Without(s: string, c: char): (r: string)
    ensures c !in r
  {
    if s == [] then []
    else if s[0] == c then Without(s[1..], c)
    else [s[0]] + Without(s[1..], c)
  }

  /** Every other character occurs in `Without(s, c)` as often as in `s`. */
  lemma {:induction false} WithoutCounts(s: string, c: char)
    ensures forall x :: x != c ==> multiset(Without(s, c))[x] == multiset(s)[x]
  {
    if s != [] {
      WithoutCounts(s[1..], c);
      assert s == [s[0]] + s[1..];
    }
  }

  /** Replacing one character by the empty string deletes it. */
  lemma {:induction false} ReplaceByEmpty(s: string, c: char)
    ensures ReplaceAll(s, [c], []) == Without(s, c)
  {
    if s != [] {
      ReplaceByEmpty(s[1..], c);
      if s[0] == c {
        assert [c] <= s && s[|[c]|..] == s[1..];
      } else {
        assert !([c] <= s);
      }
    }
  }

  /**
   * The pieces of `s[from..]` between the occurrences of `d`, empty pieces
   * included: there is always one more piece than there are delimiters.
   */
  function SegmentsFrom(s: string, d: char, from: nat): (r: seq<string>)
    requires from <= |s|
    decreases |s| - from
    ensures |r| >= 1
  {
    var e := IndexOfFrom(s, d, from);
    if e == -1 then [s[from..]]
    else [s[from..e]] + SegmentsFrom(s, d, e + 1)
  }

  /** SegmentsFrom when a delimiter follows `from`: the piece before it, then the rest. */
  lemma SegmentsFromNext(s: string, d: char, from: nat)
    requires from <= |s| && IndexOfFrom(s, d, from) != -1
    ensures SegmentsFrom(s, d, from) == [s[from..IndexOfFrom(s, d, from)]] + SegmentsFrom(s, d, IndexOfFrom(s, d, from) + 1)
  {
  }

  /** SegmentsFrom when no delimiter follows `from`: the rest is the last piece. */
  lemma SegmentsFromLast(s: string, d: char, from: nat)
    requires from <= |s| && IndexOfFrom(s, d, from) == -1
    ensures SegmentsFrom(s, d, from) == [s[from..]]
  {
  }

  /** The pieces of `s` between occurrences of `d`, empty ones included. */
  function Segments(s: string, d: char): (r: seq<string>)
    ensures |r| >= 1
  {
    SegmentsFrom(s, d, 0)
  }

  /** The pieces joined again with `sep` between them. */
  function Join(pieces: seq<string>, sep: string): string
  {
    if pieces == [] then []
    else if |pieces| == 1 then pieces[0]
    else pieces[0] + sep + Join(pieces[1..], sep)
  }

  /** Joining a first piece in front of at least one more. */
  lemma JoinCons(p: string, rest: seq<string>, d: char)
    requires rest != []
    ensures Join([p] + rest, [d]) == p + [d] + Join(rest, [d])
  {
    assert ([p] + rest)[1..] == rest;
  }

  /** Joining the pieces of `s[from..]` again gives `s[from..]` back. */
  lemma {:induction false} SegmentsFromJoin(s: string, d: char, from: nat)
    requires from <= |s|
    decreases |s| - from
    ensures Join(SegmentsFrom(s, d, from), [d]) == s[from..]
  {
    var e := IndexOfFrom(s, d, from);
    if e != -1 {
      SegmentsFromNext(s, d, from);
      SegmentsFromJoin(s, d, e + 1);
      JoinCons(s[from..e], SegmentsFrom(s, d, e + 1), d);
      assert s[from..] == s[from..e] + [d] + s[e + 1..];
    } else {
      SegmentsFromLast(s, d, from);
    }
  }

  /** No piece of `s[from..]` holds the delimiter. */
  lemma {:induction false} SegmentsFromApart(s: string, d: char, from: nat)
    requires from <= |s|
    decreases |s| - from
    ensures forall k :: 0 <= k < |SegmentsFrom(s, d, from)| ==> d !in SegmentsFrom(s, d, from)[k]
  {
    var e := IndexOfFrom(s, d, from);
    if e != -1 {
      SegmentsFromNext(s, d, from);
      SegmentsFromApart(s, d, e + 1);
      SliceApart(s, d, from, e);
      ConsApart(s[from..e], SegmentsFrom(s, d, e + 1), d);
    } else {
      SegmentsFromLast(s, d, from);
      SliceApart(s, d, from, |s|);
      assert s[from..|s|] == s[from..];
    }
  }

  /** A slice that avoids `d` position by position does not hold it. */
  lemma SliceApart(s: string, d: char, from: nat, e: nat)
    requires from <= e <= |s| && forall k :: from <= k < e ==> s[k] != d
    ensures d !in s[from..e]
  {
    assert forall k :: 0 <= k < e - from ==> s[from..e][k] == s[from + k];
  }

  /** A first piece without `d` in front of pieces without `d`. */
  lemma ConsApart(first: string, rest: seq<string>, d: char)
    requires d !in first && forall k :: 0 <= k < |rest| ==> d !in rest[k]
    ensures forall k :: 0 <= k < |[first] + rest| ==> d !in ([first] + rest)[k]
  {
    assert forall k :: 1 <= k < |[first] + rest| ==> ([first] + rest)[k] == rest[k - 1];
  }

  /** Splitting at `d` and joining with `d` gives the text back; no piece holds `d`. */
  lemma SegmentsJoin(s: string, d: char)
    ensures Join(Segments(s, d), [d]) == s
    ensures forall k :: 0 <= k < |Segments(s, d)| ==> d !in Segments(s, d)[k]
  {
    SegmentsFromJoin(s, d, 0);
    SegmentsFromApart(s, d, 0);
  }

  /** Joining a prefix of the pieces gives a prefix of the joined text. */
  lemma {:induction false} JoinPrefix(pieces: seq<string>, n: nat, d: char)
    requires n <= |pieces|
    ensures Join(pieces[..n], [d]) <= Join(pieces, [d])
  {
    if n > 0 && |pieces| > 1 {
      if n == 1 {
        assert pieces[..n] == [pieces[0]];
      } else {
        JoinPrefix(pieces[1..], n - 1, d);
        assert pieces[..n][1..] == pieces[1..][..n - 1];
      }
    } else if n > 0 {
      assert pieces[..n] == pieces;
    }
  }

  /** Joining with one more piece at the end. */
  lemma {:induction false} JoinSnoc(pieces: seq<string>, q: string, d: char)
    requires pieces != []
    ensures Join(pieces + [q], [d]) == Join(pieces, [d]) + [d] + q
  {
    if |pieces| == 1 {
      assert (pieces + [q])[1..] == [q];
    } else {
      JoinSnoc(pieces[1..], q, d);
      assert (pieces + [q])[1..] == pieces[1..] + [q];
    }
  }

  /** Dropping the empty pieces at the end. */
  function DropTrailingEmpty(pieces: seq<string>): (r: seq<string>)
    ensures r <= pieces
    ensures r == [] || r[|r| - 1] != []
    ensures forall k :: |r| <= k < |pieces| ==> pieces[k] == []
  {
    if pieces == [] then []
    else if pieces[|pieces| - 1] == [] then DropTrailingEmpty(pieces[..|pieces| - 1])
    else pieces
  }

  /**
   * `s.split(d)` for a one-character delimiter: the text alone when `d` does
   * not occur, otherwise the pieces without the empty ones at the end.
   */
  function JavaSplit(s: string, d: char): seq<string>
  {
    if d !in s then [s] else DropTrailingEmpty(Segments(s, d))
  }

  /** Ten ASCII digits. */
  predicate IsAsciiDigit(c: char)
  {
    '0' <= c <= '9'
  }

  /** The value of a string of ASCII digits, read as a decimal number. */
  function DecimalValue(s: string): (n: nat)
    requires forall i :: 0 <= i < |s| ==> IsAsciiDigit(s[i])
  {
    if s == [] then 0
    else
      assert IsAsciiDigit(s[|s| - 1]);
      DecimalValue(s[..|s| - 1]) * 10 + (s[|s| - 1] as int - '0' as int)
  }

  /** Concatenating the results of `f` over the characters of `s`. */
  function FlatMap(f: char -> string, s: string): string
  {
    if s == [] then [] else f(s[0]) + FlatMap(f, s[1..])
  }

  /** Mapping characters to texts distributes over concatenation. */
  lemma {:induction false} FlatMapAppend(f: char -> string, a: string, b: string)
    ensures FlatMap(f, a + b) == FlatMap(f, a) + FlatMap(f, b)
  {
    if a != [] {
      assert (a + b)[1..] == a[1..] + b;
      FlatMapAppend(f, a[1..], b);
    } else {
      assert a + b == b;
    }
  }

  /** indexOf from `from + j` in `s` is indexOf from `j` in `s[from..]`, moved by `from`. */
  lemma {:induction false} IndexOfFromShift(s: string, c: char, from: nat, j: nat)
    requires from <= |s|
    decreases |s| - from - j
    ensures IndexOfFrom(s, c, from + j) ==
      (if IndexOfFrom(s[from..], c, j) == -1 then -1 else IndexOfFrom(s[from..], c, j) + from)
  {
    if from + j < |s| {
      assert s[from..][j] == s[from + j];
      if s[from + j] != c {
        IndexOfFromShift(s, c, from, j + 1);
      }
    }
  }

  /** The pieces of `s` from `from + j` are the pieces of `s[from..]` from `j`. */
  lemma {:induction false} SegmentsFromShift(s: string, d: char, from: nat, j: nat)
    requires from + j <= |s|
    decreases |s| - from - j
    ensures SegmentsFrom(s, d, from + j) == SegmentsFrom(s[from..], d, j)
  {
    IndexOfFromShift(s, d, from, j);
    var e := IndexOfFrom(s[from..], d, j);
    if e == -1 {
      assert s[from + j..] == s[from..][j..];
    } else {
      assert s[from + j..e + from] == s[from..][j..e];
      SegmentsFromShift(s, d, from, e + 1);
    }
  }

  /** The first piece ends at the first delimiter; the rest are the pieces after it. */
  lemma SegmentsFirst(s: string, d: char)
    ensures IndexOf(s, d) == -1 ==> Segments(s, d) == [s]
    ensures IndexOf(s, d) != -1 ==>
      Segments(s, d) == [s[..IndexOf(s, d)]] + Segments(s[IndexOf(s, d) + 1..], d)
  {
    var e := IndexOf(s, d);
    if e != -1 {
      SegmentsFromShift(s, d, e + 1, 0);
    }
  }
}
