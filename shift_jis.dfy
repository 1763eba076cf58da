/**
 * The Shift_JIS byte walks of the utilities, over the bytes of a text
 * already encoded in Microsoft code page 932 (Shift_JIS as defined in
 * Annex 1 of JIS X 0208:1997, with lead bytes up to 0xFC). A byte is an
 * 8-bit vector compared as unsigned; `Signed` gives the value of a Java
 * `byte`, which some of the walks compare with.
 */
module ShiftJis {
  import opened Text

  type Byte = bv8

  /** The value of a Java `byte` holding `b` (two's complement). */
  function Signed(b: Byte): (r: int)
    ensures -128 <= r < 128
    ensures r % 256 == b as int
  {
    if b < 128 then b as int else b as int - 256
  }

  /** `isLeadByte`: the first byte of a two-byte character. */
  predicate IsLeadByte(b: Byte)
  {
    (0x81 <= b && b <= 0x9F) || (0xE0 <= b && b <= 0xFC)
  }

  /** `isTrailByte`: a valid second byte of a two-byte character. */
  predicate IsTrailByte(b: Byte)
  {
    0x40 <= b && b <= 0xFC && b != 0x7F
  }

  /**
   * The two-byte codes flagged as platform dependent: row 13 (NEC special
   * characters), rows 89 to 92 (NEC-selected IBM extensions) and rows 115
   * to 119 (IBM extensions).
   */
  predicate IsVendorCode(code: int)
  {
    (0x8740 <= code && code <= 0x879E) || (0xED40 <= code && code <= 0xEFFC)
      || (0xFA40 <= code && code <= 0xFC4B)
  }

  /**
   * `(lead << 8) | trail` is `lead * 256 + trail`; computed on 16 bits, as
   * the value of the Java `int` never exceeds 0xFFFF.
   */
  lemma ShiftOrIsCode(lead: Byte, trail: Byte)
    ensures (((lead as bv16) << 8) | (trail as bv16)) as int == lead as int * 256 + trail as int
  {
  }

  /**
   * Whether the walk of `hasMachineCharacters` over `b` meets a lead byte
   * whose trail byte is missing or invalid, or whose code is platform
   * dependent. A lead byte and its trail byte are stepped over together.
   */
  function MachineFrom(b: seq<Byte>): bool
    decreases |b|
  {
    if b == [] then false
    else if IsLeadByte(b[0]) then
      |b| < 2 || !IsTrailByte(b[1]) || IsVendorCode(b[0] as int * 256 + b[1] as int) || MachineFrom(b[2..])
    else MachineFrom(b[1..])
  }

  /** The number of bytes the walks step over at the start of `b`. */
  function StepLength(b: seq<Byte>): (n: nat)
    requires b != []
    ensures 1 <= n <= 2
  {
    if IsLeadByte(b[0]) && |b| >= 2 then 2 else 1
  }

  /**
   * Whether the walks find the start of a character at index `i` of `b`:
   * the first byte is one, and so is every start of what follows the first
   * character, shifted by that character's length.
   */
  predicate IsCharStart(b: seq<Byte>, i: nat)
    decreases |b|
  {
    b != [] &&
      (i == 0 || (i >= StepLength(b) && IsCharStart(b[StepLength(b)..], i - StepLength(b))))
  }

  /** A lead byte at `i` whose trail byte is missing, invalid or forms a platform-dependent code. */
  predicate BadLeadAt(b: seq<Byte>, i: nat)
    requires i < |b|
  {
    IsLeadByte(b[i]) &&
      (i + 1 >= |b| || !IsTrailByte(b[i + 1]) || IsVendorCode(b[i] as int * 256 + b[i + 1] as int))
  }

  /** The walk reports a problem iff some character start is a bad lead byte. */
  lemma {:induction false} MachineIffBadStart(b: seq<Byte>)
    decreases |b|
    ensures MachineFrom(b) <==> exists i: nat :: i < |b| && IsCharStart(b, i) && BadLeadAt(b, i)
  {
    if b != [] {
      var n := StepLength(b);
      var rest := b[n..];
      MachineIffBadStart(rest);
      MachineStep(b);
      if BadLeadAt(b, 0) {
        assert IsCharStart(b, 0);
      } else if MachineFrom(rest) {
        var j: nat :| j < |rest| && IsCharStart(rest, j) && BadLeadAt(rest, j);
        BadLeadShift(b, n, j);
        assert IsCharStart(b, j + n);
      } else {
        forall i: nat | i < |b| && IsCharStart(b, i)
          ensures !BadLeadAt(b, i)
        {
          if i != 0 {
            BadLeadShift(b, n, i - n);
          }
        }
      }
    }
  }

  /** One step of the walk: the first character is bad, or the walk finds a problem later. */
  lemma MachineStep(b: seq<Byte>)
    requires b != []
    ensures MachineFrom(b) <==> BadLeadAt(b, 0) || MachineFrom(b[StepLength(b)..])
  {
  }

  /** A bad lead byte of the rest is a bad lead byte of `b`, `n` places on. */
  lemma BadLeadShift(b: seq<Byte>, n: nat, j: nat)
    requires n <= |b| && j < |b| - n
    ensures BadLeadAt(b[n..], j) <==> BadLeadAt(b, j + n)
  {
    assert b[n..][j] == b[j + n];
    if j + 1 < |b| - n {
      assert b[n..][j + 1] == b[j + n + 1];
    }
  }

  /**
   * `hasMachineCharacters`: false for null or empty input, otherwise whether
   * the walk meets a bad or platform-dependent two-byte character.
   */
  method HasMachineCharacters(str: Option<seq<Byte>>) returns (r: bool)
    ensures r == (str.Some? && MachineFrom(str.value))
  {
    if str.None? || str.value == [] {
      return false;
    }
    var chars := str.value;
    var i := 0;
    while i < |chars|
      invariant 0 <= i <= |chars|
      invariant MachineFrom(chars) == MachineFrom(chars[i..])
    {
      var charByte := chars[i];
      assert chars[i..][1..] == chars[i + 1..];
      if IsLeadByte(charByte) {
        i := i + 1;
        if i >= |chars| {
          return true;
        }
        var charByte2 := chars[i];
        if !IsTrailByte(charByte2) {
          return true;
        }
        assert chars[i - 1..][2..] == chars[i + 1..];
        ShiftOrIsCode(charByte, charByte2);
        var targetChar := (((charByte as bv16) << 8) | (charByte2 as bv16)) as int;
        if 0x8740 <= targetChar && targetChar <= 0x879E {
          return true;
        }
        if 0xED40 <= targetChar && targetChar <= 0xEFFC {
          return true;
        }
        if 0xFA40 <= targetChar && targetChar <= 0xFC4B {
          return true;
        }
      }
      i := i + 1;
    }
    return false;
  }

  /** The bytes `extractionNumber` keeps from `b`: ASCII digits, with each lead byte and its successor skipped. */
  function DigitsFrom(b: seq<Byte>): (r: seq<Byte>)
    decreases |b|
    ensures forall k :: 0 <= k < |r| ==> 0x30 <= r[k] <= 0x39
    ensures |r| <= |b|
  {
    if b == [] then []
    else if IsLeadByte(b[0]) then (if |b| >= 2 then DigitsFrom(b[2..]) else [])
    else if 0x30 <= b[0] <= 0x39 then [b[0]] + DigitsFrom(b[1..])
    else DigitsFrom(b[1..])
  }

  /** `a` is `b` with some elements left out, the rest in order. */
  predicate IsSubsequence(a: seq<Byte>, b: seq<Byte>)
    decreases |b|
  {
    a == [] || (b != [] && ((a[0] == b[0] && IsSubsequence(a[1..], b[1..])) || IsSubsequence(a, b[1..])))
  }

  /** The kept digits appear in the input, in input order. */
  lemma {:induction false} DigitsInOrder(b: seq<Byte>)
    decreases |b|
    ensures IsSubsequence(DigitsFrom(b), b)
  {
    if b != [] {
      if IsLeadByte(b[0]) {
        if |b| >= 2 {
          DigitsInOrder(b[2..]);
          assert b[1..][1..] == b[2..];
          assert IsSubsequence(DigitsFrom(b[2..]), b[1..]);
        }
      } else if 0x30 <= b[0] <= 0x39 {
        DigitsInOrder(b[1..]);
        assert ([b[0]] + DigitsFrom(b[1..]))[1..] == DigitsFrom(b[1..]);
      } else {
        DigitsInOrder(b[1..]);
      }
    }
  }

  /** A digit right after a lead byte is part of that character and is never kept. */
  lemma LeadHidesNextByte(lead: Byte, next: Byte, rest: seq<Byte>)
    requires IsLeadByte(lead)
    ensures DigitsFrom([lead, next] + rest) == DigitsFrom(rest)
  {
    assert ([lead, next] + rest)[2..] == rest;
  }

  /** The ASCII digits of `b`, in order. */
  function AsciiDigits(b: seq<Byte>): seq<Byte>
  {
    if b == [] then []
    else if 0x30 <= b[0] <= 0x39 then [b[0]] + AsciiDigits(b[1..])
    else AsciiDigits(b[1..])
  }

  /** Without lead bytes, extraction keeps exactly the ASCII digits. */
  lemma {:induction false} NoLeadKeepsAllDigits(b: seq<Byte>)
    requires forall k :: 0 <= k < |b| ==> !IsLeadByte(b[k])
    ensures DigitsFrom(b) == AsciiDigits(b)
  {
    if b != [] {
      NoLeadKeepsAllDigits(b[1..]);
    }
  }

  /** The signed comparisons of `extractionNumber` select the unsigned lead-byte ranges. */
  lemma SignedLeadTest(b: Byte)
    ensures ((Signed(b) >= Signed(0x81) && Signed(b) <= Signed(0x9F))
        || (Signed(b) >= Signed(0xE0) && Signed(b) <= Signed(0xFC))) <==> IsLeadByte(b)
    ensures (Signed(b) < 0x30 || Signed(b) > 0x39) <==> !(0x30 <= b <= 0x39)
  {
  }

  /**
   * `extractionNumber`: null and empty input are returned as they are;
   * otherwise the digits the walk keeps.
   */
  method ExtractionNumber(str: Option<seq<Byte>>) returns (r: Option<seq<Byte>>)
    ensures str.None? ==> r == str
    ensures str.Some? ==> r == Some(DigitsFrom(str.value))
  {
    if str.None? || str.value == [] {
      return str;
    }
    var bytes := str.value;
    var os: seq<Byte> := [];
    var i := 0;
    while i < |bytes|
      invariant 0 <= i <= |bytes| + 1
      invariant i <= |bytes| ==> DigitsFrom(bytes) == os + DigitsFrom(bytes[i..])
      invariant i == |bytes| + 1 ==> DigitsFrom(bytes) == os
    {
      var b := bytes[i];
      SignedLeadTest(b);
      assert bytes[i..][1..] == bytes[i + 1..];
      if (Signed(b) >= Signed(0x81) && Signed(b) <= Signed(0x9F))
        || (Signed(b) >= Signed(0xE0) && Signed(b) <= Signed(0xFC))
      {
        if i + 2 <= |bytes| {
          assert bytes[i..][2..] == bytes[i + 2..];
        } else {
          assert os + [] == os;
        }
        i := i + 1;
        i := i + 1;
        continue;
      } else if Signed(b) < 0x30 || Signed(b) > 0x39 {
        i := i + 1;
        continue;
      }
      os := os + [b];
      i := i + 1;
    }
    if i == |bytes| {
      assert bytes[i..] == [];
      assert os + [] == os;
    }
    return Some(os);
  }

  /** Hides the trail byte 0x31 of the invalid pair 0x81 0x31: reported by one walk, dropped by the other. */
  lemma InvalidPairExample()
    ensures MachineFrom([0x81, 0x31])
    ensures DigitsFrom([0x81, 0x31]) == []
  {
    LeadHidesNextByte(0x81, 0x31, []);
    assert [0x81, 0x31] + [] == [0x81 as Byte, 0x31];
  }

  /** A control code: 0x00 to 0x1F as a signed byte, other than tab, line feed and carriage return. */
  predicate IsControlCode(b: Byte)
  {
    Signed(0x00) <= Signed(b) && Signed(b) <= Signed(0x1F) && b != 0x09 && b != 0x0A && b != 0x0D
  }

  /** The signed test selects exactly the unsigned bytes below 0x20 other than 0x09, 0x0A and 0x0D. */
  lemma ControlCodeRange(b: Byte)
    ensures IsControlCode(b) <==> b < 0x20 && b != 0x09 && b != 0x0A && b != 0x0D
  {
  }

  /** `isCtrlCodeChk`: true iff no byte is a control code. */
  method IsCtrlCodeChk(bytes: seq<Byte>) returns (r: bool)
    ensures r <==> forall k :: 0 <= k < |bytes| ==> !IsControlCode(bytes[k])
  {
    for i := 0 to |bytes|
      invariant forall k :: 0 <= k < i ==> !IsControlCode(bytes[k])
    {
      if Signed(0x00) <= Signed(bytes[i]) && Signed(bytes[i]) <= Signed(0x1F)
        && bytes[i] != 0x09 && bytes[i] != 0x0A && bytes[i] != 0x0D
      {
        return false;
      }
    }
    return true;
  }

  /** 円10 in code page 932: the two-byte character is skipped and the digits are kept. */
  lemma YenExample()
    ensures DigitsFrom([0x89, 0x7E, 0x31, 0x30]) == [0x31, 0x30]
    ensures !MachineFrom([0x89, 0x7E, 0x31, 0x30])
  {
    var digits: seq<Byte> := [0x31, 0x30];
    assert digits[1..][1..] == [];
    assert DigitsFrom(digits) == digits && !MachineFrom(digits);
    LeadHidesNextByte(0x89, 0x7E, digits);
    assert [0x89 as Byte, 0x7E] + digits == [0x89, 0x7E, 0x31, 0x30];
  }
}
