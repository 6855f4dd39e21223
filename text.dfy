/** The few string primitives of ECMAScript the application relies on: the white-space
    class shared by `String.prototype.trim` and the regular-expression escape `\s`, the
    line terminators that `.` does not match, ASCII digits (`\d`), the UTF-16 code units a
    JavaScript string consists of, and the code-unit order that `Array.prototype.sort` uses
    on strings. Dafny characters are Unicode scalar values; `Utf16` gives the code units. */
module Text {

  /** LineTerminator: LF, CR, LINE SEPARATOR, PARAGRAPH SEPARATOR. */
  predicate IsLineTerminator(c: char)
  {
    c == '\n' || c == '\r' || c == '\U{2028}' || c == '\U{2029}'
  }

  /** WhiteSpace or LineTerminator: the characters `trim` removes and `\s` matches. */
  predicate IsSpace(c: char)
  {
    c == '\t' || c == '\U{B}' || c == '\U{C}' || c == ' ' || c == '\U{A0}' || c == '\U{1680}'
    || ('\U{2000}' <= c <= '\U{200A}') || c == '\U{202F}' || c == '\U{205F}' || c == '\U{3000}'
    || c == '\U{FEFF}' || IsLineTerminator(c)
  }

  /** `\d`: ASCII digits only. */
  predicate IsDigit(c: char)
  {
    '0' <= c <= '9'
  }

  predicate NoLineTerminator(s: string)
  {
    forall i :: 0 <= i < |s| ==> !IsLineTerminator(s[i])
  }

  /** The end of the run of white space starting at `i` (what a greedy `\s*` consumes). */
  function SpaceEnd(s: string, i: nat): (k: nat)
    requires i <= |s|
    ensures i <= k <= |s|
    ensures forall j :: i <= j < k ==> IsSpace(s[j])
    ensures k == |s| || !IsSpace(s[k])
    decreases |s| - i
  {
    if i < |s| && IsSpace(s[i]) then SpaceEnd(s, i + 1) else i
  }

  /** The start of the run of white space ending just before `i`. */
  function SpaceStart(s: string, i: nat): (k: nat)
    requires i <= |s|
    ensures k <= i
    ensures forall j :: k <= j < i ==> IsSpace(s[j])
    ensures k == 0 || !IsSpace(s[k - 1])
  {
    if i > 0 && IsSpace(s[i - 1]) then SpaceStart(s, i - 1) else i
  }

  /** The end of the run of digits starting at `i` (what a greedy `\d+` consumes). */
  function DigitEnd(s: string, i: nat): (k: nat)
    requires i <= |s|
    ensures i <= k <= |s|
    ensures forall j :: i <= j < k ==> IsDigit(s[j])
    ensures k == |s| || !IsDigit(s[k])
    decreases |s| - i
  {
    if i < |s| && IsDigit(s[i]) then DigitEnd(s, i + 1) else i
  }

  /** `String.prototype.trim`. */
  function Trim(s: string): (r: string)
    ensures r == [] || (!IsSpace(r[0]) && !IsSpace(r[|r| - 1]))
  {
    var t := s[SpaceEnd(s, 0)..];
    t[..SpaceStart(t, |t|)]
  }

  /** Trimming only removes white space from the two ends. */
  lemma TrimIsInfix(s: string)
    ensures exists a: nat, b: nat ::
              && a <= b <= |s| && Trim(s) == s[a..b]
              && (forall j :: 0 <= j < a ==> IsSpace(s[j]))
              && (forall j :: b <= j < |s| ==> IsSpace(s[j]))
  {
    var a := SpaceEnd(s, 0);
    var t := s[a..];
    var e := SpaceStart(t, |t|);
    assert Trim(s) == s[a..a + e];
  }

  /** A string without white space at either end is its own trim. */
  lemma TrimOfTrimmed(s: string)
    requires s == [] || (!IsSpace(s[0]) && !IsSpace(s[|s| - 1]))
    ensures Trim(s) == s
  {
    if s != [] {
      assert SpaceEnd(s, 0) == 0;
      assert s[0..] == s;
      assert SpaceStart(s, |s|) == |s|;
    }
  }

  lemma TrimIdempotent(s: string)
    ensures Trim(Trim(s)) == Trim(s)
  {
    TrimOfTrimmed(Trim(s));
  }

  // ---------------------------------------------------------------- UTF-16

  /** The UTF-16 code units of one character, as `charCodeAt` reads them: the character's own
      value below U+10000, otherwise a high and a low surrogate. */
  function CodeUnits(c: char): (u: seq<int>)
    ensures 1 <= |u| <= 2
    ensures forall k :: 0 <= k < |u| ==> 0 <= u[k] < 0x1_0000
  {
    var n := c as int;
    if n < 0x1_0000 then [n]
    else [0xD800 + (n - 0x1_0000) / 0x400, 0xDC00 + (n - 0x1_0000) % 0x400]
  }

  /** A JavaScript string is the UTF-16 encoding of its characters: `.length`, `charCodeAt`
      and the comparison `<` work on these code units. */
  function Utf16(s: string): seq<int>
  {
    if s == [] then [] else CodeUnits(s[0]) + Utf16(s[1..])
  }

  /** Every code unit is 16 bits wide, and there are at least as many as characters. */
  lemma {:induction false} Utf16Units(s: string)
    ensures |Utf16(s)| >= |s|
    ensures forall k :: 0 <= k < |Utf16(s)| ==> 0 <= Utf16(s)[k] < 0x1_0000
  {
    if s != [] {
      Utf16Units(s[1..]);
      var u, rest := CodeUnits(s[0]), Utf16(s[1..]);
      assert forall k :: |u| <= k < |u| + |rest| ==> (u + rest)[k] == rest[k - |u|];
    }
  }

  predicate IsHighSurrogate(x: int)
  {
    0xD800 <= x < 0xDC00
  }

  predicate IsLowSurrogate(x: int)
  {
    0xDC00 <= x < 0xE000
  }

  /** The character a lone code unit stands for; an unpaired surrogate reads as U+FFFD. */
  function UnitChar(x: int): char
  {
    if 0 <= x < 0xD800 || 0xE000 <= x < 0x11_0000 then x as char else '\U{FFFD}'
  }

  /** The character a surrogate pair stands for. */
  function PairChar(hi: int, lo: int): char
    requires IsHighSurrogate(hi) && IsLowSurrogate(lo)
  {
    (0x1_0000 + (hi - 0xD800) * 0x400 + (lo - 0xDC00)) as char
  }

  /** Reads code units back into characters, pairing surrogates. */
  function FromUtf16(u: seq<int>): string
    decreases |u|
  {
    if u == [] then []
    else if |u| >= 2 && IsHighSurrogate(u[0]) && IsLowSurrogate(u[1]) then [PairChar(u[0], u[1])] + FromUtf16(u[2..])
    else [UnitChar(u[0])] + FromUtf16(u[1..])
  }

  /** Decoding undoes the encoding, so two different strings never have the same code units. */
  lemma {:induction false} FromUtf16OfUtf16(s: string)
    ensures FromUtf16(Utf16(s)) == s
  {
    if s != [] {
      var u, rest := Utf16(s), Utf16(s[1..]);
      var n := s[0] as int;
      FromUtf16OfUtf16(s[1..]);
      if n < 0x1_0000 {
        assert !IsHighSurrogate(n);
        assert u[1..] == rest;
        assert UnitChar(n) == s[0];
      } else {
        assert u[2..] == rest;
        assert PairChar(u[0], u[1]) == s[0];
      }
      assert s == [s[0]] + s[1..];
    }
  }

  lemma Utf16Injective(a: string, b: string)
    requires a != b
    ensures Utf16(a) != Utf16(b)
  {
    FromUtf16OfUtf16(a);
    FromUtf16OfUtf16(b);
  }

  /** Encoding works character by character. */
  lemma {:induction false} Utf16Append(a: string, b: string)
    ensures Utf16(a + b) == Utf16(a) + Utf16(b)
  {
    if a != [] {
      assert (a + b)[1..] == a[1..] + b;
      Utf16Append(a[1..], b);
    } else {
      assert a + b == b;
    }
  }

  lemma Utf16Single(c: char)
    ensures Utf16([c]) == CodeUnits(c)
  {
    assert [c][1..] == [];
  }

  /** A string without characters above U+FFFF has one code unit per character. */
  lemma {:induction false} Utf16Bmp(s: string)
    requires forall i :: 0 <= i < |s| ==> s[i] as int < 0x1_0000
    ensures |Utf16(s)| == |s|
    ensures forall i :: 0 <= i < |s| ==> Utf16(s)[i] == s[i] as int
  {
    if s != [] {
      Utf16Bmp(s[1..]);
    }
  }

  /** An emoji is one character but two code units. */
  lemma Utf16Emoji()
    ensures Utf16("\U{1F600}") == [0xD83D, 0xDE00]
  {
    Utf16Single('\U{1F600}');
  }

  // ---------------------------------------------------------------- string order

  /** The strict order `<` on code-unit sequences: unit by unit, a proper prefix first. */
  predicate UnitsLess(a: seq<int>, b: seq<int>)
    decreases |a|
  {
    if a == [] then b != []
    else if b == [] then false
    else a[0] < b[0] || (a[0] == b[0] && UnitsLess(a[1..], b[1..]))
  }

  /** The order `<` on strings, which `sort()` uses: it compares UTF-16 code units, so a
      character above U+FFFF sorts by its high surrogate. */
  predicate LexLess(a: string, b: string)
  {
    UnitsLess(Utf16(a), Utf16(b))
  }

  lemma {:induction false} UnitsLessIrreflexive(a: seq<int>)
    ensures !UnitsLess(a, a)
    decreases |a|
  {
    if a != [] {
      UnitsLessIrreflexive(a[1..]);
    }
  }

  lemma {:induction false} UnitsLessTransitive(a: seq<int>, b: seq<int>, c: seq<int>)
    requires UnitsLess(a, b) && UnitsLess(b, c)
    ensures UnitsLess(a, c)
    decreases |a|
  {
    if a != [] && b != [] && c != [] && a[0] == b[0] == c[0] {
      UnitsLessTransitive(a[1..], b[1..], c[1..]);
    }
  }

  lemma {:induction false} UnitsLessTotal(a: seq<int>, b: seq<int>)
    requires a != b
    ensures UnitsLess(a, b) || UnitsLess(b, a)
    decreases |a|
  {
    if a != [] && b != [] && a[0] == b[0] {
      assert a == [a[0]] + a[1..] && b == [b[0]] + b[1..];
      UnitsLessTotal(a[1..], b[1..]);
    }
  }

  lemma LexLessIrreflexive(a: string)
    ensures !LexLess(a, a)
  {
    UnitsLessIrreflexive(Utf16(a));
  }

  lemma LexLessTransitive(a: string, b: string, c: string)
    requires LexLess(a, b) && LexLess(b, c)
    ensures LexLess(a, c)
  {
    UnitsLessTransitive(Utf16(a), Utf16(b), Utf16(c));
  }

  /** Distinct strings are ordered, because distinct strings have distinct code units. */
  lemma LexLessTotal(a: string, b: string)
    requires a != b
    ensures LexLess(a, b) || LexLess(b, a)
  {
    Utf16Injective(a, b);
    UnitsLessTotal(Utf16(a), Utf16(b));
  }

  lemma LexLessAsymmetric(a: string, b: string)
    requires LexLess(a, b)
    ensures !LexLess(b, a)
  {
    if LexLess(b, a) {
      LexLessTransitive(a, b, a);
      LexLessIrreflexive(a);
    }
  }

  /** Code-unit order is not code-point order: U+E000 sorts after the emoji U+1F600. */
  lemma SortsBySurrogates()
    ensures LexLess("\U{1F600}", "\U{E000}")
  {
    Utf16Emoji();
    Utf16Single('\U{E000}');
  }
}
