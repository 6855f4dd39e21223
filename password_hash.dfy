/** `hashearContraseña`: the non-cryptographic string hash under which passwords are stored.
    For each character it computes `hash = ((hash << 5) - hash) + charCode`. In ECMAScript `<<`
    first truncates its left operand to a signed 32-bit integer and truncates its result the
    same way, while `- hash` and `+ charCode` are ordinary number arithmetic: the accumulator is
    NOT truncated after the subtraction. The loop runs over the UTF-16 code units of the
    password (`charCodeAt`), so a character above U+FFFF takes two steps. The result is
    rendered with `toString(16)`: lower-case hexadecimal digits, with a leading '-' for a
    negative value. */
module PasswordHash {
  import opened Text

  const TWO_31: int := 0x8000_0000
  const TWO_32: int := 0x1_0000_0000

  /** The bound on one step's growth: |ToInt32(..)| + the largest code unit. */
  const STEP_BOUND: int := TWO_31 + 0x1_0000

  /** ECMAScript ToInt32: the value modulo 2^32, read as two's complement. */
  function ToInt32(x: int): (r: int)
    ensures -TWO_31 <= r < TWO_31
    ensures (x - r) % TWO_32 == 0
  {
    var m := x % TWO_32;
    if m >= TWO_31 then m - TWO_32 else m
  }

  /** One iteration of the loop: `((hash << 5) - hash) + char`, with `char` a code unit. */
  function Step(h: int, unit: int): int
  {
    ToInt32(ToInt32(h) * 32) - h + unit
  }

  /** The accumulator after folding every code unit of `u`, left to right, from 0. */
  function Fold(u: seq<int>): int
  {
    if u == [] then 0 else Step(Fold(u[..|u| - 1]), u[|u| - 1])
  }

  const HEX_DIGITS: string := "0123456789abcdef"

  /** `n.toString(16)` for a non-negative integer. */
  function Hex(n: nat): (r: string)
    ensures |r| >= 1
    ensures forall i :: 0 <= i < |r| ==> r[i] in HEX_DIGITS
  {
    if n < 16 then [HEX_DIGITS[n]] else Hex(n / 16) + [HEX_DIGITS[n % 16]]
  }

  /** `h.toString(16)` for any integer. */
  function Render(h: int): string
  {
    if h < 0 then "-" + Hex(-h) else Hex(h)
  }

  /** `hashearContraseña(p)`: the empty password is "0", any other the rendered fold of its
      code units. */
  function Hash(p: string): string
  {
    if |Utf16(p)| == 0 then "0" else Render(Fold(Utf16(p)))
  }

  /** The loop of `hashearContraseña` over `contraseña.length` code units, proved to compute `Hash`. */
  method HashPassword(p: string) returns (r: string)
    ensures r == Hash(p)
  {
    var units := Utf16(p);
    var hash := 0;
    if |units| == 0 {
      return "0";
    }
    for i := 0 to |units|
      invariant hash == Fold(units[..i])
    {
      assert units[..i + 1][..i] == units[..i];
      hash := ToInt32(ToInt32(hash) * 32) - hash + units[i];
    }
    assert units[..|units|] == units;
    r := Render(hash);
  }

  lemma FoldSnoc(t: seq<int>, unit: int)
    ensures Fold(t + [unit]) == Step(Fold(t), unit)
  {
    assert (t + [unit])[..|t|] == t;
  }

  /** One more character is one loop step below U+10000 and two steps, high then low
      surrogate, above it. */
  lemma FoldCharSnoc(s: string, c: char)
    ensures var h, u := Fold(Utf16(s)), CodeUnits(c);
      Fold(Utf16(s + [c])) == if c as int < 0x1_0000 then Step(h, c as int) else Step(Step(h, u[0]), u[1])
  {
    Utf16Append(s, [c]);
    Utf16Single(c);
    var t, u := Utf16(s), CodeUnits(c);
    if c as int < 0x1_0000 {
      FoldSnoc(t, c as int);
    } else {
      assert t + u == (t + [u[0]]) + [u[1]];
      FoldSnoc(t + [u[0]], u[1]);
      FoldSnoc(t, u[0]);
    }
  }

  /** The early return for the empty password agrees with the loop: every digest is a rendered fold. */
  lemma HashIsRenderedFold(p: string)
    ensures Hash(p) == Render(Fold(Utf16(p)))
  {
  }

  function DigitValue(c: char): nat
  {
    if '0' <= c <= '9' then c as nat - '0' as nat
    else if 'a' <= c <= 'f' then c as nat - 'a' as nat + 10
    else 0
  }

  /** Reads lower-case hexadecimal, the inverse of `Hex`. */
  function ParseHex(s: string): nat
  {
    if s == [] then 0 else ParseHex(s[..|s| - 1]) * 16 + DigitValue(s[|s| - 1])
  }

  function ParseRendered(s: string): int
  {
    if |s| > 0 && s[0] == '-' then -(ParseHex(s[1..]) as int) else ParseHex(s)
  }

  lemma {:induction false} ParseHexOfHex(n: nat)
    ensures ParseHex(Hex(n)) == n
  {
    var r := Hex(n);
    if n < 16 {
      assert r[..|r| - 1] == [];
      DigitValueOfDigit(n);
    } else {
      ParseHexOfHex(n / 16);
      assert r[..|r| - 1] == Hex(n / 16);
      DigitValueOfDigit(n % 16);
      assert ParseHex(r) == ParseHex(Hex(n / 16)) * 16 + n % 16;
    }
  }

  lemma DigitValueOfDigit(d: nat)
    requires d < 16
    ensures DigitValue(HEX_DIGITS[d]) == d
  {
    if d < 10 {
      assert HEX_DIGITS[d] as nat == '0' as nat + d;
    } else {
      assert HEX_DIGITS[d] as nat == 'a' as nat + d - 10;
    }
  }

  lemma HexNotSigned(n: nat)
    ensures Hex(n)[0] != '-'
  {
    assert Hex(n)[0] in HEX_DIGITS;
  }
  lemma RenderRoundTripNonNegative(h: nat)
    ensures ParseRendered(Hex(h)) == h
  {
    HexNotSigned(h);
    ParseHexOfHex(h);
  }
  lemma RenderRoundTripNegative(h: int)
    requires h < 0
    ensures ParseRendered("-" + Hex(-h)) == h
  {
    var s := "-" + Hex(-h);
    assert s[1..] == Hex(-h);
    ParseHexOfHex(-h);
  }
  /** Rendering loses nothing: the digest determines the accumulator. */
  lemma RenderRoundTrip(h: int)
    ensures ParseRendered(Render(h)) == h
  {
    if h < 0 {
      RenderRoundTripNegative(h);
    } else {
      RenderRoundTripNonNegative(h);
    }
  }

  /** Two passwords have the same digest exactly when their folds agree. */
  lemma HashEqualIff(p: string, q: string)
    ensures Hash(p) == Hash(q) <==> Fold(Utf16(p)) == Fold(Utf16(q))
  {
    RenderRoundTrip(Fold(Utf16(p)));
    RenderRoundTrip(Fold(Utf16(q)));
  }

  /** The accumulator grows by at most STEP_BOUND per code unit. */
  lemma {:induction false} FoldBound(u: seq<int>)
    requires forall k :: 0 <= k < |u| ==> 0 <= u[k] < 0x1_0000
    ensures -|u| * STEP_BOUND <= Fold(u) <= |u| * STEP_BOUND
  {
    if u != [] {
      var n := |u|;
      var t := u[..n - 1];
      assert forall k :: 0 <= k < |t| ==> t[k] == u[k];
      FoldBound(t);
      var h := Fold(t);
      assert Fold(u) == Step(h, u[n - 1]);
      StepGrowth(h, u[n - 1]);
      BoundSucc(n - 1);
    }
  }

  lemma BoundSucc(m: nat)
    ensures (m + 1) * STEP_BOUND == m * STEP_BOUND + STEP_BOUND
  {
  }

  lemma StepGrowth(h: int, unit: int)
    requires 0 <= unit < 0x1_0000
    ensures -STEP_BOUND - h <= Step(h, unit) <= STEP_BOUND - h
  {
    var t := ToInt32(ToInt32(h) * 32);
    assert -TWO_31 <= t < TWO_31;
  }

  /** ECMAScript computes the fold with doubles; every accumulator value stays below 2^53
      in magnitude, so the double arithmetic is exact, for passwords of up to 2^20 code units. */
  lemma FoldExactInDoubles(p: string)
    requires |Utf16(p)| <= 0x10_0000
    ensures -0x20_0000_0000_0000 < Fold(Utf16(p)) < 0x20_0000_0000_0000
  {
    Utf16Units(p);
    FoldBound(Utf16(p));
  }

  /** One more hexadecimal digit. */
  lemma HexSnoc(n: nat, d: nat, r: string)
    requires 0 < n && d < 16 && Hex(n) == r
    ensures Hex(16 * n + d) == r + [HEX_DIGITS[d]]
  {
    assert (16 * n + d) / 16 == n && (16 * n + d) % 16 == d;
  }

  lemma HexAdminHigh()
    ensures Hex(0x139c) == "139c"
  {
    assert Hex(0x1) == "1";
    HexSnoc(0x1, 0x3, "1");
    HexSnoc(0x13, 0x9, "13");
    HexSnoc(0x139, 0xc, "139");
  }

  lemma HexAdminMiddle()
    ensures Hex(0x139c43b) == "139c43b"
  {
    HexAdminHigh();
    HexSnoc(0x139c, 0x4, "139c");
    HexSnoc(0x139c4, 0x3, "139c4");
    HexSnoc(0x139c43, 0xb, "139c43");
  }

  lemma HexAdmin()
    ensures Hex(0x139c43b7d) == "139c43b7d"
  {
    HexAdminMiddle();
    HexSnoc(0x139c43b, 0x7, "139c43b");
    HexSnoc(0x139c43b7, 0xd, "139c43b7");
  }

  lemma StepsAdminName()
    ensures Step(0, 97) == 97 && Step(97, 100) == 3107 && Step(3107, 109) == 96426
    ensures Step(96426, 105) == 2989311 && Step(2989311, 110) == 92668751
  {
  }

  lemma StepsAdminDigits()
    ensures Step(92668751, 49) == -1422235966 && Step(-1422235966, 50) == 3155325360
    ensures Step(3155325360, 51) == -5264128893
  {
  }

  /** The code units of an ASCII password are its character codes. */
  lemma AsciiUnits(p: string)
    requires forall i :: 0 <= i < |p| ==> p[i] as int < 0x80
    ensures Utf16(p) == seq(|p|, i requires 0 <= i < |p| => p[i] as int)
  {
    Utf16Bmp(p);
  }

  lemma AdminUnits()
    ensures Utf16("admin123") == [97, 100, 109, 105, 110, 49, 50, 51]
  {
    AsciiUnits("admin123");
  }

  lemma FoldAdmin()
    ensures Fold([97, 100, 109, 105, 110, 49, 50, 51]) == -0x139c43b7d
  {
    StepsAdminName();
    StepsAdminDigits();
    FoldSnoc([], 97);
    FoldSnoc([97], 100);
    assert [97] + [100] == [97, 100];
    FoldSnoc([97, 100], 109);
    assert [97, 100] + [109] == [97, 100, 109];
    FoldSnoc([97, 100, 109], 105);
    assert [97, 100, 109] + [105] == [97, 100, 109, 105];
    FoldSnoc([97, 100, 109, 105], 110);
    assert [97, 100, 109, 105] + [110] == [97, 100, 109, 105, 110];
    FoldSnoc([97, 100, 109, 105, 110], 49);
    assert [97, 100, 109, 105, 110] + [49] == [97, 100, 109, 105, 110, 49];
    FoldSnoc([97, 100, 109, 105, 110, 49], 50);
    assert [97, 100, 109, 105, 110, 49] + [50] == [97, 100, 109, 105, 110, 49, 50];
    FoldSnoc([97, 100, 109, 105, 110, 49, 50], 51);
    assert [97, 100, 109, 105, 110, 49, 50] + [51] == [97, 100, 109, 105, 110, 49, 50, 51];
    assert -5264128893 == -0x139c43b7d;
  }

  lemma HashOfFold(p: string, h: int)
    requires |p| > 0 && Fold(Utf16(p)) == h
    ensures Hash(p) == Render(h)
  {
  }

  /** The digest stored for the bootstrap administrator's password: the accumulator leaves
      the 32-bit range after the sixth character and ends at -5264128893. */
  lemma DefaultAdminDigest()
    ensures Hash("admin123") == "-139c43b7d"
  {
    AdminUnits();
    FoldAdmin();
    RenderAdmin();
    HashOfFold("admin123", -0x139c43b7d);
  }

  lemma RenderAdmin()
    ensures Render(-0x139c43b7d) == "-139c43b7d"
  {
    HexAdmin();
    RenderNegative(-0x139c43b7d, "139c43b7d");
    assert "-" + "139c43b7d" == "-139c43b7d";
  }

  lemma RenderNegative(h: int, r: string)
    requires h < 0 && Hex(-h) == r
    ensures Render(h) == "-" + r
  {
  }

  /** The hash is not injective: "Aa" and "BB" share the digest "840". */
  lemma Collision()
    ensures "Aa" != "BB" && Hash("Aa") == Hash("BB") == "840"
  {
    FoldCollide();
    assert |"Aa"| != 0 && |"BB"| != 0;
    assert Render(2112) == "840" by {
      HexCollide();
    }
  }

  lemma FoldCollide()
    ensures Fold(Utf16("Aa")) == 2112 && Fold(Utf16("BB")) == 2112
  {
    FoldAa();
    FoldBB();
  }

  lemma FoldAa()
    ensures Fold(Utf16("Aa")) == 2112
  {
    AsciiUnits("Aa");
    assert Utf16("Aa") == [65, 97];
    assert Step(0, 65) == 65 && Step(65, 97) == 2112;
    FoldSnoc([], 65);
    FoldSnoc([65], 97);
    assert [65] + [97] == [65, 97];
  }

  lemma FoldBB()
    ensures Fold(Utf16("BB")) == 2112
  {
    AsciiUnits("BB");
    assert Utf16("BB") == [66, 66];
    assert Step(0, 66) == 66 && Step(66, 66) == 2112;
    FoldSnoc([], 66);
    FoldSnoc([66], 66);
    assert [66] + [66] == [66, 66];
  }

  lemma HexCollide()
    ensures Hex(0x840) == "840"
  {
    assert Hex(0x8) == "8";
    assert Hex(0x84) == Hex(0x8) + "4";
    assert Hex(0x840) == Hex(0x84) + "0";
  }

  /** A character above U+FFFF is hashed as its two surrogates, as `charCodeAt` reads it:
      "\U{1F600}" folds 0xD83D then 0xDE00 and gives "1b0d63", not the digest of U+1F600. */
  lemma EmojiDigest()
    ensures Hash("\U{1F600}") == "1b0d63"
  {
    Utf16Emoji();
    assert Step(0, 0xD83D) == 0xD83D && Step(0xD83D, 0xDE00) == 0x1B0D63;
    FoldSnoc([], 0xD83D);
    FoldSnoc([0xD83D], 0xDE00);
    assert [0xD83D] + [0xDE00] == [0xD83D, 0xDE00];
    HexEmoji();
  }

  lemma HexEmoji()
    ensures Hex(0x1B0D63) == "1b0d63"
  {
    assert Hex(0x1) == "1";
    HexSnoc(0x1, 0xB, "1");
    HexSnoc(0x1B, 0x0, "1b");
    HexSnoc(0x1B0, 0xD, "1b0");
    HexSnoc(0x1B0D, 0x6, "1b0d");
    HexSnoc(0x1B0D6, 0x3, "1b0d6");
  }
}
