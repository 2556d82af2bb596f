/**
 * The pieces of java.lang that the Quarto code relies on, with Java's own
 * semantics written out: the 32-bit `int` range, `Integer.toBinaryString`,
 * the zero-padded 5-character piece name built with `String.format`,
 * `Integer.parseInt`, the decimal rendering of an `int` in a string
 * concatenation, `String.split` on one character, and the draws of
 * `Math.random()`.
 */
module Java {

  datatype Option<T> = None | Some(value: T)

  const IntMin: int := -0x8000_0000
  const IntMax: int := 0x7fff_ffff
  const TwoTo32: int := 0x1_0000_0000

  /** x is a value of Java's 32-bit `int`. */
  predicate IsInt(x: int) {
    IntMin <= x <= IntMax
  }

  function Pow2(n: nat): nat {
    if n == 0 then 1 else 2 * Pow2(n - 1)
  }

  /** Bit j of n (bit 0 is the least significant). */
  function Bit(n: nat, j: nat): (b: nat)
    ensures b < 2
  {
    if j == 0 then n % 2 else Bit(n / 2, j - 1)
  }

  /** The five bits of a number below 32, in arithmetic terms. */
  lemma BitsBelow32(n: int)
    ensures 0 <= n < 32 ==>
      (Bit(n, 4) == 1 <==> n >= 16) && Bit(n, 3) == n / 8 % 2 && Bit(n, 2) == n / 4 % 2 &&
      Bit(n, 1) == n / 2 % 2 && Bit(n, 0) == n % 2
  {
    if 0 <= n < 32 {
      BitFour(n);
      BitThree(n);
      BitTwo(n);
    }
  }

  lemma BitFour(n: nat)
    requires n < 32
    ensures Bit(n, 4) == 1 <==> n >= 16
  {
    var a := n / 2;
    assert Bit(n, 4) == Bit(a, 3);
    assert Bit(a, 3) == Bit(a / 2, 2);
    assert Bit(a / 2, 2) == Bit(a / 2 / 2, 1);
    assert Bit(a / 2 / 2, 1) == Bit(a / 2 / 2 / 2, 0);
  }

  lemma BitThree(n: nat)
    requires n < 32
    ensures Bit(n, 3) == n / 8 % 2
  {
    var a := n / 2;
    assert Bit(n, 3) == Bit(a, 2);
    assert Bit(a, 2) == Bit(a / 2, 1);
    assert Bit(a / 2, 1) == Bit(a / 2 / 2, 0);
    assert a / 2 / 2 == n / 8;
  }

  lemma BitTwo(n: nat)
    requires n < 32
    ensures Bit(n, 2) == n / 4 % 2
  {
    var a := n / 2;
    assert Bit(n, 2) == Bit(a, 1);
    assert Bit(a, 1) == Bit(a / 2, 0);
    assert a / 2 == n / 4;
  }

  // ---------------------------------------------------------------------
  // Integer.toBinaryString and the padded piece name
  // ---------------------------------------------------------------------

  function BinaryDigit(b: nat): char
    requires b < 2
  {
    if b == 0 then '0' else '1'
  }

  /** The binary numeral of n without leading zeros ("0" for zero). */
  function NatToBinary(n: nat): string
    decreases n
  {
    if n < 2 then [BinaryDigit(n)] else NatToBinary(n / 2) + [BinaryDigit(n % 2)]
  }

  /** Integer.toBinaryString: the unsigned numeral of the 32-bit two's-complement pattern. */
  function ToBinaryString(n: int): string
    requires IsInt(n)
  {
    NatToBinary(if n < 0 then n + TwoTo32 else n)
  }

  /**
   * String.format("%5s", s).replace(' ', '0') for a numeral s, which holds no
   * spaces: s right-aligned in a field of width 5, the padding turned into '0's.
   * A longer s is left as it is.
   */
  function PadTo5(s: string): (padded: string)
    ensures |padded| >= 5 && (|s| >= 5 ==> padded == s)
  {
    if |s| >= 5 then s else seq(5 - |s|, _ => '0') + s
  }

  /** The piece name used on the wire and by binaryStringRepresentation. */
  function BinaryName(id: int): string
    requires IsInt(id)
  {
    PadTo5(ToBinaryString(id))
  }

  lemma {:induction false} NatToBinaryShape(n: nat)
    ensures 1 <= |NatToBinary(n)|
    ensures n < Pow2(|NatToBinary(n)|)
    ensures forall i :: 0 <= i < |NatToBinary(n)| ==> NatToBinary(n)[i] in "01"
    decreases n
  {
    if n >= 2 {
      NatToBinaryShape(n / 2);
    }
  }

  /** Reading the numeral from the right gives the bits of n. */
  lemma {:induction false} NatToBinaryDigit(n: nat, j: nat)
    requires j < |NatToBinary(n)|
    ensures NatToBinary(n)[|NatToBinary(n)| - 1 - j] == BinaryDigit(Bit(n, j))
    decreases n
  {
    if n >= 2 && j > 0 {
      NatToBinaryDigit(n / 2, j - 1);
    }
  }

  lemma {:induction false} BitAboveWidth(n: nat, j: nat)
    requires n < Pow2(j)
    ensures Bit(n, j) == 0
  {
    if j > 0 {
      BitAboveWidth(n / 2, j - 1);
    }
  }

  lemma {:induction false} NatToBinaryWidth(n: nat, m: nat)
    requires 1 <= m && n < Pow2(m)
    ensures |NatToBinary(n)| <= m
    decreases n
  {
    if n >= 2 {
      NatToBinaryWidth(n / 2, m - 1);
    }
  }

  /**
   * For 0 <= id < 32 the piece name is exactly five binary digits, and its
   * character i (counted from the left) is bit 4 - i of id.
   */
  lemma BinaryNameBits(id: int)
    requires 0 <= id < 32
    ensures |BinaryName(id)| == 5
    ensures forall i :: 0 <= i < 5 ==> BinaryName(id)[i] == BinaryDigit(Bit(id, 4 - i))
  {
    var b := NatToBinary(id);
    NatToBinaryShape(id);
    NatToBinaryWidth(id, 5);
    var s := BinaryName(id);
    forall i | 0 <= i < 5
      ensures s[i] == BinaryDigit(Bit(id, 4 - i))
    {
      if i < 5 - |b| {
        assert Pow2(|b|) <= Pow2(4 - i) by { Pow2Monotone(|b|, 4 - i); }
        BitAboveWidth(id, 4 - i);
      } else {
        NatToBinaryDigit(id, 4 - i);
      }
    }
  }

  lemma {:induction false} Pow2Monotone(a: nat, b: nat)
    requires a <= b
    ensures Pow2(a) <= Pow2(b)
    decreases b
  {
    if a < b {
      Pow2Monotone(a, b - 1);
    }
  }

  // ---------------------------------------------------------------------
  // Integer.parseInt
  // ---------------------------------------------------------------------

  function DigitOf(c: char): int {
    (c as int) - ('0' as int)
  }

  /** c is one of the ASCII digits valid in the given radix. */
  predicate IsDigit(c: char, radix: nat) {
    '0' <= c <= '9' && DigitOf(c) < radix
  }

  predicate AllDigits(s: string, radix: nat) {
    forall i :: 0 <= i < |s| ==> IsDigit(s[i], radix)
  }

  /** The value of a numeral, most significant digit first. */
  function DigitsValue(s: string, radix: nat): nat
    requires AllDigits(s, radix)
  {
    if s == [] then 0 else DigitsValue(s[..|s| - 1], radix) * radix + DigitOf(s[|s| - 1])
  }

  /**
   * Integer.parseInt(s, radix): an optional '+' or '-', then at least one
   * digit; the value must fit in an `int`. Every other string makes Java throw
   * NumberFormatException, written here as None.
   */
  function ParseInt(s: string, radix: nat): (r: Option<int>)
    requires 2 <= radix <= 10
    ensures r.Some? ==> IsInt(r.value)
  {
    if |s| == 0 then None
    else
      var digits := if s[0] == '-' || s[0] == '+' then s[1..] else s;
      if |digits| == 0 || !AllDigits(digits, radix) then None
      else
        var magnitude: int := DigitsValue(digits, radix);
        var v := if s[0] == '-' then -magnitude else magnitude;
        if IsInt(v) then Some(v) else None
  }

  lemma {:induction false} BinaryValue(n: nat)
    ensures AllDigits(NatToBinary(n), 2) && DigitsValue(NatToBinary(n), 2) == n
    decreases n
  {
    var b := NatToBinary(n);
    if n >= 2 {
      BinaryValue(n / 2);
      assert b[..|b| - 1] == NatToBinary(n / 2);
    }
  }

  lemma {:induction false} LeadingZeros(z: nat, s: string, radix: nat)
    requires 2 <= radix && AllDigits(s, radix)
    ensures AllDigits(seq(z, _ => '0') + s, radix)
    ensures DigitsValue(seq(z, _ => '0') + s, radix) == DigitsValue(s, radix)
    decreases |s|, z
  {
    var t := seq(z, _ => '0') + s;
    if s == [] {
      assert t == seq(z, _ => '0');
      if z > 0 {
        assert t[..|t| - 1] == seq(z - 1, _ => '0') + [];
        LeadingZeros(z - 1, [], radix);
      }
    } else {
      assert t[..|t| - 1] == seq(z, _ => '0') + s[..|s| - 1];
      LeadingZeros(z, s[..|s| - 1], radix);
    }
  }

  /** Round trip: parsing a piece name in base 2 gives back the piece's id. */
  lemma ParseBinaryName(id: int)
    requires 0 <= id < 32
    ensures ParseInt(BinaryName(id), 2) == Some(id)
  {
    var b := NatToBinary(id);
    BinaryValue(id);
    NatToBinaryShape(id);
    NatToBinaryWidth(id, 5);
    if |b| < 5 {
      LeadingZeros(5 - |b|, b, 2);
    }
    var s := BinaryName(id);
    assert s[0] != '-' && s[0] != '+' by { BinaryNameBits(id); }
  }

  // ---------------------------------------------------------------------
  // Decimal rendering of an int ("" + n) and String.split(",")
  // ---------------------------------------------------------------------

  function DecimalDigit(d: nat): char
    requires d < 10
  {
    "0123456789"[d]
  }

  function NatToDecimal(n: nat): string
    decreases n
  {
    if n < 10 then [DecimalDigit(n)] else NatToDecimal(n / 10) + [DecimalDigit(n % 10)]
  }

  /** The text Java's string concatenation produces for an int. */
  function IntToString(n: int): string {
    if n < 0 then "-" + NatToDecimal(-n) else NatToDecimal(n)
  }

  lemma {:induction false} DecimalValue(n: nat)
    ensures NatToDecimal(n) != [] && NatToDecimal(n)[0] != '-' && NatToDecimal(n)[0] != '+'
    ensures ',' !in NatToDecimal(n)
    ensures AllDigits(NatToDecimal(n), 10) && DigitsValue(NatToDecimal(n), 10) == n
    decreases n
  {
    var d := NatToDecimal(n);
    if n >= 10 {
      DecimalValue(n / 10);
      assert d[..|d| - 1] == NatToDecimal(n / 10);
    }
  }

  /** Round trip: Integer.parseInt reads back what the concatenation wrote. */
  lemma IntToStringParses(n: int)
    requires IsInt(n)
    ensures ParseInt(IntToString(n), 10) == Some(n)
    ensures ',' !in IntToString(n)
  {
    if n < 0 {
      var d := NatToDecimal(-n);
      DecimalValue(-n);
      var t := IntToString(n);
      assert t == "-" + d;
      assert t[0] == '-' && t[1..] == d;
      assert ',' !in t by {
        forall i | 0 <= i < |t| ensures t[i] != ',' {
          if i > 0 { assert t[i] == d[i - 1]; }
        }
      }
    } else {
      DecimalValue(n);
    }
  }

  /**
   * The fields of s between occurrences of sep, empty fields included.
   * Java's String.split also drops trailing empty fields (JavaSplit below);
   * where the Quarto code uses split, a dropped field and an empty one both
   * make the parse that follows fail (Server.ReadMoveJavaSplit).
   */
  function Split(s: string, sep: char): (fields: seq<string>)
    ensures |fields| >= 1
    decreases |s|
  {
    if |s| == 0 then [""]
    else if s[0] == sep then [""] + Split(s[1..], sep)
    else
      var rest := Split(s[1..], sep);
      [[s[0]] + rest[0]] + rest[1..]
  }

  lemma {:induction false} SplitNoSeparator(s: string, sep: char)
    requires sep !in s
    ensures Split(s, sep) == [s]
    decreases |s|
  {
    if |s| > 0 {
      SplitNoSeparator(s[1..], sep);
      assert [s[0]] + s[1..] == s;
    }
  }

  lemma {:induction false} SplitTwo(a: string, b: string, sep: char)
    requires sep !in a && sep !in b
    ensures Split(a + [sep] + b, sep) == [a, b]
    decreases |a|
  {
    var s := a + [sep] + b;
    if |a| == 0 {
      assert s[1..] == b;
      SplitNoSeparator(b, sep);
    } else {
      assert s[1..] == a[1..] + [sep] + b;
      SplitTwo(a[1..], b, sep);
      assert [a[0]] + a[1..] == a;
    }
  }

  /** The fields without the empty ones at the end, as String.split removes them. */
  function DropTrailingEmpty(fields: seq<string>): (kept: seq<string>)
    ensures |kept| <= |fields| && kept == fields[..|kept|]
    ensures forall i :: |kept| <= i < |fields| ==> fields[i] == ""
    ensures |kept| > 0 ==> kept[|kept| - 1] != ""
    decreases |fields|
  {
    if |fields| > 0 && fields[|fields| - 1] == "" then DropTrailingEmpty(fields[..|fields| - 1]) else fields
  }

  /**
   * String.split(sep) as Java defines it: a string without the separator is
   * its only field; otherwise the fields of Split with the trailing empty
   * ones removed, so ",".split(",") has no field and "1,".split(",") one.
   */
  function JavaSplit(s: string, sep: char): (fields: seq<string>)
    ensures sep !in s ==> fields == [s]
    ensures sep in s ==> fields == DropTrailingEmpty(Split(s, sep))
  {
    if sep !in s then SplitNoSeparator(s, sep); Split(s, sep) else DropTrailingEmpty(Split(s, sep))
  }

  // ---------------------------------------------------------------------
  // Math.random()
  // ---------------------------------------------------------------------

  /** One result of Math.random(): a number in [0, 1). */
  type Draw = r: real | 0.0 <= r < 1.0

  /** The successive results of Math.random(); a caller keeps the count already used. */
  type Draws = nat -> Draw

  /** (int)(Math.random() * bound) for the draw numbered at. */
  function RandomIndex(draws: Draws, at: nat, bound: nat): (k: int)
    requires bound > 0
    ensures 0 <= k < bound
  {
    var d: real := draws(at);
    assert 0.0 <= d * (bound as real) < bound as real;
    (d * (bound as real)).Floor
  }
}
