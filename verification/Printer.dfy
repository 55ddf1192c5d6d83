/** `convert_any_int_to_str`: one integer as text, and what reading that text gives back. */
module Printer {

  /** The flag bits of a conversion. */
  datatype Flags = Flags(
    left: bool, plus: bool, blank: bool, alt: bool, zero: bool, unsigned: bool, upper: bool, precise: bool)

  /** What a conversion is asked for. */
  datatype Spec = Spec(flags: Flags, width: nat, precision: nat, radix: nat) {
    ghost predicate Valid() { 2 <= radix <= 16 }
    /** `0x` is asked for. */
    predicate Prefixed() { flags.alt && radix == 16 }
  }

  /** The most negative argument: `(~arg) + 1` leaves it as it is. */
  const LEAST := -0x8000_0000_0000_0000

  // ----- the text -----

  /** The cell written for a digit. A digit can be negative, and then the cell holds some other character. */
  function DigitChar(d: int, upper: bool): (c: char)
    requires -16 < d < 16
  {
    if 0 <= d <= 9 then '0' + d as char else ((if upper then 'A' else 'a') as int + d - 10) as char
  }

  function Magnitude(arg: int): (n: nat) { if arg < 0 then -arg else arg }

  // Quotient and remainder by repeated subtraction: `QuoRem` says that they are the machine's.

  function Quo(n: nat, radix: nat): (q: nat)
    requires radix >= 2
    ensures q <= n && (n > 0 ==> q < n)
  {
    if n < radix then 0 else 1 + Quo(n - radix, radix)
  }

  function Rem(n: nat, radix: nat): (m: nat)
    requires radix >= 2
    ensures m < radix
  {
    if n < radix then n else Rem(n - radix, radix)
  }

  lemma {:induction false} QuoRem(n: nat, radix: nat)
    requires radix >= 2
    ensures radix * Quo(n, radix) + Rem(n, radix) == n
    ensures Quo(n, radix) == n / radix && Rem(n, radix) == n % radix
    decreases n
  {
    if n >= radix {
      QuoRem(n - radix, radix);
      assert radix * (Quo(n - radix, radix) + 1) == radix * Quo(n - radix, radix) + radix;
    }
    DivisionIs(n, radix, Quo(n, radix), Rem(n, radix));
  }

  /** Division is unique. */
  lemma {:induction false} DivisionIs(n: nat, radix: nat, q: nat, m: nat)
    requires radix >= 2 && radix * q + m == n && m < radix
    ensures q == n / radix && m == n % radix
  {
    var p := n / radix;
    if q > p {
      Product(radix, q, p);
    } else if q < p {
      Product(radix, p, q);
    }
  }

  lemma {:induction false} Product(r: nat, x: nat, y: nat)
    requires x > y
    ensures r * x >= r * y + r
  {
    assert r * x == r * (y + 1) + r * (x - y - 1);
  }

  /** Digits of `n`; zero has none. */
  function NumDigits(n: nat, radix: nat): (k: nat)
    requires radix >= 2
    decreases n
  {
    if n == 0 then 0 else 1 + NumDigits(Quo(n, radix), radix)
  }

  /** The last `k` digits of `n`, with leading zeros if there are fewer. */
  function Digits(n: nat, radix: nat, upper: bool, k: nat): (s: seq<char>)
    requires 2 <= radix <= 16
    ensures |s| == k
    decreases k, n
  {
    if k == 0 then [] else Digits(Quo(n, radix), radix, upper, k - 1) + [DigitChar(Rem(n, radix), upper)]
  }

  /** The cells of `-n` when it is divided down without a change of sign. */
  function Garbled(n: nat, radix: nat, upper: bool, k: nat): (s: seq<char>)
    requires 2 <= radix <= 16
    ensures |s| == k
    decreases k, n
  {
    if k == 0 then [] else Garbled(Quo(n, radix), radix, upper, k - 1) + [DigitChar(0 - Rem(n, radix), upper)]
  }

  /** The last `k` digit cells of `n`, or of `-n`. */
  function SideCells(negative: bool, n: nat, radix: nat, upper: bool, k: nat): (s: seq<char>)
    requires 2 <= radix <= 16
    ensures |s| == k
  {
    if negative then Garbled(n, radix, upper, k) else Digits(n, radix, upper, k)
  }

  /** The last `k` digit cells of an argument. */
  function Cells(arg: int, radix: nat, upper: bool, k: nat): (s: seq<char>)
    requires 2 <= radix <= 16
    ensures |s| == k
  {
    SideCells(arg == LEAST, Magnitude(arg), radix, upper, k)
  }

  function Fill(c: char, n: nat): (s: seq<char>)
    ensures |s| == n
  {
    seq(n, _ => c)
  }

  function Sign(a: Spec, arg: int): (s: seq<char>) {
    if !a.flags.unsigned && arg < 0 then "-" else if !a.flags.unsigned && a.flags.plus then "+" else ""
  }

  /** What is written of an asked-for `0x`. */
  function Prefix(a: Spec): (s: seq<char>) { if !a.Prefixed() then "" else if a.flags.upper then "X" else "x" }

  /** Cells set aside for what comes before the digits. */
  function Extra(a: Spec, arg: int): (n: nat) { |Sign(a, arg)| + (if a.Prefixed() then 2 else 0) }

  /** How many digits are printed: the sign counts towards the precision. */
  function DigitCount(a: Spec, arg: int): (n: nat)
    requires a.Valid()
    ensures n >= NumDigits(Magnitude(arg), a.radix)
  {
    var d, p := NumDigits(Magnitude(arg), a.radix), if a.precision == 0 then 1 else a.precision;
    if Extra(a, arg) + d < p then p else if a.radix == 8 && Extra(a, arg) + d > p then d + 1 else d
  }

  /** Cells of the number itself. */
  function CharCount(a: Spec, arg: int): (n: nat) requires a.Valid() { Extra(a, arg) + DigitCount(a, arg) }

  predicate Padded(a: Spec, arg: int) requires a.Valid() { CharCount(a, arg) < a.width }

  function PadChar(a: Spec): (c: char) { if a.flags.zero then '0' else ' ' }

  function CellsOf(a: Spec, arg: int): (s: seq<char>)
    requires a.Valid()
    ensures |s| == DigitCount(a, arg)
  {
    Cells(arg, a.radix, a.flags.upper, DigitCount(a, arg))
  }

  /** Sign, the `x` of an asked-for prefix, digits. */
  function Core(a: Spec, arg: int): (s: seq<char>)
    requires a.Valid()
    ensures |s| == CharCount(a, arg) - (if a.Prefixed() then 1 else 0)
  {
    Sign(a, arg) + (Prefix(a) + CellsOf(a, arg))
  }

  /** Cells before the core: one of them is the `0` of the prefix, which is set aside but never written. */
  function Lead(a: Spec, arg: int): (n: nat) requires a.Valid() {
    (if Padded(a, arg) && !a.flags.left then a.width else CharCount(a, arg)) - |Core(a, arg)|
  }

  /** The text. `hole` is what the cell set aside held before. */
  function Render(a: Spec, arg: int, hole: char): (s: seq<char>)
    requires a.Valid()
    ensures |s| == if Padded(a, arg) then a.width else CharCount(a, arg)
  {
    Fill(if Padded(a, arg) then PadChar(a) else hole, Lead(a, arg)) + Core(a, arg) +
    Fill(PadChar(a), if Padded(a, arg) && a.flags.left then a.width - CharCount(a, arg) else 0)
  }

  /** Every cell of the text is written, exactly when no prefix is asked for or there is padding. */
  lemma {:induction false} EveryCellWritten(a: Spec, arg: int)
    requires a.Valid()
    ensures (forall h, g :: Render(a, arg, h) == Render(a, arg, g)) <==> (!a.Prefixed() || Padded(a, arg))
  {
    if a.Prefixed() && !Padded(a, arg) {
      assert Render(a, arg, 'p')[0] == 'p' && Render(a, arg, 'q')[0] == 'q';
    }
  }

  // ----- reading a number -----

  /** The value of a digit in either case; 16 for what is no digit. */
  function DigitValue(c: char): (d: nat) ensures d <= 16 {
    if '0' <= c <= '9' then c as nat - '0' as nat
    else if 'a' <= c <= 'f' then 10 + (c as nat - 'a' as nat)
    else if 'A' <= c <= 'F' then 10 + (c as nat - 'A' as nat) else 16
  }

  /** Digits from position `from` on. */
  predicate AllDigits(s: seq<char>, from: nat, radix: nat) { forall i :: from <= i < |s| ==> DigitValue(s[i]) < radix }

  /** The value of the digits from position `from` on. */
  function Value(s: seq<char>, from: nat, radix: nat): (n: nat) {
    if |s| <= from then 0 else radix * Value(s[..|s| - 1], from, radix) + DigitValue(s[|s| - 1])
  }

  function StripLeft(s: seq<char>): (t: seq<char>) { if s != [] && s[0] == ' ' then StripLeft(s[1..]) else s }

  function StripRight(s: seq<char>): (t: seq<char>) {
    if s != [] && s[|s| - 1] == ' ' then StripRight(s[..|s| - 1]) else s
  }

  datatype Number = NotANumber | Number(value: int)

  function Signed(negative: bool, n: nat): (v: int) { if negative then 0 - n else n }

  /** Digits after an optional sign. */
  function ReadSigned(s: seq<char>, radix: nat): (r: Number) {
    var from := if s != [] && (s[0] == '-' || s[0] == '+') then 1 else 0;
    if |s| == from || !AllDigits(s, from, radix) then NotANumber
    else Number(Signed(s[0] == '-', Value(s, from, radix)))
  }

  /** A number with blanks around it. */
  function ReadNumber(s: seq<char>, radix: nat): (r: Number) { ReadSigned(StripRight(StripLeft(s)), radix) }

  lemma {:induction false} StripSpaces(n: nat, t: seq<char>, m: nat)
    requires t != [] && t[0] != ' ' && t[|t| - 1] != ' '
    ensures StripRight(StripLeft(Fill(' ', n) + t + Fill(' ', m))) == t
    decreases n + m
  {
    var s := Fill(' ', n) + t + Fill(' ', m);
    if n > 0 {
      assert s[1..] == Fill(' ', n - 1) + t + Fill(' ', m);
      StripSpaces(n - 1, t, m);
    } else if m > 0 {
      assert s[..|s| - 1] == Fill(' ', 0) + t + Fill(' ', m - 1);
      StripSpaces(0, t, m - 1);
    } else {
      assert s == t;
    }
  }

  /** Stripping removes nothing but blanks. */
  lemma {:induction false} StripKeeps(s: seq<char>, c: char)
    requires c in s && c != ' '
    ensures c in StripLeft(s) && c in StripRight(s)
    decreases |s|
  {
    if s[0] == ' ' {
      assert s == [s[0]] + s[1..];
      StripKeeps(s[1..], c);
    }
    if s[|s| - 1] == ' ' {
      assert s == s[..|s| - 1] + [s[|s| - 1]];
      StripKeeps(s[..|s| - 1], c);
    }
  }

  /** A character that is no digit, blank or sign spoils the number. */
  lemma {:induction false} NoNumber(s: seq<char>, radix: nat, c: char)
    requires c in s && c != ' ' && c != '-' && c != '+' && DigitValue(c) >= radix
    ensures ReadNumber(s, radix) == NotANumber
  {
    StripKeeps(s, c);
    StripKeeps(StripLeft(s), c);
  }

  // ----- digits and values -----

  lemma DigitCharValue(d: nat, upper: bool)
    requires d < 16
    ensures DigitValue(DigitChar(d, upper)) == d
  {
  }

  /** Enough digits of a number have its value. */
  lemma {:induction false} DigitsValue(n: nat, radix: nat, upper: bool, k: nat)
    requires 2 <= radix <= 16 && k >= NumDigits(n, radix)
    ensures AllDigits(Digits(n, radix, upper, k), 0, radix) && Value(Digits(n, radix, upper, k), 0, radix) == n
    decreases k
  {
    if k > 0 {
      var s, t := Digits(n, radix, upper, k), Digits(Quo(n, radix), radix, upper, k - 1);
      DigitsValue(Quo(n, radix), radix, upper, k - 1);
      DigitCharValue(Rem(n, radix), upper);
      QuoRem(n, radix);
      assert s[..k - 1] == t;
    }
  }

  lemma {:induction false} LeadingZeros(k: nat, s: seq<char>, radix: nat)
    requires radix >= 2
    ensures Value(Fill('0', k) + s, 0, radix) == Value(s, 0, radix)
    decreases k, |s|
  {
    var z := Fill('0', k) + s;
    if s != [] {
      assert z[..|z| - 1] == Fill('0', k) + s[..|s| - 1];
      LeadingZeros(k, s[..|s| - 1], radix);
    } else if k > 0 {
      assert z[..|z| - 1] == Fill('0', k - 1) + s;
      LeadingZeros(k - 1, s, radix);
    }
  }

  /** Zeros at the end change every value but zero. */
  lemma {:induction false} TrailingZeros(s: seq<char>, k: nat, radix: nat)
    requires radix >= 2
    ensures Value(s + Fill('0', k), 0, radix) >= Value(s, 0, radix)
    ensures k > 0 && Value(s, 0, radix) > 0 ==> Value(s + Fill('0', k), 0, radix) > Value(s, 0, radix)
    ensures Value(s, 0, radix) == 0 ==> Value(s + Fill('0', k), 0, radix) == 0
    decreases k
  {
    var z := s + Fill('0', k);
    if k > 0 {
      assert z[..|z| - 1] == s + Fill('0', k - 1);
      TrailingZeros(s, k - 1, radix);
      Times(radix, Value(z[..|z| - 1], 0, radix));
    } else {
      assert z == s;
    }
  }

  lemma Times(r: nat, v: nat)
    requires r >= 2
    ensures r * v >= v && (v > 0 ==> r * v > v) && (v == 0 ==> r * v == 0)
  {
  }

  /** A sign, if any, then digits. */
  lemma {:induction false} ReadDigits(sign: seq<char>, s: seq<char>, radix: nat)
    requires sign in ["", "+", "-"] && 2 <= radix <= 16 && AllDigits(s, 0, radix)
    ensures ReadSigned(sign + s, radix) == if s == [] then NotANumber
      else Number(Signed(sign == "-", Value(s, 0, radix)))
  {
    ValueAfter(sign, s, radix);
    if s != [] {
      DigitIsNoBlank(s[0], radix);
    }
  }

  lemma {:induction false} ValueAfter(sign: seq<char>, s: seq<char>, radix: nat)
    ensures Value(sign + s, |sign|, radix) == Value(s, 0, radix)
    decreases |s|
  {
    var t := sign + s;
    if s != [] {
      assert t[..|t| - 1] == sign + s[..|s| - 1];
      ValueAfter(sign, s[..|s| - 1], radix);
    }
  }

  // ----- reading what was printed -----

  lemma DigitIsNoBlank(c: char, radix: nat)
    requires DigitValue(c) < radix <= 16
    ensures c != ' ' && c != '+' && c != '-'
  {
  }

  lemma ZeroDigits(s: seq<char>, k: nat, radix: nat)
    requires radix >= 2 && AllDigits(s, 0, radix)
    ensures AllDigits(s + Fill('0', k), 0, radix) && AllDigits(Fill('0', k) + s, 0, radix)
  {
  }

  lemma {:induction false} ReadsWhole(sign: seq<char>, z: seq<char>, radix: nat)
    requires sign in ["", "+", "-"] && 2 <= radix <= 16 && z != [] && AllDigits(z, 0, radix)
    ensures ReadNumber(sign + z, radix) == Number(Signed(sign == "-", Value(z, 0, radix)))
  {
    assert Fill(' ', 0) + (sign + z) + Fill(' ', 0) == sign + z;
    BlanksAround(0, sign, z, 0, radix);
  }

  /** Blanks before and after. */
  lemma {:induction false} BlanksAround(n: nat, sign: seq<char>, s: seq<char>, m: nat, radix: nat)
    requires sign in ["", "+", "-"] && 2 <= radix <= 16 && AllDigits(s, 0, radix) && sign + s != []
    ensures ReadNumber(Fill(' ', n) + (sign + s) + Fill(' ', m), radix) ==
      if s == [] then NotANumber else Number(Signed(sign == "-", Value(s, 0, radix)))
  {
    SignedEnds(sign, s, radix);
    StripSpaces(n, sign + s, m);
    ReadDigits(sign, s, radix);
  }

  lemma {:induction false} SignedEnds(sign: seq<char>, s: seq<char>, radix: nat)
    requires sign in ["", "+", "-"] && radix <= 16 && AllDigits(s, 0, radix) && sign + s != []
    ensures var t := sign + s; t[0] != ' ' && t[|t| - 1] != ' '
  {
    if s != [] {
      DigitIsNoBlank(s[0], radix);
      DigitIsNoBlank(s[|s| - 1], radix);
    }
  }

  /** Zeros before. */
  lemma {:induction false} ZerosThen(k: nat, sign: seq<char>, s: seq<char>, radix: nat)
    requires k > 0 && sign in ["", "+", "-"] && 2 <= radix <= 16 && AllDigits(s, 0, radix)
    ensures ReadNumber(Fill('0', k) + (sign + s), radix) == if sign == "" then Number(Value(s, 0, radix))
      else NotANumber
  {
    var text := Fill('0', k) + (sign + s);
    if sign == "" {
      var z := Fill('0', k) + s;
      assert text == "" + z;
      ZeroDigits(s, k, radix);
      LeadingZeros(k, s, radix);
      ReadsWhole("", z, radix);
    } else {
      assert text[k] == sign[0];
      SignInside(text, k, radix);
    }
  }

  /** A sign that is not first spoils the number. */
  lemma {:induction false} SignInside(s: seq<char>, k: nat, radix: nat)
    requires 0 < k < |s| && s[0] == '0' && (s[k] == '+' || s[k] == '-') && radix <= 16
    ensures ReadNumber(s, radix) == NotANumber
  {
    assert StripLeft(s) == s;
    StripRightPrefix(s, k);
    var t := StripRight(s);
    assert t[0] == '0' && t[k] == s[k];
    assert DigitValue(t[k]) == 16;
  }

  lemma {:induction false} StripRightPrefix(s: seq<char>, k: nat)
    requires k < |s| && s[k] != ' '
    ensures StripRight(s) <= s && k < |StripRight(s)|
    decreases |s|
  {
    if s[|s| - 1] == ' ' {
      StripRightPrefix(s[..|s| - 1], k);
    }
  }

  // The text in its three forms.

  function PadCount(a: Spec, arg: int): (k: nat) requires a.Valid() {
    if Padded(a, arg) then a.width - CharCount(a, arg) else 0
  }

  lemma RenderedBlank(a: Spec, arg: int, hole: char)
    requires a.Valid() && !a.Prefixed() && !(Padded(a, arg) && a.flags.zero)
    ensures var k := PadCount(a, arg);
      Render(a, arg, hole) ==
      Fill(' ', if a.flags.left then 0 else k) + (Sign(a, arg) + CellsOf(a, arg)) + Fill(' ', if a.flags.left then k
      else 0)
  {
  }

  lemma RenderedLeft(a: Spec, arg: int, hole: char)
    requires a.Valid() && !a.Prefixed() && Padded(a, arg) && a.flags.zero && a.flags.left
    ensures Render(a, arg, hole) == Sign(a, arg) + (CellsOf(a, arg) + Fill('0', PadCount(a, arg)))
  {
  }

  lemma RenderedRight(a: Spec, arg: int, hole: char)
    requires a.Valid() && !a.Prefixed() && Padded(a, arg) && a.flags.zero && !a.flags.left
    ensures Render(a, arg, hole) == Fill('0', PadCount(a, arg)) + (Sign(a, arg) + CellsOf(a, arg))
  {
  }

  /** What the text reads as, in any radix that has all its digits. */
  function ReadsAs(a: Spec, arg: int, radix: nat): (r: Number)
    requires a.Valid()
  {
    var sign, s := Sign(a, arg), CellsOf(a, arg);
    if Padded(a, arg) && a.flags.zero then
      if a.flags.left then Number(Signed(sign == "-", Value(s + Fill('0', PadCount(a, arg)), 0, radix)))
      else if sign == "" then Number(Value(s, 0, radix)) else NotANumber
    else if s == [] then NotANumber else Number(Signed(sign == "-", Value(s, 0, radix)))
  }

  lemma {:induction false} TextReads(a: Spec, arg: int, hole: char, radix: nat)
    requires a.Valid() && !a.Prefixed() && 2 <= radix <= 16 && AllDigits(CellsOf(a, arg), 0, radix)
    ensures ReadNumber(Render(a, arg, hole), radix) == ReadsAs(a, arg, radix)
  {
    var sign, s, k := Sign(a, arg), CellsOf(a, arg), PadCount(a, arg);
    if Padded(a, arg) && a.flags.zero {
      if a.flags.left {
        RenderedLeft(a, arg, hole);
        ZeroDigits(s, k, radix);
        ReadsWhole(sign, s + Fill('0', k), radix);
      } else {
        RenderedRight(a, arg, hole);
        ZerosThen(k, sign, s, radix);
      }
    } else {
      RenderedBlank(a, arg, hole);
      SomeCells(a, arg);
      BlanksAround(if a.flags.left then 0 else k, sign, s, if a.flags.left then k else 0, radix);
    }
  }

  /** Without a sign there are digits. */
  lemma SomeCells(a: Spec, arg: int)
    requires a.Valid() && !a.Prefixed()
    ensures Sign(a, arg) + CellsOf(a, arg) != []
  {
  }

  // ----- the round trip -----

  /** Reading the text gives the argument back. */
  ghost predicate ReadsBack(a: Spec, arg: int, hole: char) requires a.Valid() {
    ReadNumber(Render(a, arg, hole), a.radix) == Number(arg)
  }

  /** Not the most negative number; no prefix; zeros to the right only of zero, and zeros to the left only of an
      unsigned text; otherwise digits, and a sign where the number is negative. */
  predicate Readable(a: Spec, arg: int)
    requires a.Valid()
  {
    arg != LEAST && !a.Prefixed() &&
    if Padded(a, arg) && a.flags.zero then
      if a.flags.left then arg == 0 else Sign(a, arg) == "" && arg >= 0
    else DigitCount(a, arg) > 0 && (a.flags.unsigned ==> arg >= 0)
  }

  /** Digits are missing exactly when zero is printed with a sign and a precision of at most one. */
  lemma DigitsMissing(a: Spec, arg: int)
    requires a.Valid() && !a.Prefixed()
    ensures DigitCount(a, arg) == 0 <==> arg == 0 && a.flags.plus && !a.flags.unsigned && a.precision <= 1
  {
  }

  lemma {:induction false} CellInText(a: Spec, arg: int, hole: char, c: char)
    requires a.Valid() && c in CellsOf(a, arg)
    ensures c in Render(a, arg, hole)
  {
    var i :| 0 <= i < |CellsOf(a, arg)| && CellsOf(a, arg)[i] == c;
    assert Core(a, arg)[|Sign(a, arg)| + |Prefix(a)| + i] == c;
    assert Render(a, arg, hole)[Lead(a, arg) + |Sign(a, arg)| + |Prefix(a)| + i] == c;
  }

  /** For every flag, width, precision and argument, and every radix that `kaos_vsprintf` uses: the text reads back as
      the argument if and only if the conversion is readable. For arguments other than the most negative one the radix
      may be any from 2 to 16. */
  lemma {:induction false} RoundTrip(a: Spec, arg: int, hole: char)
    requires a.Valid() && (arg == LEAST ==> a.radix == 8 || a.radix == 10 || a.radix == 16)
    ensures ReadsBack(a, arg, hole) <==> Readable(a, arg)
  {
    if a.Prefixed() {
      PrefixSpoils(a, arg, hole);
    } else if arg == LEAST {
      LeastNeverReads(a, hole);
    } else {
      CellsValue(a, arg);
      TextReads(a, arg, hole, a.radix);
      OrdinaryReads(a, arg);
    }
  }

  lemma {:induction false} CellsValue(a: Spec, arg: int)
    requires a.Valid() && arg != LEAST
    ensures AllDigits(CellsOf(a, arg), 0, a.radix) && Value(CellsOf(a, arg), 0, a.radix) == Magnitude(arg)
  {
    DigitsValue(Magnitude(arg), a.radix, a.flags.upper, DigitCount(a, arg));
  }

  /** What the text reads as is the argument exactly when the conversion is readable. */
  lemma {:induction false} OrdinaryReads(a: Spec, arg: int)
    requires a.Valid() && !a.Prefixed() && arg != LEAST && Value(CellsOf(a, arg), 0, a.radix) == Magnitude(arg)
    ensures ReadsAs(a, arg, a.radix) == Number(arg) <==> Readable(a, arg)
  {
    var s, k := CellsOf(a, arg), PadCount(a, arg);
    TrailingZeros(s, k, a.radix);
    SignFits(a, arg, Value(s + Fill('0', k), 0, a.radix));
    SignFits(a, arg, Value(s, 0, a.radix));
  }

  /** A value behind the sign is the argument. */
  lemma SignFits(a: Spec, arg: int, v: nat)
    ensures Signed(Sign(a, arg) == "-", v) == arg <==> v == Magnitude(arg) && (a.flags.unsigned ==> arg >= 0)
  {
  }

  /** `%+d` of 0 prints a sign and no digit; `%04d` of -5 prints zeros before the sign. */
  lemma {:induction false} UnreadableTexts(hole: char)
    ensures var none := Flags(false, false, false, false, false, false, false, false);
      !ReadsBack(Spec(none.(plus := true), 0, 0, 10), 0, hole) &&
      !ReadsBack(Spec(none.(zero := true), 4, 0, 10), -5, hole)
  {
    var none := Flags(false, false, false, false, false, false, false, false);
    RoundTrip(Spec(none.(plus := true), 0, 0, 10), 0, hole);
    RoundTrip(Spec(none.(zero := true), 4, 0, 10), -5, hole);
    assert NumDigits(5, 10) == 1;
  }

  lemma {:induction false} PrefixSpoils(a: Spec, arg: int, hole: char)
    requires a.Valid() && a.Prefixed()
    ensures ReadNumber(Render(a, arg, hole), a.radix) == NotANumber
  {
    var x := if a.flags.upper then 'X' else 'x';
    assert Core(a, arg)[|Sign(a, arg)|] == x;
    assert Render(a, arg, hole)[Lead(a, arg) + |Sign(a, arg)|] == x;
    NoNumber(Render(a, arg, hole), a.radix, x);
  }

  // ----- the shape of the text -----

  /** No letter of the other case. */
  predicate InCase(c: char, upper: bool) { if upper then !('a' <= c <= 'z') else !('A' <= c <= 'Z') }

  lemma {:induction false} DigitCase(n: nat, radix: nat, upper: bool, k: nat, c: char)
    requires 2 <= radix <= 16 && c in Digits(n, radix, upper, k)
    ensures InCase(c, upper)
    decreases k
  {
    if c != DigitChar(Rem(n, radix), upper) {
      DigitCase(Quo(n, radix), radix, upper, k - 1, c);
    }
  }

  lemma {:induction false} CharFrom(s: seq<char>, at: nat, t: seq<char>, pad: char, c: char)
    requires at + |t| <= |s| && s[at..at + |t|] == t && c in s
    requires forall i :: 0 <= i < |s| && !(at <= i < at + |t|) ==> s[i] == pad
    ensures c == pad || c in t
  {
    var i :| 0 <= i < |s| && s[i] == c;
    if at <= i < at + |t| {
      assert t[i - at] == c;
    }
  }

  /** Letters in the text are upper case exactly where that is asked for. */
  lemma {:induction false} LetterCase(a: Spec, arg: int, hole: char, c: char)
    requires a.Valid() && !a.Prefixed() && arg != LEAST && c in Render(a, arg, hole)
    ensures if a.flags.upper then !('a' <= c <= 'z') else !('A' <= c <= 'Z')
  {
    TextParts(a, arg, hole);
    var at := if a.flags.left || !Padded(a, arg) then 0 else a.width - CharCount(a, arg);
    CharFrom(Render(a, arg, hole), at, Sign(a, arg) + CellsOf(a, arg), PadChar(a), c);
    if c in CellsOf(a, arg) {
      DigitCase(Magnitude(arg), a.radix, a.flags.upper, DigitCount(a, arg), c);
    }
  }

  /** `k` digits are enough for a number exactly when it is below the `k`-th power of the radix. */
  lemma {:induction false} NumDigitsIs(n: nat, radix: nat, k: nat)
    requires radix >= 2
    ensures NumDigits(n, radix) <= k <==> n < Round(1, radix, k)
    decreases k, n
  {
    Positive(1, radix, k);
    if k > 0 && n > 0 {
      NumDigitsIs(Quo(n, radix), radix, k - 1);
      QuoRem(n, radix);
      Below(n, Quo(n, radix), Rem(n, radix), radix, Round(1, radix, k - 1));
    }
  }

  lemma {:induction false} Below(n: nat, q: nat, m: nat, radix: nat, r: nat)
    requires n == radix * q + m && m < radix
    ensures n < radix * r <==> q < r
  {
    if q < r {
      Product(radix, r, q);
    } else if q > r {
      Product(radix, q, r);
    }
  }

  /** The sign that is printed. */
  function SignFor(unsigned: bool, plus: bool, arg: int): (s: string) {
    if unsigned then "" else if arg < 0 then "-" else if plus then "+" else ""
  }

  /** The number of digits for a number of `d` digits: the sign counts towards the precision, and in octal a number that
      exceeds the precision gets one digit more. */
  function CountFor(sign: nat, d: nat, precision: nat, radix: nat): (k: nat) {
    var p := if precision == 0 then 1 else precision;
    if sign + d < p then p else if radix == 8 && sign + d > p then d + 1 else d
  }

  lemma CountIs(a: Spec, arg: int, sign: string, k: nat)
    requires a.Valid() && !a.Prefixed() && sign == SignFor(a.flags.unsigned, a.flags.plus, arg)
    requires k == CountFor(|sign|, NumDigits(Magnitude(arg), a.radix), a.precision, a.radix)
    ensures Sign(a, arg) == sign && DigitCount(a, arg) == k && CharCount(a, arg) == |sign| + k
  {
  }

  /** The whole text is as wide as the field or as the number; the number, a sign and `k` digits that have its value, is
      at the left end or at the right end; and the rest is zeros or blanks. */
  lemma {:induction false} TextShape(a: Spec, arg: int, hole: char, s: string, sign: string, k: nat, at: nat)
    requires a.Valid() && !a.Prefixed() && arg != LEAST && s == Render(a, arg, hole)
    requires sign == SignFor(a.flags.unsigned, a.flags.plus, arg)
    requires k == CountFor(|sign|, NumDigits(Magnitude(arg), a.radix), a.precision, a.radix)
    requires at == if a.flags.left || a.width <= |sign| + k then 0 else a.width - (|sign| + k)
    ensures |s| == (if a.width > |sign| + k then a.width else |sign| + k) && at + |sign| + k <= |s|
    ensures s[at..at + |sign|] == sign && AllDigits(s[at + |sign|..at + |sign| + k], 0, a.radix)
    ensures Value(s[at + |sign|..at + |sign| + k], 0, a.radix) == if arg < 0 then -arg else arg
    ensures forall i :: 0 <= i < |s| && !(at <= i < at + |sign| + k) ==> s[i] == if a.flags.zero then '0' else ' '
  {
    CountIs(a, arg, sign, k);
    CellsValue(a, arg);
    TextParts(a, arg, hole);
    SlicesOf(s, at, sign, CellsOf(a, arg));
  }

  lemma TextParts(a: Spec, arg: int, hole: char)
    requires a.Valid() && !a.Prefixed()
    ensures var s, t := Render(a, arg, hole), Sign(a, arg) + CellsOf(a, arg);
      var at := if a.flags.left || !Padded(a, arg) then 0 else a.width - CharCount(a, arg);
      at + |t| <= |s| && s[at..at + |t|] == t &&
      forall i :: 0 <= i < |s| && !(at <= i < at + |t|) ==> s[i] == PadChar(a)
  {
  }

  lemma SlicesOf(s: seq<char>, at: nat, x: seq<char>, y: seq<char>)
    requires at + |x| + |y| <= |s| && s[at..at + |x + y|] == x + y
    ensures s[at..at + |x|] == x && s[at + |x|..at + |x| + |y|] == y
  {
    assert s[at..at + |x|] == (x + y)[..|x|];
    assert s[at + |x|..at + |x| + |y|] == (x + y)[|x|..];
  }

  // ----- the most negative argument -----

  /** `m` zeros, in radix 16 or 8, behind an 8 or a 1. */
  function Round(top: nat, radix: nat, m: nat): (n: nat)
    decreases m, radix
  {
    if m == 0 then top else radix * Round(top, radix, m - 1)
  }

  lemma LeastIsRound()
    ensures Round(8, 16, 15) == Magnitude(LEAST) && Round(1, 8, 21) == Magnitude(LEAST)
    ensures Round(6, 8, 21) == 6 * Magnitude(LEAST)
  {
    assert Round(8, 16, 8) == 0x8_0000_0000;
    assert Round(1, 8, 10) == 0x4000_0000;
    assert Round(6, 8, 10) == 0x1_8000_0000;
  }

  lemma {:induction false} RoundDivides(top: nat, radix: nat, m: nat)
    requires radix >= 2 && m > 0
    ensures Quo(Round(top, radix, m), radix) == Round(top, radix, m - 1) && Rem(Round(top, radix, m), radix) == 0
  {
    var n := Round(top, radix, m);
    QuoRem(n, radix);
    DivisionIs(n, radix, Round(top, radix, m - 1), 0);
  }

  /** In lower case every digit but zero becomes a letter from H to V. */
  lemma {:induction false} GarbledLower(n: nat, radix: nat, k: nat) returns (c: char)
    requires 2 <= radix <= 16 && n > 0 && k >= NumDigits(n, radix)
    ensures c in Garbled(n, radix, false, k) && 'H' <= c <= 'V'
    decreases k
  {
    var d: int := Rem(n, radix);
    if d == 0 {
      QuoRem(n, radix);
      c := GarbledLower(Quo(n, radix), radix, k - 1);
    } else {
      c := DigitChar(0 - d, false);
    }
  }

  /** In upper case the 8 of radix 16 becomes a slash. */
  lemma {:induction false} GarbledHex(m: nat, k: nat)
    requires k > m
    ensures '/' in Garbled(Round(8, 16, m), 16, true, k)
    decreases m
  {
    if m > 0 {
      RoundDivides(8, 16, m);
      GarbledHex(m - 1, k - 1);
    }
  }

  /** In upper case the 1 of radix 8 becomes a 6. */
  lemma {:induction false} GarbledOctal(m: nat, k: nat)
    requires k > m
    ensures Garbled(Round(1, 8, m), 8, true, k) == Fill('0', k - 1 - m) + ("6" + Fill('0', m))
    decreases m
  {
    if m > 0 {
      RoundDivides(1, 8, m);
      GarbledOctal(m - 1, k - 1);
    } else {
      GarbledZero(k - 1);
      assert Quo(1, 8) == 0;
    }
  }

  lemma {:induction false} GarbledZero(k: nat)
    ensures Garbled(0, 8, true, k) == Fill('0', k)
    decreases k
  {
    if k > 0 {
      GarbledZero(k - 1);
    }
  }

  /** Zeros at the end multiply. */
  lemma {:induction false} TrailingExact(s: seq<char>, m: nat, radix: nat)
    requires radix >= 2
    ensures Value(s + Fill('0', m), 0, radix) == Round(Value(s, 0, radix), radix, m)
    decreases m
  {
    var z := s + Fill('0', m);
    if m > 0 {
      assert z[..|z| - 1] == s + Fill('0', m - 1);
      TrailingExact(s, m - 1, radix);
    } else {
      assert z == s;
    }
  }

  /** So the octal text of the most negative argument is a number, six times too large. */
  lemma {:induction false} LeastCells(k: nat)
    requires k >= 22
    ensures var s := Cells(LEAST, 8, true, k); AllDigits(s, 0, 8) && Value(s, 0, 8) > 0x8000_0000_0000_0000
  {
    LeastIsRound();
    GarbledOctal(21, k);
    SixAndZeros(Fill('0', k - 22), 21);
  }

  lemma {:induction false} SixAndZeros(lead: seq<char>, m: nat)
    requires lead == Fill('0', |lead|)
    ensures var s := lead + ("6" + Fill('0', m)); AllDigits(s, 0, 8) && Value(s, 0, 8) == Round(6, 8, m)
  {
    LeadingZeros(|lead|, "6" + Fill('0', m), 8);
    TrailingExact("6", m, 8);
    assert "6"[..0] == "";
  }

  lemma {:induction false} RoundDigits(top: nat, radix: nat, m: nat)
    requires radix >= 2 && 0 < top < radix
    ensures NumDigits(Round(top, radix, m), radix) == m + 1
    decreases m
  {
    if m > 0 {
      RoundDivides(top, radix, m);
      RoundDigits(top, radix, m - 1);
      Positive(top, radix, m);
    }
  }

  lemma {:induction false} Positive(top: nat, radix: nat, m: nat)
    requires radix >= 2 && top > 0
    ensures Round(top, radix, m) > 0
    decreases m
  {
    if m > 0 {
      Positive(top, radix, m - 1);
      Times(radix, Round(top, radix, m - 1));
    }
  }

  /** Its last decimal digit, 8, becomes a slash in upper case. */
  lemma {:induction false} GarbledDecimal(k: nat)
    requires k > 0
    ensures '/' in Garbled(Magnitude(LEAST), 10, true, k)
  {
    QuoRem(Magnitude(LEAST), 10);
    assert Garbled(Magnitude(LEAST), 10, true, k)[k - 1] == '/';
  }

  /** A cell that is no digit, blank or sign: in lower case a letter, in radix 10 and 16 otherwise a slash. */
  lemma {:induction false} LeastSpoiled(a: Spec, k: nat) returns (c: char)
    requires (a.radix == 8 && !a.flags.upper) || a.radix == 10 || a.radix == 16
    requires k >= NumDigits(Magnitude(LEAST), a.radix)
    ensures c in Garbled(Magnitude(LEAST), a.radix, a.flags.upper, k) && (c == '/' || 'H' <= c <= 'V')
  {
    if !a.flags.upper {
      c := GarbledLower(Magnitude(LEAST), a.radix, k);
    } else {
      c := '/';
      if a.radix == 16 {
        LeastIsRound();
        RoundDigits(8, 16, 15);
        GarbledHex(15, k);
      } else {
        GarbledDecimal(k);
      }
    }
  }

  lemma {:induction false} LeastOctal(a: Spec, hole: char)
    requires a.radix == 8 && a.flags.upper
    ensures !ReadsBack(a, LEAST, hole)
  {
    LeastDigits();
    LeastCells(DigitCount(a, LEAST));
    TextReads(a, LEAST, hole, 8);
    TrailingZeros(CellsOf(a, LEAST), PadCount(a, LEAST), 8);
  }

  lemma {:induction false} LeastDigits()
    ensures NumDigits(Magnitude(LEAST), 8) == 22
  {
    LeastIsRound();
    RoundDigits(1, 8, 21);
  }

  /** The most negative argument is never read back. */
  lemma {:induction false} LeastNeverReads(a: Spec, hole: char)
    requires a.Valid() && !a.Prefixed() && (a.radix == 8 || a.radix == 10 || a.radix == 16)
    ensures !ReadsBack(a, LEAST, hole)
  {
    if a.radix == 8 && a.flags.upper {
      LeastOctal(a, hole);
    } else {
      var c := LeastSpoiled(a, DigitCount(a, LEAST));
      CellInText(a, LEAST, hole, c);
      NoNumber(Render(a, LEAST, hole), a.radix, c);
    }
  }

  // ----- the routine -----

  /** `buf` with `t` written at `at`. */
  function Overlay(buf: seq<char>, at: nat, t: seq<char>): (r: seq<char>)
    requires at + |t| <= |buf|
    ensures |r| == |buf|
  {
    seq(|buf|, i requires 0 <= i < |buf| => if at <= i < at + |t| then t[i - at] else buf[i])
  }

  /** Division of `long long int`, towards zero, and its remainder. */
  method Divide(x: int, radix: nat) returns (q: int, m: int)
    requires radix >= 2
    ensures Magnitude(q) == Quo(Magnitude(x), radix) && (x >= 0 ==> q >= 0) && (x <= 0 ==> q <= 0)
    ensures m == if x >= 0 then Rem(x, radix) else 0 - Rem(-x, radix)
  {
    QuoRem(Magnitude(x), radix);
    q := if x >= 0 then x / radix else -((-x) / radix);
    m := if x >= 0 then x % radix else -((-x) % radix);
  }

  /** One cell more in front. */
  lemma Prepend(buf: seq<char>, i: nat, c: char, t: seq<char>)
    requires 0 < i && i + |t| <= |buf|
    ensures Overlay(buf, i, t)[i - 1 := c] == Overlay(buf, i - 1, [c] + t)
  {
  }

  /** The first loop: how many digits there are. */
  method CountDigits(arg: int, radix: nat) returns (count: nat)
    requires radix >= 2
    ensures count == NumDigits(Magnitude(arg), radix)
  {
    count := 0;
    var rest := arg;
    while rest != 0
      invariant count + NumDigits(Magnitude(rest), radix) == NumDigits(Magnitude(arg), radix)
      decreases Magnitude(rest)
    {
      var digit;
      rest, digit := Divide(rest, radix);
      count := count + 1;
    }
  }

  /** The padding loop. */
  method FillCells(out: array<char>, at: nat, n: nat, c: char)
    requires at + n <= out.Length
    modifies out
    ensures out[..] == Overlay(old(out[..]), at, Fill(c, n))
  {
    for i := 0 to n
      invariant out[..] == Overlay(old(out[..]), at, Fill(c, i))
    {
      out[at + i] := c;
    }
  }

  /** The last cell moves over to what is done. */
  lemma {:induction false} LastCell(negative: bool, n: nat, radix: nat, upper: bool, k: nat, done: seq<char>)
    requires 2 <= radix <= 16 && k > 0
    ensures var c := DigitChar(if negative then 0 - Rem(n, radix) else Rem(n, radix), upper);
      SideCells(negative, n, radix, upper, k) + done ==
      SideCells(negative, Quo(n, radix), radix, upper, k - 1) + ([c] + done)
  {
  }

  /** The digit loop, backwards from cell `end`, for a number or for the most negative one. */
  method WriteDigits(out: array<char>, end: nat, x: int, radix: nat, upper: bool, count: nat)
    requires 2 <= radix <= 16 && count <= end <= out.Length
    modifies out
    ensures out[..] == Overlay(old(out[..]), end - count, SideCells(x < 0, Magnitude(x), radix, upper, count))
  {
    var rest, i := x, end;
    ghost var done: seq<char> := [];
    ghost var all := SideCells(x < 0, Magnitude(x), radix, upper, count);
    for j := 0 to count
      invariant (x >= 0 ==> rest >= 0) && (x < 0 ==> rest <= 0)
      invariant i == end - j && |done| == j && out[..] == Overlay(old(out[..]), i, done)
      invariant all == SideCells(x < 0, Magnitude(rest), radix, upper, count - j) + done
    {
      LastCell(x < 0, Magnitude(rest), radix, upper, count - j, done);
      var digit;
      rest, digit := Divide(rest, radix);
      i := PutBefore(out, i, DigitChar(digit, upper), old(out[..]), done);
      done := [DigitChar(digit, upper)] + done;
    }
    assert done == all;
  }

  lemma PadThenCore(buf: seq<char>, at: nat, c: char, width: nat, lead: nat, core: seq<char>)
    requires lead + |core| <= width && at + width <= |buf|
    ensures Overlay(Overlay(buf, at, Fill(c, width)), at + lead, core) ==
      Overlay(buf, at, Fill(c, lead) + core + Fill(c, width - lead - |core|))
  {
  }

  lemma HoleThenCore(buf: seq<char>, at: nat, c: char, lead: nat, core: seq<char>)
    requires lead <= 1 && at + lead + |core| <= |buf|
    ensures Overlay(buf, at + lead, core) ==
      Overlay(buf, at, Fill(if at < |buf| then buf[at] else ' ', lead) + core + Fill(c, 0))
  {
  }

  function PaddedCells(a: Spec, arg: int, buf: seq<char>, at: nat): (r: seq<char>)
    requires a.Valid() && (Padded(a, arg) ==> at + a.width <= |buf|)
    ensures |r| == |buf|
  {
    if Padded(a, arg) then Overlay(buf, at, Fill(PadChar(a), a.width)) else buf
  }

  /** Writing the core over the padding, if there is padding, makes the text. */
  lemma {:induction false} CoreOverPadding(a: Spec, arg: int, buf: seq<char>, at: nat)
    requires a.Valid() && at + |Render(a, arg, ' ')| <= |buf|
    ensures var hole := if at < |buf| then buf[at] else ' ';
      at + Lead(a, arg) + |Core(a, arg)| <= |buf| &&
      Overlay(PaddedCells(a, arg, buf, at), at + Lead(a, arg), Core(a, arg)) == Overlay(buf, at, Render(a, arg, hole))
  {
    if Padded(a, arg) {
      PadThenCore(buf, at, PadChar(a), a.width, Lead(a, arg), Core(a, arg));
    } else {
      HoleThenCore(buf, at, PadChar(a), Lead(a, arg), Core(a, arg));
    }
  }

  /** `convert_any_int_to_str` into `out` from cell `at` on. */
  method ConvertAnyIntToStr(arg: int, flags: Flags, fieldWidth: nat, precision: nat, radix: nat, out: array<char>,
                            at: nat)
    returns (n: nat)
    requires LEAST <= arg < 0x8000_0000_0000_0000 && 2 <= radix <= 16
    requires at + |Render(Spec(flags, fieldWidth, precision, radix), arg, ' ')| <= out.Length
    modifies out
    ensures n == |Render(Spec(flags, fieldWidth, precision, radix), arg, ' ')|
    ensures var hole := if at < out.Length then old(out[..])[at] else ' ';
      out[..] == Overlay(old(out[..]), at, Render(Spec(flags, fieldWidth, precision, radix), arg, hole))
  {
    var a := Spec(flags, fieldWidth, precision, radix);
    var charCount, extraChars := CountChars(a, arg);
    Pad(a, arg, charCount, out, at);
    var i := if flags.left then charCount else if fieldWidth > charCount then fieldWidth else charCount;
    WriteNumber(arg, a, charCount - extraChars, out, at + i);
    CoreOverPadding(a, arg, old(out[..]), at);
    n := if fieldWidth > charCount then fieldWidth else charCount;
  }

  /** The padding, if the number is narrower than the field. */
  method Pad(a: Spec, ghost arg: int, charCount: nat, out: array<char>, at: nat)
    requires a.Valid() && charCount == CharCount(a, arg) && (Padded(a, arg) ==> at + a.width <= out.Length)
    modifies out
    ensures out[..] == PaddedCells(a, arg, old(out[..]), at)
  {
    if a.width != 0 && charCount < a.width {
      FillCells(out, at, a.width, if a.flags.zero then '0' else ' ');
    }
  }

  /** The part of `convert_any_int_to_str` that counts cells. */
  method CountChars(a: Spec, arg: int) returns (charCount: nat, extraChars: nat)
    requires a.Valid()
    ensures charCount == CharCount(a, arg) && extraChars == Extra(a, arg)
  {
    extraChars := 0;
    if !a.flags.unsigned && a.flags.plus {
      extraChars := extraChars + 1;
    } else if !a.flags.unsigned && arg < 0 {
      extraChars := extraChars + 1;
    }
    if a.flags.alt && a.radix == 16 {
      extraChars := extraChars + 2;
    }
    var digits := CountDigits(arg, a.radix);
    charCount := extraChars + digits;
    var precision := if a.precision == 0 then 1 else a.precision;
    if a.radix == 8 && charCount > precision {
      charCount := charCount + 1;
    }
    if charCount < precision {
      charCount := precision + extraChars;
    }
  }

  /** The part of `convert_any_int_to_str` that writes digits, prefix and sign, backwards from cell `end`. */
  method WriteNumber(arg: int, a: Spec, count: nat, out: array<char>, end: nat)
    requires a.Valid() && count == DigitCount(a, arg) && |Core(a, arg)| <= end <= out.Length
    modifies out
    ensures out[..] == Overlay(old(out[..]), end - |Core(a, arg)|, Core(a, arg))
  {
    var rest := if arg < 0 && arg != LEAST then -arg else arg;
    WriteDigits(out, end, rest, a.radix, a.flags.upper, count);
    WriteBefore(arg, a, out, end - count, old(out[..]), CellsOf(a, arg));
  }

  /** Prefix and sign. */
  method WriteBefore(arg: int, a: Spec, out: array<char>, start: nat, ghost buf: seq<char>, ghost text: seq<char>)
    requires |Sign(a, arg)| + |Prefix(a)| <= start && start + |text| <= |buf| == out.Length &&
      out[..] == Overlay(buf, start, text)
    modifies out
    ensures var t := Sign(a, arg) + (Prefix(a) + text); out[..] == Overlay(buf, start - |Sign(a, arg)| - |Prefix(a)|, t)
  {
    assert "" + text == text;
    var i := start;
    if a.flags.alt && a.radix == 16 {
      i := PutBefore(out, i, if a.flags.upper then 'X' else 'x', buf, text);
    }
    WriteSign(arg, a, out, i, buf, Prefix(a) + text);
  }

  method WriteSign(arg: int, a: Spec, out: array<char>, start: nat, ghost buf: seq<char>, ghost text: seq<char>)
    requires |Sign(a, arg)| <= start && start + |text| <= |buf| == out.Length && out[..] == Overlay(buf, start, text)
    modifies out
    ensures out[..] == Overlay(buf, start - |Sign(a, arg)|, Sign(a, arg) + text)
  {
    assert "" + text == text;
    if !a.flags.unsigned && a.flags.plus {
      var _ := PutBefore(out, start, if arg < 0 then '-' else '+', buf, text);
    } else if !a.flags.unsigned && arg < 0 {
      var _ := PutBefore(out, start, '-', buf, text);
    }
  }

  /** `i--` and a write. */
  method PutBefore(out: array<char>, i: nat, c: char, ghost buf: seq<char>, ghost text: seq<char>) returns (j: nat)
    requires 0 < i && i + |text| <= |buf| == out.Length && out[..] == Overlay(buf, i, text)
    modifies out
    ensures j == i - 1 && out[..] == Overlay(buf, j, [c] + text)
  {
    Prepend(buf, i, c, text);
    j := i - 1;
    out[j] := c;
  }
}
