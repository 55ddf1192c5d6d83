/** Formats as section 7.21.6.1 of ISO/IEC 9899:2011 writes them: literal characters and conversions
    `% flags width .precision length specifier`, and what the scanner makes of them. */
module FormatGrammar {
  import opened Printer
  import opened Format

  /** A width or a precision: decimal digits, an asterisk, or nothing. */
  datatype Field = Absent | Decimal(digits: string) | Asterisk

  datatype Item =
    | Literal(c: char)
    | Conversion(flags: string, width: Field, point: bool, precision: Field, length: string, specifier: char)

  // ----- the text of a format -----

  function FieldText(f: Field): (s: string) {
    match f
    case Absent => ""
    case Decimal(ds) => ds
    case Asterisk => "*"
  }

  function PointText(point: bool): (s: string) { if point then "." else "" }

  /** Characters in the text of an item. */
  function Size(x: Item): (n: nat)
    ensures n > 0
  {
    match x
    case Literal(c) => 1
    case Conversion(fs, w, point, p, l, c) =>
      1 + |fs| + |FieldText(w)| + |PointText(point)| + |FieldText(p)| + |l| + 1
  }

  /** `s` is what the format has from position `i` on. */
  ghost predicate At(fmt: string, i: nat, s: string)
    ensures At(fmt, i, s) ==> i + |s| <= |fmt|
    decreases |s|
  {
    if s == [] then i <= |fmt|
    else i + |s| <= |fmt| && fmt[i + |s| - 1] == s[|s| - 1] && At(fmt, i, s[..|s| - 1])
  }

  /** The text of item `x` is what the format has from position `i` on. */
  ghost predicate Written(fmt: string, i: nat, x: Item) {
    match x
    case Literal(c) => i < |fmt| && fmt[i] == c
    case Conversion(fs, w, point, p, l, s) =>
      var b := i + 1 + |fs|;
      var c := b + |FieldText(w)|;
      var f := c + |PointText(point)|;
      var e := f + |FieldText(p)|;
      e + |l| < |fmt| && fmt[i] == '%' && At(fmt, i + 1, fs) && At(fmt, b, FieldText(w)) &&
      At(fmt, c, PointText(point)) &&
      At(fmt, f, FieldText(p)) && At(fmt, e, l) && fmt[e + |l|] == s
  }

  /** The format from position `i` on is the text of the items, one after another. */
  ghost predicate Spells(fmt: string, i: nat, items: seq<Item>)
    decreases |items|
  {
    if items == [] then i == |fmt| else Written(fmt, i, items[0]) && Spells(fmt, i + Size(items[0]), items[1..])
  }

  predicate DecimalDigits(s: string) { s != [] && forall i :: 0 <= i < |s| ==> IsDecimal(s[i]) }

  predicate FlagChars(s: string) { forall i :: 0 <= i < |s| ==> IsFlag(s[i]) }

  /** Nothing, one of `h l j z t L`, `hh` or `ll`. */
  predicate IsModifier(l: string) {
    |l| == 0 || (|l| == 1 && IsLength(l[0])) || (|l| == 2 && l[0] == l[1] && (l[0] == 'h' || l[0] == 'l'))
  }

  /** Every conversion of the standard's form, with any flags; a width does not start with the flag `0`, and `%%` is
      not among them. */
  predicate WellFormed(x: Item) {
    match x
    case Literal(c) => c != '%' && c != '\0'
    case Conversion(fs, w, point, p, l, c) =>
      FlagChars(fs) && IsModifier(l) && IsSpecifier(c) && c != '%' && (!point ==> p.Absent?) &&
      (w.Decimal? ==> DecimalDigits(w.digits) && w.digits[0] != '0') && (p.Decimal? ==> DecimalDigits(p.digits))
  }

  predicate AllWellFormed(items: seq<Item>) {
    items == [] || (WellFormed(items[0]) && AllWellFormed(items[1..]))
  }

  // ----- what an item means -----

  /** The flags set by one character after another. */
  function FlagSet(f: Flags, fs: string): (g: Flags) {
    if fs == [] then f else WithFlag(FlagSet(f, fs[..|fs| - 1]), fs[|fs| - 1])
  }

  /** A flag is set exactly when its character occurs, in whatever order and however often. */
  lemma {:induction false} FlagSetIs(fs: string)
    requires FlagChars(fs)
    ensures var g := FlagSet(NoFlags(), fs);
      g == Flags('-' in fs, '+' in fs, ' ' in fs, '#' in fs, '0' in fs, false, false, false)
    decreases |fs|
  {
    if fs != [] {
      var n := |fs| - 1;
      assert fs == fs[..n] + [fs[n]] && IsFlag(fs[n]);
      FlagSetIs(fs[..n]);
    }
  }

  /** `ll` is taken for `l`. */
  function ModifierLength(l: string): (r: Length) {
    if |l| == 0 then Plain else if |l| == 2 && l[0] == 'h' then Char else LengthOf(l[0])
  }

  function WithWidth(d: Directive, w: Field, args: seq<Arg>): (r: Outcome<Directive>) {
    match w
    case Absent => Some(d)
    case Decimal(ds) => Some(d.(width := Value(ds, 0, 10)))
    case Asterisk =>
      if HasInt(args, d.next) then Some(d.(width := args[d.next].value, next := d.next + 1)) else BadArgument
  }

  function WithPrecision(d: Directive, p: Field, args: seq<Arg>): (r: Outcome<Directive>) {
    match p
    case Absent => Some(d)
    case Decimal(ds) => Some(d.(precision := Value(ds, 0, 10), flags := d.flags.(precise := true)))
    case Asterisk =>
      if HasInt(args, d.next)
      then Some(d.(precision := args[d.next].value, next := d.next + 1, flags := d.flags.(precise := true)))
        else BadArgument
  }

  /** The directive a conversion stands for. */
  function Means(x: Item, args: seq<Arg>, next: nat): (r: Outcome<Directive>)
    requires x.Conversion?
  {
    var d0 := Fresh(next).(flags := FlagSet(NoFlags(), x.flags));
    var d1 := WithWidth(d0, x.width, args);
    if !d1.Some? then BadArgument
    else
      var d2 := WithPrecision(d1.value, x.precision, args);
      if !d2.Some? then BadArgument else Some(d2.value.(length := ModifierLength(x.length)))
  }

  /** The output of one item after another. */
  function Output(items: seq<Item>, args: seq<Arg>, next: nat, buf: string, out: Out): (r: Outcome<Out>)
    decreases |items|
  {
    if items == [] then Some(out)
    else match items[0]
      case Literal(c) => Output(items[1..], args, next, buf, out.(text := out.text + [c]))
      case Conversion(_, _, _, _, _, c) =>
        var d := Means(items[0], args, next);
        if !d.Some? then BadArgument
        else
          var e := Emit(c, d.value, args, buf, out);
          if !e.Some? then BadArgument else Output(items[1..], args, e.value.next, buf, e.value.out)
  }

  // ----- the phases on the text of a conversion -----

  lemma {:induction false} AtChar(fmt: string, i: nat, s: string, k: nat)
    requires At(fmt, i, s) && k < |s|
    ensures fmt[i + k] == s[k]
    decreases |s|
  {
    if k < |s| - 1 {
      AtChar(fmt, i, s[..|s| - 1], k);
    }
  }

  lemma {:induction false} FlagSetStep(f: Flags, fs: string, n: nat)
    requires n < |fs| && IsFlag(fs[n])
    ensures FlagSet(f, fs[..n + 1]) == WithFlag(FlagSet(f, fs[..n]), fs[n])
  {
    assert fs[..n + 1][..n] == fs[..n];
  }

  lemma {:induction false} FlagsRead(fmt: string, args: seq<Arg>, i: nat, d: Directive, fs: string, n: nat)
    requires At(fmt, i, fs) && FlagChars(fs) && n <= |fs|
    ensures FromFlags(fmt, args, i, d) == FromFlags(fmt, args, i + n, d.(flags := FlagSet(d.flags, fs[..n])))
    decreases n
  {
    if n == 0 {
      assert d.(flags := FlagSet(d.flags, [])) == d;
    } else {
      FlagsRead(fmt, args, i, d, fs, n - 1);
      AtChar(fmt, i, fs, n - 1);
      FlagSetStep(d.flags, fs, n - 1);
    }
  }

  /** The flags. */
  lemma {:induction false} FlagsPhase(fmt: string, args: seq<Arg>, i: nat, d: Directive, fs: string)
    requires At(fmt, i, fs) && FlagChars(fs) && (i + |fs| < |fmt| ==> !IsFlag(fmt[i + |fs|]))
    ensures FromFlags(fmt, args, i, d) == FromWidth(fmt, args, i + |fs|, d.(flags := FlagSet(d.flags, fs)))
  {
    FlagsRead(fmt, args, i, d, fs, |fs|);
    assert fs[..|fs|] == fs;
  }

  /** Decimal digits as the printer's reader values them. */
  lemma {:induction false} ValueGrows(ds: string, n: nat)
    requires n < |ds| && IsDecimal(ds[n])
    ensures Value(ds[..n + 1], 0, 10) == Appended(Value(ds[..n], 0, 10), ds[n])
  {
    assert ds[..n + 1][..n] == ds[..n];
  }

  lemma {:induction false} WidthDigits(fmt: string, args: seq<Arg>, i: nat, d: Directive, ds: string, n: nat)
    requires At(fmt, i, ds) && DecimalDigits(ds) && n <= |ds| && d.width == 0
    ensures FromWidth(fmt, args, i, d) == FromWidth(fmt, args, i + n, d.(width := Value(ds[..n], 0, 10)))
    decreases n
  {
    if n == 0 {
      assert d.(width := 0) == d;
    } else {
      WidthDigits(fmt, args, i, d, ds, n - 1);
      AtChar(fmt, i, ds, n - 1);
      ValueGrows(ds, n - 1);
    }
  }

  lemma {:induction false} PrecisionDigits(fmt: string, args: seq<Arg>, i: nat, d: Directive, ds: string, n: nat)
    requires At(fmt, i, ds) && DecimalDigits(ds) && 0 < n <= |ds| && d.precision == 0
    ensures FromPrecision(fmt, args, i, d) ==
      FromPrecision(fmt, args, i + n, d.(precision := Value(ds[..n], 0, 10), flags := d.flags.(precise := true)))
    decreases n
  {
    AtChar(fmt, i, ds, n - 1);
    ValueGrows(ds, n - 1);
    if n > 1 {
      PrecisionDigits(fmt, args, i, d, ds, n - 1);
    } else {
      assert Value(ds[..0], 0, 10) == 0;
    }
  }

  predicate StartsField(c: char) { IsDecimal(c) || c == '*' }

  /** The width, whatever form it has. */
  lemma {:induction false} WidthPhase(fmt: string, args: seq<Arg>, i: nat, d: Directive, w: Field)
    requires At(fmt, i, FieldText(w)) && (w.Decimal? ==> DecimalDigits(w.digits)) && d.width == 0
    requires var j := i + |FieldText(w)|; j < |fmt| && !StartsField(fmt[j])
    ensures var j, r := i + |FieldText(w)|, WithWidth(d, w, args);
      FromWidth(fmt, args, i, d) == if !r.Some? then BadArgument else FromWidth(fmt, args, j, r.value)
  {
    match w
    case Absent =>
    case Decimal(ds) =>
      WidthDigits(fmt, args, i, d, ds, |ds|);
      assert ds[..|ds|] == ds;
    case Asterisk =>
      AtChar(fmt, i, "*", 0);
  }

  /** The precision, behind its point. */
  lemma {:induction false} PrecisionPhase(fmt: string, args: seq<Arg>, i: nat, d: Directive, p: Field)
    requires At(fmt, i, FieldText(p)) && (p.Decimal? ==> DecimalDigits(p.digits)) && d.precision == 0
    requires var j := i + |FieldText(p)|; j < |fmt| && !StartsField(fmt[j])
    ensures var j, r := i + |FieldText(p)|, WithPrecision(d, p, args);
      FromPrecision(fmt, args, i, d) == if !r.Some? then BadArgument else FromLength(fmt, args, j, r.value)
  {
    match p
    case Absent =>
    case Decimal(ds) =>
      PrecisionDigits(fmt, args, i, d, ds, |ds|);
      assert ds[..|ds|] == ds;
    case Asterisk =>
      AtChar(fmt, i, "*", 0);
      var r := WithPrecision(d, p, args);
      assert r.Some? ==> FromPrecision(fmt, args, i, d) == FromPrecision(fmt, args, i + 1, r.value);
  }

  /** The length modifier and the specifier. */
  lemma {:induction false} LengthPhase(fmt: string, args: seq<Arg>, i: nat, d: Directive, l: string, c: char)
    requires IsModifier(l) && i + |l| < |fmt| && fmt[i + |l|] == c && IsSpecifier(c) && d.length == Plain
    requires (|l| > 0 ==> fmt[i] == l[0]) && (|l| > 1 ==> fmt[i + 1] == l[1])
    ensures FromLength(fmt, args, i, d) == Some(Scanned(d.(length := ModifierLength(l)), i + |l|))
  {
    var d' := d.(length := ModifierLength(l));
    if |l| == 2 && l[0] == 'l' {
      assert FromLength(fmt, args, i, d) == FromSpecifier(fmt, args, i + 1, d');
      assert FromSpecifier(fmt, args, i + 1, d') == FromSpecifier(fmt, args, i + 2, d');
    } else if |l| == 0 {
      assert d' == d;
    }
    assert FromSpecifier(fmt, args, i + |l|, d') == Some(Scanned(d', i + |l|));
  }

  // What follows the precision, the width, and the flags.

  lemma {:induction false} StopsPrecision(fmt: string, e: nat, l: string, c: char)
    requires At(fmt, e, l) && e + |l| < |fmt| && fmt[e + |l|] == c && IsModifier(l) && IsSpecifier(c)
    ensures !StartsField(fmt[e]) && fmt[e] != '.' && !IsFlag(fmt[e])
  {
    if |l| > 0 {
      AtChar(fmt, e, l, 0);
    }
  }

  lemma {:induction false} StopsWidth(fmt: string, c: nat, e: nat, point: bool, p: Field)
    requires At(fmt, c, PointText(point)) && e == c + |PointText(point)| + |FieldText(p)| < |fmt| &&
      (!point ==> p.Absent?)
    requires !StartsField(fmt[e]) && fmt[e] != '.' && !IsFlag(fmt[e])
    ensures !StartsField(fmt[c]) && !IsFlag(fmt[c]) && (point ==> fmt[c] == '.')
  {
    if point {
      AtChar(fmt, c, ".", 0);
    }
  }

  lemma {:induction false} StopsFlags(fmt: string, b: nat, c: nat, w: Field)
    requires At(fmt, b, FieldText(w)) && c == b + |FieldText(w)| < |fmt| && !IsFlag(fmt[c])
    requires w.Decimal? ==> DecimalDigits(w.digits) && w.digits[0] != '0'
    ensures !IsFlag(fmt[b])
  {
    if !w.Absent? {
      AtChar(fmt, b, FieldText(w), 0);
    }
  }

  /** Where the parts of a conversion are, and what follows each of them: flags at `a`, width at `b`, point at `c`,
      length modifier at `e`, specifier at `g`. */
  ghost predicate Spread(fmt: string, a: nat, b: nat, c: nat, e: nat, g: nat, x: Item)
    requires x.Conversion?
  {
    var f := c + |PointText(x.point)|;
    b == a + |x.flags| && c == b + |FieldText(x.width)| && e == f + |FieldText(x.precision)| && g == e + |x.length| &&
    g < |fmt| &&
    At(fmt, a, x.flags) && At(fmt, b, FieldText(x.width)) && At(fmt, f, FieldText(x.precision)) &&
    At(fmt, e, x.length) &&
    (x.point ==> fmt[c] == '.') && fmt[g] == x.specifier &&
    !StartsField(fmt[e]) && fmt[e] != '.' && !StartsField(fmt[c]) && !IsFlag(fmt[b])
  }

  lemma {:induction false} Placed(fmt: string, i: nat, b: nat, c: nat, e: nat, g: nat, x: Item)
    requires WellFormed(x) && x.Conversion? && Written(fmt, i, x)
    requires b == i + 1 + |x.flags| && c == b + |FieldText(x.width)|
    requires e == c + |PointText(x.point)| + |FieldText(x.precision)| && g == e + |x.length|
    ensures Spread(fmt, i + 1, b, c, e, g, x)
  {
    StopsPrecision(fmt, e, x.length, x.specifier);
    StopsWidth(fmt, c, e, x.point, x.precision);
    StopsFlags(fmt, b, c, x.width);
  }

  lemma {:induction false} FirstPhases(fmt: string, args: seq<Arg>, a: nat, b: nat, c: nat, d: Directive, fs: string,
                                       w: Field)
    requires At(fmt, a, fs) && FlagChars(fs) && b == a + |fs| && At(fmt, b, FieldText(w)) &&
      c == b + |FieldText(w)| < |fmt|
    requires (w.Decimal? ==> DecimalDigits(w.digits)) && d.width == 0 && !StartsField(fmt[c]) && !IsFlag(fmt[b])
    ensures var d1 := WithWidth(d.(flags := FlagSet(d.flags, fs)), w, args);
      FromFlags(fmt, args, a, d) == if !d1.Some? then BadArgument else FromWidth(fmt, args, c, d1.value)
  {
    FlagsPhase(fmt, args, a, d, fs);
    WidthPhase(fmt, args, b, d.(flags := FlagSet(d.flags, fs)), w);
  }

  lemma {:induction false} PointPhase(fmt: string, args: seq<Arg>, c: nat, e: nat, d: Directive, point: bool, p: Field)
    requires c < |fmt| && !StartsField(fmt[c]) && (if point then fmt[c] == '.' else fmt[c] != '.' && p.Absent?)
    requires var f := if point then c + 1 else c; At(fmt, f, FieldText(p)) && e == f + |FieldText(p)|
    requires (p.Decimal? ==> DecimalDigits(p.digits)) && d.precision == 0 && e < |fmt| && !StartsField(fmt[e])
    ensures var d2 := WithPrecision(d, p, args);
      FromWidth(fmt, args, c, d) == if !d2.Some? then BadArgument else FromLength(fmt, args, e, d2.value)
  {
    if point {
      PrecisionPhase(fmt, args, c + 1, d, p);
    }
  }

  lemma {:induction false} LastPhase(fmt: string, args: seq<Arg>, e: nat, d: Directive, l: string, c: char)
    requires At(fmt, e, l) && IsModifier(l) && e + |l| < |fmt| && fmt[e + |l|] == c && IsSpecifier(c) &&
      d.length == Plain
    ensures FromLength(fmt, args, e, d) == Some(Scanned(d.(length := ModifierLength(l)), e + |l|))
  {
    if |l| > 0 { AtChar(fmt, e, l, 0); }
    if |l| > 1 { AtChar(fmt, e, l, 1); }
    LengthPhase(fmt, args, e, d, l, c);
  }

  /** The phases one after another, on the parts of a conversion. */
  lemma {:induction false} PhasesCompose(fmt: string, args: seq<Arg>, a: nat, b: nat, c: nat, e: nat, g: nat,
                                         next: nat, x: Item)
    requires x.Conversion? && WellFormed(x) && Spread(fmt, a, b, c, e, g, x)
    ensures var m := Means(x, args, next);
      FromFlags(fmt, args, a, Fresh(next)) == if !m.Some? then BadArgument else Some(Scanned(m.value, g))
  {
    FirstPhases(fmt, args, a, b, c, Fresh(next), x.flags, x.width);
    var d1 := WithWidth(Fresh(next).(flags := FlagSet(NoFlags(), x.flags)), x.width, args);
    if d1.Some? {
      PointPhase(fmt, args, c, e, d1.value, x.point, x.precision);
      var d2 := WithPrecision(d1.value, x.precision, args);
      if d2.Some? {
        LastPhase(fmt, args, e, d2.value, x.length, x.specifier);
      }
    }
  }

  /** The scanner takes the text of a conversion for what it means, and stops at its specifier. */
  lemma {:induction false} ScansAsWritten(fmt: string, args: seq<Arg>, i: nat, next: nat, x: Item)
    requires WellFormed(x) && x.Conversion? && Written(fmt, i, x)
    ensures fmt[i] == '%' && fmt[i + Size(x) - 1] == x.specifier
    ensures var m := Means(x, args, next);
      FromFlags(fmt, args, i + 1, Fresh(next)) == if !m.Some? then BadArgument
      else Some(Scanned(m.value, i + Size(x) - 1))
  {
    var b := i + 1 + |x.flags|;
    var c := b + |FieldText(x.width)|;
    var e := c + |PointText(x.point)| + |FieldText(x.precision)|;
    Placed(fmt, i, b, c, e, e + |x.length|, x);
    PhasesCompose(fmt, args, i + 1, b, c, e, e + |x.length|, next, x);
  }

  /** What is left after one specifier. */
  function Continued(fmt: string, args: seq<Arg>, j: nat, buf: string, e: Outcome<Emitted>): (r: Outcome<Out>) {
    if !e.Some? then BadArgument else Run(fmt, args, j, e.value.next, buf, e.value.out)
  }

  /** One directive of a run, whose specifier is right before position `j`. */
  lemma {:induction false} RunUnfolds(fmt: string, args: seq<Arg>, i: nat, j: nat, next: nat, buf: string, out: Out,
                                      d: Directive, e: Outcome<Emitted>)
    requires i < j <= |fmt| && fmt[i] == '%' && fmt[j - 1] != '%' && e == Emit(fmt[j - 1], d, args, buf, out)
    requires FromFlags(fmt, args, i + 1, Fresh(next)) == Some(Scanned(d, j - 1))
    ensures Run(fmt, args, i, next, buf, out) == Continued(fmt, args, j, buf, e)
  {
    if !e.Some? {
      assert Run(fmt, args, i, next, buf, out) == BadArgument;
    } else {
      assert Run(fmt, args, i, next, buf, out) == Run(fmt, args, j, e.value.next, buf, e.value.out);
    }
  }

  lemma {:induction false} RunConversion(fmt: string, args: seq<Arg>, i: nat, next: nat, buf: string, out: Out, x: Item,
                                         d: Directive, e: Outcome<Emitted>)
    requires WellFormed(x) && x.Conversion? && Written(fmt, i, x) && Means(x, args, next) == Some(d)
    requires e == Emit(x.specifier, d, args, buf, out)
    ensures Run(fmt, args, i, next, buf, out) == Continued(fmt, args, i + Size(x), buf, e)
  {
    ScansAsWritten(fmt, args, i, next, x);
    RunUnfolds(fmt, args, i, i + Size(x), next, buf, out, d, e);
  }

  /** Output of a conversion and the items behind it. */
  lemma OutputConversion(items: seq<Item>, args: seq<Arg>, next: nat, buf: string, out: Out, d: Directive,
                         e: Outcome<Emitted>)
    requires items != [] && items[0].Conversion? && Means(items[0], args, next) == Some(d)
    requires e == Emit(items[0].specifier, d, args, buf, out)
    ensures Output(items, args, next, buf, out) ==
      if e.Some? then Output(items[1..], args, e.value.next, buf, e.value.out) else BadArgument
  {
  }

  /** Running the scanner from position `i` on is printing the items. */
  predicate RunsAs(fmt: string, i: nat, items: seq<Item>, args: seq<Arg>, next: nat, buf: string, out: Out) {
    Run(fmt, args, i, next, buf, out) == Output(items, args, next, buf, out)
  }

  /** A conversion in front of items that run as they are printed. */
  lemma {:induction false} ConversionFront(fmt: string, i: nat, items: seq<Item>, args: seq<Arg>, next: nat,
                                           buf: string, out: Out, d: Directive, e: Outcome<Emitted>)
    requires items != [] && items[0].Conversion? && WellFormed(items[0]) && Written(fmt, i, items[0])
    requires Means(items[0], args, next) == Some(d) && e == Emit(items[0].specifier, d, args, buf, out)
    requires e.Some? ==> RunsAs(fmt, i + Size(items[0]), items[1..], args, e.value.next, buf, e.value.out)
    ensures RunsAs(fmt, i, items, args, next, buf, out)
  {
    RunConversion(fmt, args, i, next, buf, out, items[0], d, e);
    OutputConversion(items, args, next, buf, out, d, e);
  }

  /** A conversion whose asterisks lack their arguments. */
  lemma {:induction false} NoMeaningFront(fmt: string, i: nat, items: seq<Item>, args: seq<Arg>, next: nat,
                                          buf: string, out: Out)
    requires items != [] && items[0].Conversion? && WellFormed(items[0]) && Written(fmt, i, items[0])
    requires !Means(items[0], args, next).Some?
    ensures RunsAs(fmt, i, items, args, next, buf, out)
  {
    ScansAsWritten(fmt, args, i, next, items[0]);
  }

  lemma LiteralFront(fmt: string, i: nat, items: seq<Item>, args: seq<Arg>, next: nat, buf: string, out: Out, o: Out)
    requires items != [] && items[0].Literal? && WellFormed(items[0]) && Written(fmt, i, items[0])
    requires o == out.(text := out.text + [items[0].c]) && RunsAs(fmt, i + 1, items[1..], args, next, buf, o)
    ensures RunsAs(fmt, i, items, args, next, buf, out)
  {
  }

  lemma {:induction false} ItemsRun(fmt: string, i: nat, items: seq<Item>, args: seq<Arg>, next: nat, buf: string,
                                    out: Out)
    requires AllWellFormed(items) && Spells(fmt, i, items)
    ensures RunsAs(fmt, i, items, args, next, buf, out)
    decreases |items|
  {
    if items != [] {
      var x, rest := items[0], items[1..];
      if x.Literal? {
        var o := out.(text := out.text + [x.c]);
        ItemsRun(fmt, i + 1, rest, args, next, buf, o);
        LiteralFront(fmt, i, items, args, next, buf, out, o);
      } else if Means(x, args, next).Some? {
        var d := Means(x, args, next).value;
        var e := Emit(x.specifier, d, args, buf, out);
        if e.Some? {
          ItemsRun(fmt, i + Size(x), rest, args, e.value.next, buf, e.value.out);
        }
        ConversionFront(fmt, i, items, args, next, buf, out, d, e);
      } else {
        NoMeaningFront(fmt, i, items, args, next, buf, out);
      }
    }
  }

  /** For every format that spells a sequence of well-formed items: running the scanner over it is printing the items
      one after another. */
  lemma {:induction false} RunIsOutput(fmt: string, i: nat, items: seq<Item>, args: seq<Arg>, next: nat, buf: string,
                                       out: Out)
    requires AllWellFormed(items) && Spells(fmt, i, items)
    ensures Run(fmt, args, i, next, buf, out) == Output(items, args, next, buf, out)
  {
    ItemsRun(fmt, i, items, args, next, buf, out);
  }

  // ----- what one conversion prints -----

  /** The argument that a length modifier asks for. */
  predicate KindFits(l: string, a: Arg) {
    if l == "j" || l == "L" then a.LongLong? else if l == "z" then a.Size? else if l == "l" || l == "ll" then a.Long?
    else a.Int?
  }

  /** An integer conversion has its argument, and that and the precision are in range. */
  predicate HasInteger(x: Item, d: Directive, args: seq<Arg>)
    requires x.Conversion?
  {
    d.next < |args| && KindFits(x.length, args[d.next]) && d.precision % 0x1_0000_0000 + 3 < 0x1_0000_0000 &&
    -0x8000_0000_0000_0000 <= args[d.next].value < 0x8000_0000_0000_0000
  }

  /** Output of one conversion is what its specifier emits. */
  lemma {:induction false} OneItem(x: Item, args: seq<Arg>, next: nat, buf: string, out: Out, d: Directive)
    requires x.Conversion? && Means(x, args, next) == Some(d)
    ensures var o, e := Output([x], args, next, buf, out), Emit(x.specifier, d, args, buf, out);
      o == if e.Some? then Some(e.value.out) else BadArgument
  {
    var e := Emit(x.specifier, d, args, buf, out);
    assert [x][1..] == [];
    if e.Some? {
      assert Output([], args, e.value.next, buf, e.value.out) == Some(e.value.out);
    }
  }

  /** The flags of a directive as they are written, and what they never are before the specifier is met. */
  lemma {:induction false} MeansFlags(x: Item, args: seq<Arg>, next: nat, d: Directive)
    requires x.Conversion? && WellFormed(x) && Means(x, args, next) == Some(d)
    ensures !d.flags.upper && !d.flags.unsigned && (d.flags.precise <==> !x.precision.Absent?)
    ensures d.flags.left == ('-' in x.flags) && d.flags.plus == ('+' in x.flags) && d.flags.zero == ('0' in x.flags)
    ensures d.flags.alt == ('#' in x.flags) && d.length == ModifierLength(x.length)
  {
    FlagSetIs(x.flags);
  }

  /** `hh` and `h` ask for an `int`, `l` and `ll` for a `long`, `j` and `L` for a `long long`, `z` for a `size_t`. */
  lemma {:induction false} KindIs(l: string, a: Arg)
    requires IsModifier(l)
    ensures KindFits(l, a) <==>
      match ModifierLength(l)
      case LongDouble | IntMax => a.LongLong?
      case SizeT => a.Size?
      case LongInt => a.Long?
      case _ => a.Int?
  {
    if |l| == 1 {
      assert l == [l[0]];
    } else if |l| == 2 {
      assert l == [l[0], l[1]];
    }
  }

  /** The text of one integer conversion: there is one exactly when the argument is there; `d` and `i` print in radix
      10, `o` and `u` in radix 8, `x`, `X` and `p` in radix 16, and reading the text in that radix gives the argument
      exactly when the conversion is readable. */
  lemma {:induction false} IntegerItem(
    x: Item, args: seq<Arg>, next: nat, buf: string, out: Out, d: Directive, radix: nat)
    requires x.Conversion? && WellFormed(x) && Means(x, args, next) == Some(d)
    requires x.specifier in "diouxXp"
    requires radix == if x.specifier in "di" then 10 else if x.specifier in "ou" then 8 else 16
    ensures Output([x], args, next, buf, out).Some? <==> HasInteger(x, d, args)
    ensures HasInteger(x, d, args) ==>
      var o, arg := Output([x], args, next, buf, out).value, args[d.next].value;
      var flags := d.flags.(unsigned := x.specifier !in "di", upper := x.specifier == 'X');
      var a := Spec(flags, d.width % 0x1_0000_0000, d.precision % 0x1_0000_0000, radix);
      var hole := if |out.text| < |buf| then buf[|out.text|] else ' ';
      o.text == out.text + Render(a, arg, hole) && o.cells == out.cells &&
      (ReadNumber(o.text[|out.text|..], radix) == Number(arg) <==> Readable(a, arg))
  {
    MeansFlags(x, args, next, d);
    OneItem(x, args, next, buf, out, d);
    IntegerEmits(x, d, args, buf, out);
    if HasInteger(x, d, args) {
      SpecIs(x.specifier, d, radix);
      SuffixReads(out.text, SpecOf(x.specifier, d), args[d.next].value, HoleAt(buf, |out.text|));
    }
  }

  lemma {:induction false} IntegerEmits(x: Item, d: Directive, args: seq<Arg>, buf: string, out: Out)
    requires x.Conversion? && IsInteger(x.specifier) && IsModifier(x.length) && d.length == ModifierLength(x.length)
    ensures Emit(x.specifier, d, args, buf, out) ==
      if HasInteger(x, d, args)
      then var text := Render(SpecOf(x.specifier, d), args[d.next].value, HoleAt(buf, |out.text|));
           Some(Emitted(out.(text := out.text + text), d.next + 1))
      else BadArgument
  {
    if d.next < |args| {
      KindIs(x.length, args[d.next]);
    }
  }

  lemma SpecIs(c: char, d: Directive, radix: nat)
    requires IsInteger(c) && !d.flags.upper && !d.flags.unsigned
    requires radix == if c in "di" then 10 else if c in "ou" then 8 else 16
    ensures var flags := d.flags.(unsigned := c !in "di", upper := c == 'X');
      SpecOf(c, d) == Spec(flags, d.width % 0x1_0000_0000, d.precision % 0x1_0000_0000, radix)
  {
  }

  lemma {:induction false} SuffixReads(pre: string, a: Spec, arg: int, hole: char)
    requires a.Valid() && (a.radix == 8 || a.radix == 10 || a.radix == 16)
    ensures ReadNumber((pre + Render(a, arg, hole))[|pre|..], a.radix) == Number(arg) <==> Readable(a, arg)
  {
    RoundTrip(a, arg, hole);
    assert (pre + Render(a, arg, hole))[|pre|..] == Render(a, arg, hole);
  }

  /** `%c` prints the low byte of its argument. */
  lemma {:induction false} CharItem(x: Item, args: seq<Arg>, next: nat, buf: string, out: Out, d: Directive)
    requires x.Conversion? && Means(x, args, next) == Some(d) && x.specifier == 'c'
    ensures Output([x], args, next, buf, out) ==
      if d.next < |args| && args[d.next].Int?
      then Some(out.(text := out.text + [(args[d.next].value % 256) as char])) else BadArgument
  {
    OneItem(x, args, next, buf, out, d);
  }

  /** `%s` prints its argument, or if there is a precision no more than the first that many characters. */
  lemma {:induction false} StringItem(
    x: Item, args: seq<Arg>, next: nat, buf: string, out: Out, d: Directive, t: string, n: nat)
    requires x.Conversion? && WellFormed(x) && Means(x, args, next) == Some(d) && x.specifier == 's'
    requires d.next < |args| && args[d.next] == Text(t) && '\0' !in t
    requires n == if x.precision.Absent? || |t| <= d.precision % 0x1_0000_0000 then |t| else d.precision % 0x1_0000_0000
    ensures Output([x], args, next, buf, out) == Some(out.(text := out.text + t[..n]))
  {
    MeansFlags(x, args, next, d);
    OneItem(x, args, next, buf, out, d);
  }

  /** `%n` prints nothing and stores the number of characters printed so far. */
  lemma {:induction false} CountItem(x: Item, args: seq<Arg>, next: nat, buf: string, out: Out, d: Directive, i: nat)
    requires x.Conversion? && Means(x, args, next) == Some(d) && x.specifier == 'n'
    requires d.next < |args| && args[d.next] == Cell(i) && i < |out.cells|
    ensures Output([x], args, next, buf, out) == Some(Out(out.text, out.cells[i := |out.text|]))
  {
    OneItem(x, args, next, buf, out, d);
  }

  /** The asterisks of a conversion. */
  function Stars(x: Item): (n: nat)
    requires x.Conversion?
  {
    (if x.width.Asterisk? then 1 else 0) + (if x.precision.Asterisk? then 1 else 0)
  }

  /** Each asterisk uses one argument. */
  lemma {:induction false} AsterisksUse(x: Item, args: seq<Arg>, next: nat, d: Directive)
    requires x.Conversion? && WellFormed(x) && Means(x, args, next) == Some(d)
    ensures d.next == next + Stars(x)
  {
  }

  lemma EmitUses(c: char, d: Directive, args: seq<Arg>, buf: string, out: Out)
    requires c in "diouxXpcsn"
    ensures var e := Emit(c, d, args, buf, out); e.Some? ==> e.value.next == d.next + 1
  {
  }

  /** Each conversion uses one argument, after those of its asterisks: what comes next is printed from there on. */
  lemma {:induction false} ItemsInOrder(
    items: seq<Item>, args: seq<Arg>, next: nat, buf: string, out: Out, d: Directive)
    requires items != [] && items[0].Conversion? && WellFormed(items[0]) && Means(items[0], args, next) == Some(d)
    ensures var o, used := Output([items[0]], args, next, buf, out), Stars(items[0]) + 1;
      Output(items, args, next, buf, out) ==
      if o.Some? then Output(items[1..], args, next + used, buf, o.value) else BadArgument
  {
    var e := ItemUses(items[0], args, next, buf, out, d);
    OutputConversion(items, args, next, buf, out, d, e);
  }

  lemma {:induction false} ItemUses(x: Item, args: seq<Arg>, next: nat, buf: string, out: Out, d: Directive)
    returns (e: Outcome<Emitted>)
    requires x.Conversion? && WellFormed(x) && Means(x, args, next) == Some(d)
    ensures e == Emit(x.specifier, d, args, buf, out) && (e.Some? ==> e.value.next == next + Stars(x) + 1)
    ensures Output([x], args, next, buf, out) == if e.Some? then Some(e.value.out) else BadArgument
  {
    e := Emit(x.specifier, d, args, buf, out);
    AsterisksUse(x, args, next, d);
    EmitUses(x.specifier, d, args, buf, out);
    OneItem(x, args, next, buf, out, d);
  }

  /** Widths and precisions are the numbers written, or the arguments for asterisks. */
  lemma {:induction false} FieldsMean(x: Item, args: seq<Arg>, next: nat, d: Directive)
    requires x.Conversion? && WellFormed(x) && Means(x, args, next) == Some(d)
    ensures match x.width
      case Absent => d.width == 0
      case Decimal(ds) => d.width == Value(ds, 0, 10)
      case Asterisk => next < |args| && args[next] == Int(d.width)
    ensures var k := next + (if x.width.Asterisk? then 1 else 0);
      match x.precision
      case Absent => d.precision == 0
      case Decimal(ds) => d.precision == Value(ds, 0, 10)
      case Asterisk => k < |args| && args[k] == Int(d.precision)
  {
  }

  // ----- where the scanner departs from the standard -----

  lemma {:induction false} PercentScanned(fmt: string, args: seq<Arg>, i: nat, d: Directive)
    requires i < |fmt| && fmt[i] == '%'
    ensures FromFlags(fmt, args, i, d) == Some(Scanned(d, i))
  {
    assert FromFlags(fmt, args, i, d) == FromWidth(fmt, args, i, d) == FromLength(fmt, args, i, d);
  }

  lemma PercentEmitted(d: Directive, args: seq<Arg>, buf: string, out: Out)
    ensures Emit('%', d, args, buf, out) == Some(Emitted(out.(text := out.text + "%"), d.next))
  {
  }

  /** `%%` prints a percent sign, but the second one is then read again as the start of a directive. */
  lemma {:induction false} PercentReadTwice(fmt: string, args: seq<Arg>, i: nat, next: nat, buf: string, out: Out)
    requires i + 1 < |fmt| && fmt[i] == '%' && fmt[i + 1] == '%'
    ensures Run(fmt, args, i, next, buf, out) == Run(fmt, args, i + 1, next, buf, out.(text := out.text + "%"))
  {
    PercentScanned(fmt, args, i + 1, Fresh(next));
    PercentEmitted(Fresh(next), args, buf, out);
  }

  /** So a format that ends with `%%` takes the scanner past its end. */
  lemma {:induction false} FinalPercentFails(pre: string, args: seq<Arg>, next: nat, buf: string, out: Out)
    ensures Run(pre + "%%", args, |pre|, next, buf, out) == PastEnd
  {
    var fmt := pre + "%%";
    PastTheEnd(fmt, args, next, buf, out.(text := out.text + "%"));
    PercentReadTwice(fmt, args, |pre|, next, buf, out);
  }

  lemma {:induction false} PastTheEnd(fmt: string, args: seq<Arg>, next: nat, buf: string, out: Out)
    requires fmt != [] && fmt[|fmt| - 1] == '%'
    ensures Run(fmt, args, |fmt| - 1, next, buf, out) == PastEnd
  {
    assert FromFlags(fmt, args, |fmt|, Fresh(next)) == FromWidth(fmt, args, |fmt|, Fresh(next));
  }

  /** Octal digits read as decimal never fall below the number, and meet it only below eight. */
  lemma {:induction false} OctalAsDecimal(n: nat, upper: bool, k: nat)
    requires k >= NumDigits(n, 8)
    ensures var s := Digits(n, 8, upper, k);
      AllDigits(s, 0, 10) && Value(s, 0, 10) >= n && (Value(s, 0, 10) == n <==> n < 8)
    decreases k
  {
    if k > 0 {
      var q, m := Quo(n, 8), Rem(n, 8);
      var s, t := Digits(n, 8, upper, k), Digits(q, 8, upper, k - 1);
      OctalAsDecimal(q, upper, k - 1);
      DigitCharValue(m, upper);
      assert s[..k - 1] == t;
      QuoRem(n, 8);
      OneMoreOctal(n, q, m, Value(t, 0, 10));
    }
  }

  lemma OneMoreOctal(n: nat, q: nat, m: nat, v: nat)
    requires n == 8 * q + m && m < 8 && v >= q && (v == q <==> q < 8)
    ensures 10 * v + m >= n && (10 * v + m == n <==> n < 8)
  {
  }

  /** What `%u` prints, with any flags, width and precision, reads as the number in decimal exactly when the number is
      below eight, or is zero if zeros are put behind it. */
  lemma {:induction false} UnsignedReads(d: Directive, n: nat, hole: char)
    ensures var a := SpecOf('u', d);
      ReadNumber(Render(a, n, hole), 10) == Number(n) <==>
      if Padded(a, n) && d.flags.zero && d.flags.left then n == 0 else n < 8
  {
    var a := SpecOf('u', d);
    OctalAsDecimal(n, d.flags.upper, DigitCount(a, n));
    DigitsMissing(a, n);
    TextReads(a, n, hole, 10);
    TrailingZeros(CellsOf(a, n), PadCount(a, n), 10);
  }

  /** `%u` of 10 prints 012, and `%-03u` of 5 prints 500. */
  lemma {:induction false} UnsignedMisprints(hole: char)
    ensures var d := Fresh(0);
      ReadNumber(Render(SpecOf('u', d), 10, hole), 10) != Number(10) &&
      var e := d.(flags := d.flags.(left := true, zero := true), width := 3);
      ReadNumber(Render(SpecOf('u', e), 5, hole), 10) != Number(5)
  {
    var d := Fresh(0);
    UnsignedReads(d, 10, hole);
    var e := d.(flags := d.flags.(left := true, zero := true), width := 3);
    UnsignedReads(e, 5, hole);
    assert NumDigits(5, 8) == 1;
  }
}
