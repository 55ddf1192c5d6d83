/** `kaos_vsprintf`: the format scanner. */
module Format {
  import opened Printer

  /** What a scan comes to: a value; a directive without a specifier, which takes the scan past the end of the format;
      or an argument that is missing, of the wrong type, or a precision that makes the printer write below its
      buffer. */
  datatype Outcome<T> = Some(value: T) | PastEnd | BadArgument

  /** Variadic arguments by the type that `va_arg` names; a count cell is the target of an `int *`. */
  datatype Arg =
    | Int(value: int)
    | Long(value: int)
    | LongLong(value: int)
    | Size(value: int)
    | Text(chars: string)
    | Cell(index: nat)

  /** Length modifiers as `length` records them. */
  datatype Length = Plain | Char | Short | LongInt | IntMax | SizeT | PtrDiff | LongDouble

  /** What the scanner knows of a directive: flags, width, precision, length, and the arguments used so far. */
  datatype Directive = Directive(flags: Flags, width: int, precision: int, length: Length, next: nat)

  /** A directive up to its specifier, and where the specifier is. */
  datatype Scanned = Scanned(d: Directive, pos: nat)

  function NoFlags(): (f: Flags) { Flags(false, false, false, false, false, false, false, false) }

  function Fresh(next: nat): (d: Directive) { Directive(NoFlags(), 0, 0, Plain, next) }

  predicate IsFlag(c: char) { c == '-' || c == '+' || c == ' ' || c == '#' || c == '0' }

  predicate IsDecimal(c: char) { '0' <= c <= '9' }

  predicate IsLength(c: char) { c == 'h' || c == 'l' || c == 'j' || c == 'z' || c == 't' || c == 'L' }

  predicate IsSpecifier(c: char) {
    c == 'd' || c == 'i' || c == 'o' || c == 'u' || c == 'x' || c == 'X' || c == 'p' || c == 'c' || c == 's' || c ==
    '%' || c == 'n'
  }

  function WithFlag(f: Flags, c: char): (g: Flags) {
    match c
    case '-' => f.(left := true)
    case '+' => f.(plus := true)
    case ' ' => f.(blank := true)
    case '#' => f.(alt := true)
    case _ => f.(zero := true)
  }

  function LengthOf(c: char): (l: Length) {
    match c
    case 'h' => Short
    case 'l' => LongInt
    case 'j' => IntMax
    case 'z' => SizeT
    case 't' => PtrDiff
    case _ => LongDouble
  }

  function Appended(n: int, c: char): (r: int) requires IsDecimal(c) { 10 * n + (c as int - '0' as int) }

  // ----- the directive, phase by phase -----

  /** An `int` argument. */
  predicate HasInt(args: seq<Arg>, k: nat) { k < |args| && args[k].Int? }

  /** Each phase takes what it can and hands the rest to the next one. A directive whose specifier is missing would
      take the scanner past the end of the format. */
  function FromFlags(fmt: string, args: seq<Arg>, i: nat, d: Directive): (r: Outcome<Scanned>)
    ensures r.Some? ==> i <= r.value.pos < |fmt| && IsSpecifier(fmt[r.value.pos])
    decreases |fmt| - i, 5
  {
    if i < |fmt| && IsFlag(fmt[i]) then FromFlags(fmt, args, i + 1, d.(flags := WithFlag(d.flags, fmt[i])))
    else FromWidth(fmt, args, i, d)
  }

  function FromWidth(fmt: string, args: seq<Arg>, i: nat, d: Directive): (r: Outcome<Scanned>)
    ensures r.Some? ==> i <= r.value.pos < |fmt| && IsSpecifier(fmt[r.value.pos])
    decreases |fmt| - i, 4
  {
    if i >= |fmt| then PastEnd
    else if IsDecimal(fmt[i]) then FromWidth(fmt, args, i + 1, d.(width := Appended(d.width, fmt[i])))
    else if fmt[i] == '*' then
      if HasInt(args, d.next) then FromWidth(fmt, args, i + 1, d.(width := args[d.next].value, next := d.next + 1))
        else BadArgument
    else if fmt[i] == '.' then FromPrecision(fmt, args, i + 1, d)
    else FromLength(fmt, args, i, d)
  }

  function FromPrecision(fmt: string, args: seq<Arg>, i: nat, d: Directive): (r: Outcome<Scanned>)
    ensures r.Some? ==> i <= r.value.pos < |fmt| && IsSpecifier(fmt[r.value.pos])
    decreases |fmt| - i, 3
  {
    if i >= |fmt| then PastEnd
    else if IsDecimal(fmt[i]) then
      FromPrecision(fmt, args, i + 1,
        d.(precision := Appended(d.precision, fmt[i]), flags := d.flags.(precise := true)))
    else if fmt[i] == '*' then
      if HasInt(args, d.next)
      then FromPrecision(fmt, args, i + 1,
             d.(precision := args[d.next].value, next := d.next + 1, flags := d.flags.(precise := true)))
      else BadArgument
    else FromLength(fmt, args, i, d)
  }

  function FromLength(fmt: string, args: seq<Arg>, i: nat, d: Directive): (r: Outcome<Scanned>)
    ensures r.Some? ==> i <= r.value.pos < |fmt| && IsSpecifier(fmt[r.value.pos])
    decreases |fmt| - i, 2
  {
    if i >= |fmt| then PastEnd
    else if fmt[i] == 'h' && i + 1 < |fmt| && fmt[i + 1] == 'h' then FromSpecifier(fmt, args, i + 2, d.(length := Char))
    else if IsLength(fmt[i]) then FromSpecifier(fmt, args, i + 1, d.(length := LengthOf(fmt[i])))
    else FromSpecifier(fmt, args, i, d)
  }

  function FromSpecifier(fmt: string, args: seq<Arg>, i: nat, d: Directive): (r: Outcome<Scanned>)
    ensures r.Some? ==> i <= r.value.pos < |fmt| && IsSpecifier(fmt[r.value.pos])
    decreases |fmt| - i, 1
  {
    if i >= |fmt| then PastEnd
    else if IsSpecifier(fmt[i]) then Some(Scanned(d, i))
    else FromSpecifier(fmt, args, i + 1, d)
  }

  // ----- what a specifier prints -----

  /** The argument of an integer conversion, as the length modifier has `va_arg` fetch it. */
  function IntArg(d: Directive, args: seq<Arg>): (r: Outcome<int>)
    ensures r.Some? ==> LEAST <= r.value < 0x8000_0000_0000_0000
  {
    if d.next >= |args| then BadArgument
    else
      var a := args[d.next];
      var fits := match d.length
        case LongDouble | IntMax => a.LongLong?
        case SizeT => a.Size?
        case LongInt => a.Long?
        case _ => a.Int?;
      if fits && LEAST <= a.value < 0x8000_0000_0000_0000 then Some(a.value) else BadArgument
  }

  predicate IsInteger(c: char) { c == 'd' || c == 'i' || c == 'o' || c == 'u' || c == 'x' || c == 'X' || c == 'p' }

  /** Width and precision are compared as 32-bit unsigned numbers. */
  function Unsigned(x: int): (v: nat)
    ensures v < 0x1_0000_0000
  {
    x % 0x1_0000_0000
  }

  /** Radix and flags of an integer conversion. `%u` prints in octal. */
  function SpecOf(c: char, d: Directive): (a: Spec)
    requires IsInteger(c)
    ensures a.Valid() && (a.radix == 8 || a.radix == 10 || a.radix == 16)
  {
    var w, p := Unsigned(d.width), Unsigned(d.precision);
    if c == 'd' || c == 'i' then Spec(d.flags, w, p, 10)
    else if c == 'o' || c == 'u' then Spec(d.flags.(unsigned := true), w, p, 8)
    else Spec(d.flags.(unsigned := true, upper := d.flags.upper || c == 'X'), w, p, 16)
  }

  /** How much of a string is printed. */
  function Cut(d: Directive, s: string): (n: nat)
    ensures n <= |s|
  {
    if d.flags.precise && Unsigned(d.precision) < |s| then Unsigned(d.precision) else |s|
  }

  /** The cells of sign, prefix and precision together stay below 2^32. */
  predicate PrecisionFits(d: Directive) { Unsigned(d.precision) + 3 < 0x1_0000_0000 }

  /** The characters printed for specifier `c`. */
  function Piece(c: char, d: Directive, args: seq<Arg>, hole: char): (r: Outcome<string>)
    ensures !r.PastEnd?
  {
    if IsInteger(c) then
      if IntArg(d, args).Some? && PrecisionFits(d)
      then Some(Render(SpecOf(c, d), IntArg(d, args).value, hole)) else BadArgument
    else if c == 'c' then
      if HasInt(args, d.next) then Some([(args[d.next].value % 256) as char]) else BadArgument
    else if c == 's' then
      if d.next < |args| && args[d.next].Text? && '\0' !in args[d.next].chars
      then Some(args[d.next].chars[..Cut(d, args[d.next].chars)]) else BadArgument
    else if c == '%' then Some("%")
    else if d.next < |args| && args[d.next].Cell? then Some("") else BadArgument
  }

  /** What has been written, and the count cells. */
  datatype Out = Out(text: string, cells: seq<int>)

  datatype Emitted = Emitted(out: Out, next: nat)

  function HoleAt(buf: string, i: nat): (c: char) { if i < |buf| then buf[i] else ' ' }

  /** The output after specifier `c`; `buf` is what the buffer held before the call. */
  function Emit(c: char, d: Directive, args: seq<Arg>, buf: string, out: Out): (r: Outcome<Emitted>)
    ensures r.Some? ==> out.text <= r.value.out.text && |r.value.out.cells| == |out.cells|
    ensures !r.PastEnd?
  {
    var piece := Piece(c, d, args, HoleAt(buf, |out.text|));
    if !piece.Some? then BadArgument
    else if c == 'n' then
      var i := args[d.next].index;
      if i < |out.cells| then Some(Emitted(out.(cells := out.cells[i := |out.text|]), d.next + 1)) else BadArgument
    else Some(Emitted(out.(text := out.text + piece.value), if c == '%' then d.next else d.next + 1))
  }

  /** The whole format from position `i` on. After `%%` the scan goes on at the second percent sign. */
  function Run(fmt: string, args: seq<Arg>, i: nat, next: nat, buf: string, out: Out): (r: Outcome<Out>)
    ensures r.Some? ==> out.text <= r.value.text && |r.value.cells| == |out.cells|
    decreases |fmt| - i
  {
    if i >= |fmt| then Some(out)
    else if fmt[i] != '%' then Run(fmt, args, i + 1, next, buf, out.(text := out.text + [fmt[i]]))
    else
      var s := FromFlags(fmt, args, i + 1, Fresh(next));
      if s.PastEnd? then PastEnd
      else if s.BadArgument? then BadArgument
      else
        var c, d := fmt[s.value.pos], s.value.d;
        var e := Emit(c, d, args, buf, out);
        if !e.Some? then BadArgument
        else Run(fmt, args, if c == '%' then s.value.pos else s.value.pos + 1, e.value.next, buf, e.value.out)
  }

  // ----- the scanner -----

  datatype State = Flagging | Sizing | Limiting | Lengthening | Specifying

  /** What is left to scan from character `i` on in each state. */
  function Rest(state: State, fmt: string, args: seq<Arg>, i: nat, d: Directive): (r: Outcome<Scanned>) {
    match state
    case Flagging => FromFlags(fmt, args, i, d)
    case Sizing => FromWidth(fmt, args, i, d)
    case Limiting => FromPrecision(fmt, args, i, d)
    case Lengthening => FromLength(fmt, args, i, d)
    case Specifying => FromSpecifier(fmt, args, i, d)
  }

  /** The format is a string that ends with a zero character. */
  function CharAt(fmt: string, i: nat): (c: char)
    requires i <= |fmt|
  {
    if i < |fmt| then fmt[i] else '\0'
  }

  /** The length modifier. */
  method ScanLength(fmt: string, ghost args: seq<Arg>, at: nat, was: Directive) returns (d: Directive, pos: nat)
    requires '\0' !in fmt && FromLength(fmt, args, at, was).Some?
    ensures FromSpecifier(fmt, args, pos, d) == FromLength(fmt, args, at, was) && at <= pos < |fmt|
  {
    d, pos := was, at;
    var c := CharAt(fmt, pos);
    if c == 'h' && CharAt(fmt, pos + 1) == 'h' {
      d := d.(length := Char);
      pos := pos + 1;
    } else if IsLength(c) {
      d := d.(length := LengthOf(c));
    } else {
      return;
    }
    pos := pos + 1;
  }

  /** The inner loop of `kaos_vsprintf`, from the percent sign at `start` to the specifier: one pass per character,
      each state falling through to the next. */
  method ScanDirective(fmt: string, args: seq<Arg>, start: nat, next: nat) returns (d: Directive, pos: nat)
    requires '\0' !in fmt && FromFlags(fmt, args, start + 1, Fresh(next)).Some?
    ensures FromFlags(fmt, args, start + 1, Fresh(next)) == Some(Scanned(d, pos))
  {
    ghost var whole := FromFlags(fmt, args, start + 1, Fresh(next));
    var state := Flagging;
    d, pos := Fresh(next), start;
    var finished := false;
    while !finished
      invariant pos < |fmt|
      invariant !finished ==> Rest(state, fmt, args, pos + 1, d) == whole
      invariant finished ==> Some(Scanned(d, pos)) == whole
      decreases !finished, |fmt| - pos
    {
      pos := pos + 1;
      if state == Flagging {
        var c := CharAt(fmt, pos);
        if IsFlag(c) {
          assert pos < |fmt|;
          d := d.(flags := WithFlag(d.flags, c));
        } else {
          state := Sizing;
        }
      }
      if state == Sizing {
        var c := CharAt(fmt, pos);
        if IsDecimal(c) {
          d := d.(width := Appended(d.width, c));
        } else if c == '*' {
          d := d.(width := args[d.next].value, next := d.next + 1);
        } else if c == '.' {
          state := Limiting;
          pos := pos + 1;
        } else {
          state := Lengthening;
        }
      }
      if state == Limiting {
        var c := CharAt(fmt, pos);
        if IsDecimal(c) {
          d := d.(precision := Appended(d.precision, c), flags := d.flags.(precise := true));
        } else if c == '*' {
          d := d.(precision := args[d.next].value, next := d.next + 1, flags := d.flags.(precise := true));
        } else {
          state := Lengthening;
        }
      }
      if state == Lengthening {
        d, pos := ScanLength(fmt, args, pos, d);
        state := Specifying;
      }
      if state == Specifying && IsSpecifier(CharAt(fmt, pos)) {
        finished := true;
      }
    }
  }

  /** The buffer after `text` was written from its first cell on. */
  ghost predicate Holds(str: array<char>, buf: string, text: string)
    reads str
  {
    |text| <= |buf| == str.Length && str[..] == Overlay(buf, 0, text)
  }

  /** Writing right behind the text extends it. */
  lemma OverlayAppend(buf: string, t: string, u: string)
    requires |t| + |u| <= |buf|
    ensures Overlay(Overlay(buf, 0, t), |t|, u) == Overlay(buf, 0, t + u)
    ensures |t| < |buf| ==> Overlay(buf, 0, t)[|t|] == buf[|t|]
  {
  }

  /** `*bufferPtr++ = c`. */
  method PutChar(str: array<char>, at: nat, c: char, ghost buf: string, ghost text: string)
    requires Holds(str, buf, text) && at == |text| < str.Length
    modifies str
    ensures Holds(str, buf, text + [c])
  {
    str[at] := c;
  }

  /** The loop of `%s`. */
  method PutString(str: array<char>, at: nat, s: string, d: Directive, ghost buf: string,
                   ghost text: string) returns (end: nat)
    requires Holds(str, buf, text) && at == |text| && |text| + Cut(d, s) <= str.Length
    modifies str
    ensures end == at + Cut(d, s) && Holds(str, buf, text + s[..Cut(d, s)])
  {
    var printed := 0;
    assert text + s[..0] == text;
    while printed < |s|
      invariant printed <= Cut(d, s) && Holds(str, buf, text + s[..printed])
      decreases |s| - printed
    {
      if d.flags.precise && Unsigned(d.precision) <= printed {
        break;
      }
      PutChar(str, at + printed, s[printed], buf, text + s[..printed]);
      assert s[..printed + 1] == s[..printed] + [s[printed]];
      assert text + s[..printed + 1] == (text + s[..printed]) + [s[printed]];
      printed := printed + 1;
    }
    end := at + printed;
  }

  /** An integer conversion behind the text. */
  method PutInteger(str: array<char>, at: nat, c: char, d: Directive, arg: int, ghost buf: string, ghost text: string)
    returns (end: nat)
    requires IsInteger(c) && PrecisionFits(d) && LEAST <= arg < 0x8000_0000_0000_0000
    requires Holds(str, buf, text) && at == |text| && at + |Render(SpecOf(c, d), arg, ' ')| <= str.Length
    modifies str
    ensures var t := Render(SpecOf(c, d), arg, HoleAt(buf, at)); end == at + |t| && Holds(str, buf, text + t)
  {
    var a := SpecOf(c, d);
    OverlayAppend(buf, text, Render(a, arg, HoleAt(buf, at)));
    var n := ConvertAnyIntToStr(arg, a.flags, a.width, a.precision, a.radix, str, at);
    end := at + n;
  }

  /** The specifier part of the inner loop. */
  method PutSpecifier(c: char, d: Directive, args: seq<Arg>, str: array<char>, at: nat, cells: array<int>,
                      ghost buf: string, ghost out: Out)
    returns (end: nat, next: nat)
    requires IsSpecifier(c) && Emit(c, d, args, buf, out).Some? &&
      |Emit(c, d, args, buf, out).value.out.text| <= str.Length
    requires Holds(str, buf, out.text) && at == |out.text| && cells[..] == out.cells
    modifies str, cells
    ensures var e := Emit(c, d, args, buf, out).value;
      end == |e.out.text| && next == e.next && Holds(str, buf, e.out.text) && cells[..] == e.out.cells
  {
    end, next := at, d.next + 1;
    if IsInteger(c) {
      end := PutInteger(str, at, c, d, args[d.next].value, buf, out.text);
    } else if c == 'c' {
      PutChar(str, at, (args[d.next].value % 256) as char, buf, out.text);
      end := at + 1;
    } else if c == 's' {
      end := PutString(str, at, args[d.next].chars, d, buf, out.text);
    } else if c == '%' {
      PutChar(str, at, '%', buf, out.text);
      end, next := at + 1, d.next;
    } else {
      cells[args[d.next].index] := at;
    }
  }

  /** `kaos_vsprintf`: the output of the whole format, its length, and a zero character behind it; the rest of the
      buffer is as before. */
  method Vsprintf(str: array<char>, fmt: string, args: seq<Arg>, cells: array<int>) returns (n: nat)
    requires '\0' !in fmt
    requires var r := Run(fmt, args, 0, 0, str[..], Out("", cells[..])); r.Some? && |r.value.text| < str.Length
    modifies str, cells
    ensures var o := Run(fmt, args, 0, 0, old(str[..]), Out("", old(cells[..]))).value;
      n == |o.text| && str[..] == Overlay(old(str[..]), 0, o.text + ['\0']) && cells[..] == o.cells
  {
    ghost var buf, out := str[..], Out("", cells[..]);
    ghost var whole := Run(fmt, args, 0, 0, buf, out);
    var i, next := 0, 0;
    n := 0;
    while i < |fmt|
      invariant n == |out.text| <= |whole.value.text| && Holds(str, buf, out.text) && cells[..] == out.cells
      invariant Run(fmt, args, i, next, buf, out) == whole
      decreases |fmt| - i
    {
      if fmt[i] == '%' {
        var d, pos := ScanDirective(fmt, args, i, next);
        ghost var e := Emit(fmt[pos], d, args, buf, out).value;
        n, next := PutSpecifier(fmt[pos], d, args, str, n, cells, buf, out);
        out := e.out;
        i := if fmt[pos] == '%' then pos else pos + 1;
      } else {
        PutChar(str, n, fmt[i], buf, out.text);
        out := out.(text := out.text + [fmt[i]]);
        n, i := n + 1, i + 1;
      }
    }
    PutChar(str, n, '\0', buf, out.text);
  }
}
