/**
 The size resolver of the painter kernel: size literals such as "24rpx",
 "10px" or "50%" become integer device pixels under a scale context, and a
 `calc(...)` size has its `<id>.<attr>` references and size literals replaced
 by numbers before it is handed to an expression evaluator.

 The source installs the conversion as a method on every string, closing over
 a process-wide screenK and scale; here the scale context is an explicit
 argument of every call.
 */
module Units {
  import opened Base

  datatype Unit = Rpx | Px | Percent

  function UnitText(u: Unit): string {
    match u
    case Rpx => "rpx"
    case Px => "px"
    case Percent => "%"
  }

  /** A size literal as the resolver's pattern reads it: an optional minus
      sign, one or more decimal digits, an optional fraction of one or more
      digits, and a unit. An empty `frac` means "no fraction part". */
  datatype Literal = Literal(negative: bool, whole: string, frac: string, unit: Unit)

  predicate IsDigit(c: char) {
    '0' <= c <= '9'
  }

  predicate AllDigits(s: string) {
    forall i :: 0 <= i < |s| ==> IsDigit(s[i])
  }

  predicate WellFormed(l: Literal) {
    |l.whole| > 0 && AllDigits(l.whole) && AllDigits(l.frac)
  }

  function SignText(negative: bool): string {
    if negative then "-" else ""
  }

  function FracText(frac: string): string {
    if |frac| > 0 then "." + frac else ""
  }

  function NumberText(negative: bool, whole: string, frac: string): string {
    SignText(negative) + (whole + FracText(frac))
  }

  /** The text of a literal, e.g. "-12.5rpx". */
  function Text(l: Literal): string {
    NumberText(l.negative, l.whole, l.frac) + UnitText(l.unit)
  }

  /** Splits a trailing unit off a size text. "rpx" is tried before "px". */
  function SplitUnit(s: string): (r: Option<(string, Unit)>)
    ensures r.Some? ==> s == r.value.0 + UnitText(r.value.1)
  {
    if |s| >= 3 && s[|s| - 3..] == "rpx" then Some((s[..|s| - 3], Rpx))
    else if |s| >= 2 && s[|s| - 2..] == "px" then Some((s[..|s| - 2], Px))
    else if |s| >= 1 && s[|s| - 1..] == "%" then Some((s[..|s| - 1], Percent))
    else None
  }

  /** The position of the first '.' in `s`, if any. */
  function FindDot(s: string): (r: Option<nat>)
    ensures r.Some? ==> r.value < |s| && s[r.value] == '.'
    ensures r.Some? ==> forall j :: 0 <= j < r.value ==> s[j] != '.'
    ensures r.None? ==> forall j :: 0 <= j < |s| ==> s[j] != '.'
  {
    if |s| == 0 then None
    else if s[0] == '.' then Some(0)
    else
      match FindDot(s[1..])
      case None => None
      case Some(i) => Some(i + 1)
  }

  /** Reads `[0-9]+(\.[0-9]+)?` covering the whole of `rest`. */
  function ParseUnsigned(rest: string): (r: Option<(string, string)>)
    ensures r.Some? ==> |r.value.0| > 0 && AllDigits(r.value.0) && AllDigits(r.value.1)
    ensures r.Some? ==> r.value.0 + FracText(r.value.1) == rest
  {
    match FindDot(rest)
    case None =>
      if |rest| > 0 && AllDigits(rest) then Some((rest, "")) else None
    case Some(i) =>
      if 0 < i && i + 1 < |rest| && AllDigits(rest[..i]) && AllDigits(rest[i + 1..]) then
        assert rest == rest[..i] + "." + rest[i + 1..];
        Some((rest[..i], rest[i + 1..]))
      else None
  }

  /** Reads `-?[0-9]+(\.[0-9]+)?` covering the whole of `b`. */
  function ParseNumber(b: string): (r: Option<(bool, string, string)>)
    ensures r.Some? ==> |r.value.1| > 0 && AllDigits(r.value.1) && AllDigits(r.value.2)
    ensures r.Some? ==> NumberText(r.value.0, r.value.1, r.value.2) == b
  {
    var negative := |b| > 0 && b[0] == '-';
    var rest := if negative then b[1..] else b;
    SignSplit(b);
    match ParseUnsigned(rest)
    case None => None
    case Some((whole, frac)) => Some((negative, whole, frac))
  }

  /** A text is its leading minus sign, if any, followed by the rest. */
  lemma SignSplit(b: string)
    ensures |b| > 0 && b[0] == '-' ==> b == SignText(true) + b[1..]
    ensures !(|b| > 0 && b[0] == '-') ==> b == SignText(false) + b
  {
    if |b| > 0 && b[0] == '-' {
      assert b == [b[0]] + b[1..];
    }
  }

  /** Reads a whole size text as one literal; `None` is the "illegal size"
      case. */
  function Parse(s: string): (r: Option<Literal>)
    ensures r.Some? ==> WellFormed(r.value) && Text(r.value) == s
  {
    match SplitUnit(s)
    case None => None
    case Some((b, u)) =>
      match ParseNumber(b)
      case None => None
      case Some((negative, whole, frac)) => Some(Literal(negative, whole, frac, u))
  }

  lemma DigitsHaveNoDot(s: string)
    requires AllDigits(s)
    ensures forall j :: 0 <= j < |s| ==> s[j] != '.'
  {
  }

  /** The unit suffix of a literal's text is read back as that unit, the
      number part being everything before it. */
  lemma SplitUnitOfText(l: Literal)
    requires WellFormed(l)
    ensures SplitUnit(Text(l)) == Some((NumberText(l.negative, l.whole, l.frac), l.unit))
  {
    var b := NumberText(l.negative, l.whole, l.frac);
    assert |b| > 0 && IsDigit(b[|b| - 1]) by {
      if |l.frac| > 0 {
        assert b[|b| - 1] == l.frac[|l.frac| - 1];
      } else {
        assert b[|b| - 1] == l.whole[|l.whole| - 1];
      }
    }
    match l.unit
    case Rpx => SplitRpx(b);
    case Px => SplitPx(b);
    case Percent => SplitPercent(b);
  }

  lemma SplitRpx(b: string)
    ensures SplitUnit(b + "rpx") == Some((b, Rpx))
  {
    var s := b + "rpx";
    assert s[|s| - 3..] == "rpx";
    assert s[..|s| - 3] == b;
  }

  /** A number ending in a digit followed by "px" is not read as "rpx". */
  lemma SplitPx(b: string)
    requires |b| > 0 && IsDigit(b[|b| - 1])
    ensures SplitUnit(b + "px") == Some((b, Px))
  {
    var s := b + "px";
    assert s[|s| - 3] == b[|b| - 1];
    assert s[|s| - 3..] != "rpx";
    assert s[|s| - 2..] == "px";
    assert s[..|s| - 2] == b;
  }

  lemma SplitPercent(b: string)
    ensures SplitUnit(b + "%") == Some((b, Percent))
  {
    var s := b + "%";
    assert !(|s| >= 3 && s[|s| - 3..] == "rpx") by {
      if |s| >= 3 {
        assert s[|s| - 3..][2] == '%';
      }
    }
    assert !(|s| >= 2 && s[|s| - 2..] == "px") by {
      if |s| >= 2 {
        assert s[|s| - 2..][1] == '%';
      }
    }
    assert s[|s| - 1..] == "%";
    assert s[..|s| - 1] == b;
  }

  lemma ParseUnsignedOfText(whole: string, frac: string)
    requires |whole| > 0 && AllDigits(whole) && AllDigits(frac)
    ensures ParseUnsigned(whole + FracText(frac)) == Some((whole, frac))
  {
    if |frac| == 0 {
      assert whole + FracText(frac) == whole;
      DigitsHaveNoDot(whole);
      NoDotFound(whole);
    } else {
      var rest := whole + ("." + frac);
      DotAfterDigits(whole, frac);
      assert rest[..|whole|] == whole;
      assert rest[|whole| + 1..] == frac;
    }
  }

  lemma NoDotFound(s: string)
    requires forall j :: 0 <= j < |s| ==> s[j] != '.'
    ensures FindDot(s).None?
  {
  }

  /** The first dot of `whole.frac` is the one after the digits. */
  lemma DotAfterDigits(whole: string, frac: string)
    requires AllDigits(whole)
    ensures FindDot(whole + ("." + frac)) == Some(|whole|)
  {
    var rest := whole + ("." + frac);
    DigitsHaveNoDot(whole);
    assert rest[|whole|] == '.';
    assert forall j :: 0 <= j < |whole| ==> rest[j] == whole[j];
  }

  lemma ParseNegativeText(whole: string, frac: string)
    requires |whole| > 0 && AllDigits(whole) && AllDigits(frac)
    ensures ParseNumber(NumberText(true, whole, frac)) == Some((true, whole, frac))
  {
    var b := NumberText(true, whole, frac);
    var rest := whole + FracText(frac);
    ParseUnsignedOfText(whole, frac);
    assert b == "-" + rest;
    assert b[0] == '-';
    assert b[1..] == rest;
  }

  lemma ParseNonNegativeText(whole: string, frac: string)
    requires |whole| > 0 && AllDigits(whole) && AllDigits(frac)
    ensures ParseNumber(NumberText(false, whole, frac)) == Some((false, whole, frac))
  {
    var b := NumberText(false, whole, frac);
    var rest := whole + FracText(frac);
    ParseUnsignedOfText(whole, frac);
    assert b == rest;
    assert b[0] == whole[0];
    assert IsDigit(whole[0]);
  }

  /** Round trip: reading the text of a well-formed literal gives the literal
      back (the converse direction is Parse's own postcondition). */
  lemma {:induction false} ParseText(l: Literal)
    requires WellFormed(l)
    ensures Parse(Text(l)) == Some(l)
  {
    SplitUnitOfText(l);
    if l.negative {
      ParseNegativeText(l.whole, l.frac);
    } else {
      ParseNonNegativeText(l.whole, l.frac);
    }
  }

  /** The empty text is an illegal size. */
  lemma ParseEmpty()
    ensures Parse("") == None
  {
  }

  function DigitsValue(s: string): nat
    requires AllDigits(s)
  {
    if |s| == 0 then 0 else DigitsValue(s[..|s| - 1]) * 10 + (s[|s| - 1] as int - '0' as int)
  }

  function Pow10(n: nat): (r: nat)
    ensures r >= 1
  {
    if n == 0 then 1 else 10 * Pow10(n - 1)
  }

  /** The number a literal denotes (what parseFloat reads from its text). */
  function Value(l: Literal): real
    requires WellFormed(l)
  {
    var magnitude := DigitsValue(l.whole) as real + DigitsValue(l.frac) as real / Pow10(|l.frac|) as real;
    if l.negative then -magnitude else magnitude
  }

  /** The scale context: device pixels per rpx (`screenK`, the screen width
      divided by 750) and the export scale (`scale`). 0 stands for "not set",
      which the resolver treats like the source treats any false number. */
  datatype ScaleContext = ScaleContext(screenK: real, scale: real)

  /** The screenK the resolver uses: the context's, or 0.5 when unset. */
  function EffectiveScreenK(ctx: ScaleContext): real {
    OrElse(ctx.screenK, 0.5)
  }

  /** The scale the resolver uses: the context's, or 1 when unset. */
  function EffectiveScale(ctx: ScaleContext): real {
    OrElse(ctx.scale, 1.0)
  }

  /** Converts a number with a unit into device pixels. */
  function Resolve(ctx: ScaleContext, value: real, unit: Unit, baseSize: real): int {
    match unit
    case Rpx => Round(value * EffectiveScreenK(ctx) * EffectiveScale(ctx))
    case Px => Round(value * EffectiveScale(ctx))
    case Percent => Round(value * baseSize / 100.0)
  }

  /** The outcome of converting one size text: the pixels, and whether the
      "illegal size" error was logged. */
  datatype Resolution = Resolution(px: int, errorLogged: bool)

  /** The single-literal conversion (the source's `parsePx`). An empty or
      illegal text logs an error and yields 0; it never fails. */
  function ParsePx(ctx: ScaleContext, origin: string, baseSize: real): (r: Resolution)
    ensures r.errorLogged <==> Parse(origin).None?
    ensures r.errorLogged ==> r.px == 0
  {
    match Parse(origin)
    case None => Resolution(0, true)
    case Some(l) => Resolution(Resolve(ctx, Value(l), l.unit, baseSize), false)
  }

  /** The text of a literal converts to the literal's value in its unit. */
  lemma ParsePxOfText(ctx: ScaleContext, l: Literal, baseSize: real)
    requires WellFormed(l)
    ensures ParsePx(ctx, Text(l), baseSize) == Resolution(Resolve(ctx, Value(l), l.unit, baseSize), false)
  {
    ParseText(l);
  }

  /** "3rpx" at screenK 0.5 and scale 1 is 1.5 device pixels, rounded up to 2. */
  lemma ThreeRpxAtHalfScreenK(baseSize: real)
    ensures ParsePx(ScaleContext(0.5, 1.0), "3rpx", baseSize) == Resolution(2, false)
  {
    var ctx := ScaleContext(0.5, 1.0);
    var l := Literal(false, "3", "", Rpx);
    ValueOfDigit(false, "3", Rpx);
    assert Resolve(ctx, Value(l), Rpx, baseSize) == 2 by {
      assert Value(l) * EffectiveScreenK(ctx) * EffectiveScale(ctx) == 1.5;
    }
    ParsePxOfText(ctx, l, baseSize);
    assert NumberText(false, "3", "") == "3" by {
      assert SignText(false) == "" && FracText("") == "";
    }
    assert Text(l) == "3rpx";
  }

  /** A literal of one digit and no fraction denotes that digit. */
  lemma ValueOfDigit(negative: bool, d: string, unit: Unit)
    requires |d| == 1 && IsDigit(d[0])
    ensures WellFormed(Literal(negative, d, "", unit))
    ensures var v := (d[0] as int - '0' as int) as real;
            Value(Literal(negative, d, "", unit)) == if negative then -v else v
  {
    assert d[..0] == "";
  }

  /** An unset context behaves like screenK 0.5 and scale 1. */
  lemma UnsetContextDefaults(value: real, unit: Unit, baseSize: real)
    ensures Resolve(ScaleContext(0.0, 0.0), value, unit, baseSize)
         == Resolve(ScaleContext(0.5, 1.0), value, unit, baseSize)
  {
  }

  /** `px` sizes only depend on the scale, never on screenK. */
  lemma PxIgnoresScreenK(c1: ScaleContext, c2: ScaleContext, value: real, b1: real, b2: real)
    requires c1.scale == c2.scale
    ensures Resolve(c1, value, Px, b1) == Resolve(c2, value, Px, b2)
  {
  }

  /** At scale 1 (or unset) an integral `px` size is that many pixels. */
  lemma IntegerPxAtUnitScale(ctx: ScaleContext, n: int, baseSize: real)
    requires EffectiveScale(ctx) == 1.0
    ensures Resolve(ctx, n as real, Px, baseSize) == n
  {
    RoundOfInteger(n);
  }

  /** `%` sizes depend on the base size only, never on screenK or scale. */
  lemma PercentIgnoresContext(c1: ScaleContext, c2: ScaleContext, value: real, baseSize: real)
    ensures Resolve(c1, value, Percent, baseSize) == Resolve(c2, value, Percent, baseSize)
  {
  }

  /** 100% of a base is the base, for an integral base. */
  lemma HundredPercentIsBase(ctx: ScaleContext, n: int)
    ensures Resolve(ctx, 100.0, Percent, n as real) == n
  {
    assert 100.0 * (n as real) / 100.0 == n as real;
    RoundOfInteger(n);
  }

  /** An rpx size is a px size under the scale screenK * scale. */
  lemma RpxIsScaledPx(ctx: ScaleContext, value: real, baseSize: real)
    ensures Resolve(ctx, value, Rpx, baseSize)
         == Resolve(ScaleContext(ctx.screenK, EffectiveScreenK(ctx) * EffectiveScale(ctx)), value, Px, baseSize)
  {
    var k := EffectiveScreenK(ctx);
    var s := EffectiveScale(ctx);
    assert k != 0.0 && s != 0.0;
    assert k * s != 0.0;
    assert value * k * s == value * (k * s);
  }

  /** With positive factors, a larger size never resolves to fewer pixels. */
  lemma ResolveMonotone(ctx: ScaleContext, v1: real, v2: real, unit: Unit, baseSize: real)
    requires v1 <= v2
    requires EffectiveScreenK(ctx) > 0.0 && EffectiveScale(ctx) > 0.0 && baseSize >= 0.0
    ensures Resolve(ctx, v1, unit, baseSize) <= Resolve(ctx, v2, unit, baseSize)
  {
    var k := EffectiveScreenK(ctx);
    var s := EffectiveScale(ctx);
    match unit
    case Rpx =>
      assert v1 * k <= v2 * k;
      assert v1 * k * s <= v2 * k * s;
      RoundMonotone(v1 * k * s, v2 * k * s);
    case Px =>
      assert v1 * s <= v2 * s;
      RoundMonotone(v1 * s, v2 * s);
    case Percent =>
      assert v1 * baseSize <= v2 * baseSize;
      assert v1 * baseSize / 100.0 <= v2 * baseSize / 100.0;
      RoundMonotone(v1 * baseSize / 100.0, v2 * baseSize / 100.0);
  }

  // ---------------------------------------------------------------------
  // calc(...)

  /** The box attributes a calc expression may reference. */
  datatype Attr = Left | Right | Top | Bottom | Width | Height

  /** A cached, already resolved box of a view, keyed by view id in the cache. */
  datatype ViewRect = ViewRect(left: real, right: real, top: real, bottom: real, width: real, height: real)

  function AttrValue(r: ViewRect, a: Attr): real {
    match a
    case Left => r.left
    case Right => r.right
    case Top => r.top
    case Bottom => r.bottom
    case Width => r.width
    case Height => r.height
  }

  /** The body of a calc expression, as the two substitution passes see it:
      `<id>.<attr>` references, size literals, bare numbers, and the other
      characters (operators, parentheses, spaces). */
  datatype Token = Ref(id: string, attr: Attr) | Lit(lit: Literal) | Num(n: real) | Sym(c: char)

  /** What the evaluator receives: numbers and the other characters. */
  datatype CalcToken = Number(n: real) | Symbol(c: char)

  predicate NoRefs(ts: seq<Token>) {
    forall i :: 0 <= i < |ts| ==> !ts[i].Ref?
  }

  predicate LiteralsWellFormed(ts: seq<Token>) {
    forall i :: 0 <= i < |ts| ==> ts[i].Lit? ==> WellFormed(ts[i].lit)
  }

  /** A reference whose view is not in the cache. */
  predicate Dangling(t: Token, cache: map<string, ViewRect>) {
    t.Ref? && t.id !in cache
  }

  /** The first pass: each reference becomes the cached number. */
  datatype Substituted = Substituted(tokens: seq<Token>) | UnknownView(id: string)

  /** Replaces every `<id>.<attr>` reference by the cached value. Looking up
      an id that is not cached fails at the first such reference (the source
      reads a property of `undefined` and throws). */
  function SubstituteRefs(ts: seq<Token>, cache: map<string, ViewRect>): (r: Substituted)
    ensures r.Substituted? <==> forall i :: 0 <= i < |ts| ==> !Dangling(ts[i], cache)
    ensures r.Substituted? ==> |r.tokens| == |ts| && NoRefs(r.tokens)
    ensures r.Substituted? ==> forall i :: 0 <= i < |ts| ==>
              if ts[i].Ref? then r.tokens[i] == Num(AttrValue(cache[ts[i].id], ts[i].attr))
              else r.tokens[i] == ts[i]
    ensures r.UnknownView? ==> exists i :: 0 <= i < |ts| && Dangling(ts[i], cache) && ts[i].id == r.id
                                && forall j :: 0 <= j < i ==> !Dangling(ts[j], cache)
  {
    if |ts| == 0 then Substituted([])
    else if Dangling(ts[0], cache) then UnknownView(ts[0].id)
    else
      var head := if ts[0].Ref? then Num(AttrValue(cache[ts[0].id], ts[0].attr)) else ts[0];
      match SubstituteRefs(ts[1..], cache)
      case UnknownView(id) =>
        ghost var i :| 0 <= i < |ts[1..]| && Dangling(ts[1..][i], cache) && ts[1..][i].id == id
                       && forall j :: 0 <= j < i ==> !Dangling(ts[1..][j], cache);
        assert Dangling(ts[i + 1], cache) && ts[i + 1].id == id;
        assert forall j :: 0 <= j < i + 1 ==> !Dangling(ts[j], cache) by {
          forall j | 0 <= j < i + 1
            ensures !Dangling(ts[j], cache)
          {
            if j > 0 {
              assert ts[j] == ts[1..][j - 1];
            }
          }
        }
        UnknownView(id)
      case Substituted(rest) =>
        assert forall i :: 1 <= i < |ts| ==> ts[i] == ts[1..][i - 1];
        Substituted([head] + rest)
  }

  function ConvertToken(ctx: ScaleContext, t: Token, baseSize: real): (r: CalcToken)
    requires !t.Ref? && (t.Lit? ==> WellFormed(t.lit))
    ensures t.Lit? ==> r == Number(ParsePx(ctx, Text(t.lit), baseSize).px as real)
    ensures t.Num? ==> r == Number(t.n)
    ensures t.Sym? ==> r == Symbol(t.c)
  {
    match t
    case Lit(l) =>
      ParsePxOfText(ctx, l, baseSize);
      Number(Resolve(ctx, Value(l), l.unit, baseSize) as real)
    case Num(n) => Number(n)
    case Sym(c) => Symbol(c)
  }

  /** The second pass: each size literal becomes its pixel value, converted
      exactly as the single-literal conversion converts the literal's text. */
  function ConvertLiterals(ctx: ScaleContext, ts: seq<Token>, baseSize: real): (r: seq<CalcToken>)
    requires NoRefs(ts) && LiteralsWellFormed(ts)
    ensures |r| == |ts|
    ensures forall i :: 0 <= i < |ts| ==> r[i] == ConvertToken(ctx, ts[i], baseSize)
  {
    if |ts| == 0 then []
    else
      var head := ConvertToken(ctx, ts[0], baseSize);
      var rest := ConvertLiterals(ctx, ts[1..], baseSize);
      assert forall i :: 1 <= i < |ts| ==> ts[i] == ts[1..][i - 1];
      [head] + rest
  }

  /** A size: plain text, or `calc(...)` with its body already split into
      tokens. */
  datatype SizeExpr = Plain(text: string) | CalcExpr(body: seq<Token>)

  /** The result of the full conversion: a number of pixels (with the
      "illegal size" flag), or a failure on a reference to an uncached view. */
  datatype PxResult = Pixels(px: real, errorLogged: bool) | Unresolved(id: string)

  /** A line break, which `.` in a JavaScript pattern does not match. */
  predicate IsLineBreak(c: char) {
    c == '\n' || c == '\r' || c == '\U{2028}' || c == '\U{2029}'
  }

  /** Whether a text matches the calc pattern `^calc\((.+)\)$`: "calc(",
      then at least one character other than a line break, then ")" at the
      end. Such a text is a calc size and is given to the conversion as a
      `CalcExpr` body; every other text is a plain size. */
  predicate IsCalcText(t: string) {
    && |t| >= 7 && t[..5] == "calc(" && t[|t| - 1] == ')'
    && forall i :: 5 <= i < |t| - 1 ==> !IsLineBreak(t[i])
  }

  /** The full conversion (the source's `toPx`). The text "0" is 0 without
      being read; other plain text goes to the single-literal conversion; a
      calc body has its references substituted, then its literals converted,
      and the result is handed to `eval`, the expression evaluator, which is
      not part of this model. */
  function ToPx(ctx: ScaleContext, e: SizeExpr, baseSize: real, cache: map<string, ViewRect>,
                eval: seq<CalcToken> -> real): (r: PxResult)
    requires e.Plain? ==> !IsCalcText(e.text)
    requires e.CalcExpr? ==> LiteralsWellFormed(e.body)
    ensures e.Plain? && e.text == "0" ==> r == Pixels(0.0, false)
    ensures e.Plain? && e.text != "0" ==> r == Pixels(ParsePx(ctx, e.text, baseSize).px as real,
                                                     Parse(e.text).None?)
    ensures r.Unresolved? ==> e.CalcExpr? && exists i :: 0 <= i < |e.body| && Dangling(e.body[i], cache)
    ensures e.CalcExpr? && |e.body| > 0 && (forall i :: 0 <= i < |e.body| ==> !Dangling(e.body[i], cache))
            ==> r.Pixels? && !r.errorLogged
    ensures e.CalcExpr? && |e.body| > 0 && (forall i :: 0 <= i < |e.body| ==> !Dangling(e.body[i], cache))
            ==> && SubstituteRefs(e.body, cache).Substituted?
                && LiteralsWellFormed(SubstituteRefs(e.body, cache).tokens)
                && r == Pixels(eval(ConvertLiterals(ctx, SubstituteRefs(e.body, cache).tokens, baseSize)), false)
    ensures e.CalcExpr? && (exists i :: 0 <= i < |e.body| && Dangling(e.body[i], cache))
            ==> SubstituteRefs(e.body, cache).UnknownView? && r == Unresolved(SubstituteRefs(e.body, cache).id)
  {
    match e
    case Plain(text) =>
      if text == "0" then Pixels(0.0, false)
      else
        var p := ParsePx(ctx, text, baseSize);
        Pixels(p.px as real, p.errorLogged)
    case CalcExpr(body) =>
      if |body| == 0 then
        // "calc()" does not match the calc pattern and is read as a literal
        var p := ParsePx(ctx, "calc()", baseSize);
        Pixels(p.px as real, p.errorLogged)
      else
        match SubstituteRefs(body, cache)
        case UnknownView(id) => Unresolved(id)
        case Substituted(ts) =>
          assert LiteralsWellFormed(ts) by {
            forall i | 0 <= i < |ts| && ts[i].Lit?
              ensures WellFormed(ts[i].lit)
            {
              assert !body[i].Ref?;
            }
          }
          Pixels(eval(ConvertLiterals(ctx, ts, baseSize)), false)
  }

  /** The evaluator of a calc size receives, position by position, the cached
      value for each reference, the pixel value of each literal, and every
      other token unchanged. */
  lemma CalcInput(ctx: ScaleContext, body: seq<Token>, baseSize: real, cache: map<string, ViewRect>)
    requires LiteralsWellFormed(body)
    requires forall i :: 0 <= i < |body| ==> !Dangling(body[i], cache)
    ensures SubstituteRefs(body, cache).Substituted?
    ensures var ts := SubstituteRefs(body, cache).tokens;
            LiteralsWellFormed(ts) &&
            var input := ConvertLiterals(ctx, ts, baseSize);
            |input| == |body| &&
            forall i :: 0 <= i < |body| ==>
              (body[i].Ref? ==> input[i] == Number(AttrValue(cache[body[i].id], body[i].attr))) &&
              (body[i].Lit? ==> input[i] == Number(ParsePx(ctx, Text(body[i].lit), baseSize).px as real)) &&
              (body[i].Num? ==> input[i] == Number(body[i].n)) &&
              (body[i].Sym? ==> input[i] == Symbol(body[i].c))
  {
    var ts := SubstituteRefs(body, cache).tokens;
    assert LiteralsWellFormed(ts) by {
      forall i | 0 <= i < |ts| && ts[i].Lit?
        ensures WellFormed(ts[i].lit)
      {
        assert !body[i].Ref?;
      }
    }
  }

  /** The literal text "0" is 0 without the error that reading it as a
      literal would log. */
  lemma ZeroShortcut(ctx: ScaleContext, baseSize: real, cache: map<string, ViewRect>, eval: seq<CalcToken> -> real)
    ensures ToPx(ctx, Plain("0"), baseSize, cache, eval) == Pixels(0.0, false)
    ensures ParsePx(ctx, "0", baseSize) == Resolution(0, true)
  {
    var zero := "0";
    assert zero[|zero| - 1..] == zero;
    assert SplitUnit(zero) == None;
    assert Parse(zero) == None;
  }

  /** `calc(a.width + 10px)` with `a` cached at width 100 hands the evaluator
      100, " + ", 10, whatever screenK is (10px does not depend on it). */
  lemma CalcWidthPlusTenPx(screenK: real, baseSize: real, a: ViewRect, eval: seq<CalcToken> -> real)
    requires a.width == 100.0
    ensures var body := [Ref("a", Width), Sym(' '), Sym('+'), Sym(' '), Lit(Literal(false, "10", "", Px))];
            ToPx(ScaleContext(screenK, 1.0), CalcExpr(body), baseSize, map["a" := a], eval)
            == Pixels(eval([Number(100.0), Symbol(' '), Symbol('+'), Symbol(' '), Number(10.0)]), false)
  {
    var ten := Literal(false, "10", "", Px);
    var body := [Ref("a", Width), Sym(' '), Sym('+'), Sym(' '), Lit(ten)];
    var ts := [Num(100.0), Sym(' '), Sym('+'), Sym(' '), Lit(ten)];
    SubstituteWidth(a, ten);
    ConvertTenPx(screenK, baseSize);
    assert SubstituteRefs(body, map["a" := a]) == Substituted(ts);
  }

  lemma SubstituteWidth(a: ViewRect, t: Literal)
    ensures SubstituteRefs([Ref("a", Width), Sym(' '), Sym('+'), Sym(' '), Lit(t)], map["a" := a])
         == Substituted([Num(a.width), Sym(' '), Sym('+'), Sym(' '), Lit(t)])
  {
    var r := SubstituteRefs([Ref("a", Width), Sym(' '), Sym('+'), Sym(' '), Lit(t)], map["a" := a]);
    assert r.Substituted?;
    assert r.tokens == [Num(a.width), Sym(' '), Sym('+'), Sym(' '), Lit(t)];
  }

  lemma ConvertTenPx(screenK: real, baseSize: real)
    ensures ConvertLiterals(ScaleContext(screenK, 1.0), [Num(100.0), Sym(' '), Sym('+'), Sym(' '), Lit(Literal(false, "10", "", Px))], baseSize)
         == [Number(100.0), Symbol(' '), Symbol('+'), Symbol(' '), Number(10.0)]
  {
    TenPx(ScaleContext(screenK, 1.0), baseSize);
  }

  /** "10px" at scale 1 is 10 pixels. */
  lemma TenPx(ctx: ScaleContext, baseSize: real)
    requires ctx.scale == 1.0
    ensures ConvertToken(ctx, Lit(Literal(false, "10", "", Px)), baseSize) == Number(10.0)
  {
    var ten := Literal(false, "10", "", Px);
    assert Value(ten) == 10.0 by {
      assert "10"[..1] == "1";
      assert "1"[..0] == "";
    }
    IntegerPxAtUnitScale(ctx, 10, baseSize);
  }

  /** A calc body fails with the id of its first reference to an uncached
      view, wherever that reference stands and whatever follows it. */
  lemma CalcUnknownView(ctx: ScaleContext, body: seq<Token>, baseSize: real, cache: map<string, ViewRect>,
                        eval: seq<CalcToken> -> real, k: nat)
    requires LiteralsWellFormed(body)
    requires k < |body| && Dangling(body[k], cache)
    requires forall j :: 0 <= j < k ==> !Dangling(body[j], cache)
    ensures ToPx(ctx, CalcExpr(body), baseSize, cache, eval) == Unresolved(body[k].id)
  {
    var r := SubstituteRefs(body, cache);
    assert r.UnknownView?;
    var i :| 0 <= i < |body| && Dangling(body[i], cache) && body[i].id == r.id
             && forall j :: 0 <= j < i ==> !Dangling(body[j], cache);
    assert i == k;
  }
}
