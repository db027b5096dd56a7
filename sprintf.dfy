/**
 * The string part of the `sprintf` bundled in public/js/utils.js: `%%`, and
 * `%s` with an optional `n$` argument index, the flags `-+'#0 ` and a decimal
 * width and precision.
 *
 * The source hands `format.replace(regex, doFormat)` the pattern
 *   %%|%(\d+\$)?([-+'#0 ]*)(\*\d+\$|\*|\d+)?(?:\.(\*\d+\$|\*|\d+))?([scboxXuideEfFgG])
 * `DirectiveAt` reads that pattern greedily. For this pattern greedy reading
 * finds the same match as backtracking: no flag character other than `0`
 * can start a width, a width that starts with `0` would have been taken as
 * flags already, and each part is followed by a character (`$`, `.` or a
 * conversion letter) that the part before it cannot contain.
 *
 * Numeric conversions and `*` widths fall outside the model: a format
 * that uses one yields `None`.
 */
module Sprintf {
  import opened Wrappers

  // ---------------------------------------------------------------------------
  // Reading a directive
  // ---------------------------------------------------------------------------

  predicate IsDigit(c: char)
  {
    '0' <= c <= '9'
  }

  /** The character class `[-+'#0 ]`. */
  predicate IsFlag(c: char)
  {
    c == '-' || c == '+' || c == '\'' || c == '#' || c == '0' || c == ' '
  }

  /** The character class `[scboxXuideEfFgG]`. */
  predicate IsConversion(c: char)
  {
    c in "scboxXuideEfFgG"
  }

  /** Where the run of digits that starts at `i` ends. */
  function DigitsEnd(s: string, i: nat): (j: nat)
    requires i <= |s|
    ensures i <= j <= |s|
    ensures forall k :: i <= k < j ==> IsDigit(s[k])
    ensures j < |s| ==> !IsDigit(s[j])
    decreases |s| - i
  {
    if i < |s| && IsDigit(s[i]) then DigitsEnd(s, i + 1) else i
  }

  /** Where the run of flag characters that starts at `i` ends. */
  function FlagsEnd(s: string, i: nat): (j: nat)
    requires i <= |s|
    ensures i <= j <= |s|
    ensures forall k :: i <= k < j ==> IsFlag(s[k])
    ensures j < |s| ==> !IsFlag(s[j])
    decreases |s| - i
  {
    if i < |s| && IsFlag(s[i]) then FlagsEnd(s, i + 1) else i
  }

  /** A width or precision: `\d+`, `*`, or `*\d+$`. */
  datatype Count = Digits(text: string) | Star | StarArg(index: string)

  /** What one `%` directive says, group by group. */
  datatype Spec = Spec(argKey: Option<string>, flags: string, width: Option<Count>, precision: Option<Count>, conversion: char)

  datatype Directive = Percent | Conversion(spec: Spec)

  /** A non-empty run of decimal digits, `\d+`. */
  predicate IsNumeral(t: string)
  {
    t != [] && forall k :: 0 <= k < |t| ==> IsDigit(t[k])
  }

  /** The text a count stands for. */
  function CountText(c: Count): string
  {
    match c
    case Digits(t) => t
    case Star => "*"
    case StarArg(x) => "*" + x + "$"
  }

  /** A count the pattern `\*\d+\$|\*|\d+` can match. */
  predicate CountWellFormed(c: Count)
  {
    match c
    case Digits(t) => IsNumeral(t)
    case Star => true
    case StarArg(x) => IsNumeral(x)
  }

  /** A directive the pattern can match: every group holds what its part of the pattern allows. */
  predicate DirectiveWellFormed(d: Directive)
  {
    d.Conversion? ==>
      && (d.spec.argKey.Some? ==> IsNumeral(d.spec.argKey.value))
      && (forall k :: 0 <= k < |d.spec.flags| ==> IsFlag(d.spec.flags[k]))
      && (d.spec.width.Some? ==> CountWellFormed(d.spec.width.value))
      && (d.spec.precision.Some? ==> CountWellFormed(d.spec.precision.value))
      && IsConversion(d.spec.conversion)
  }

  /** The text of the `(\d+\$)?` group. */
  function KeyText(argKey: Option<string>): string
  {
    if argKey.Some? then argKey.value + "$" else ""
  }

  /** The text of the width group. */
  function WidthText(width: Option<Count>): string
  {
    if width.Some? then CountText(width.value) else ""
  }

  /** The text of the `(?:\.(…))?` group. */
  function PrecisionText(precision: Option<Count>): string
  {
    if precision.Some? then "." + CountText(precision.value) else ""
  }

  /** The text of a directive, group by group. */
  function Unparse(d: Directive): string
  {
    match d
    case Percent => "%%"
    case Conversion(spec) =>
      "%" + KeyText(spec.argKey) + spec.flags + WidthText(spec.width) + PrecisionText(spec.precision) + [spec.conversion]
  }

  lemma SliceJoin(s: string, i: nat, j: nat, k: nat)
    requires i <= j <= k <= |s|
    ensures s[i..k] == s[i..j] + s[j..k]
  {
  }

  /** A directive's span, cut where its groups meet. */
  lemma DirectiveSpan(s: string, i: nat, a: nat, f: nat, w: nat, p: nat)
    requires i < a <= f <= w <= p < |s|
    ensures s[i..p + 1] == [s[i]] + s[i + 1..a] + s[a..f] + s[f..w] + s[w..p] + [s[p]]
  {
    SliceJoin(s, i, i + 1, a);
    SliceJoin(s, i, a, f);
    SliceJoin(s, i, f, w);
    SliceJoin(s, i, w, p);
    SliceJoin(s, i, p, p + 1);
  }

  /** The count (`\*\d+\$|\*|\d+`) at `i` and where it ends. */
  function CountAt(s: string, i: nat): (r: Option<(Count, nat)>)
    requires i <= |s|
    ensures r.Some? ==> i < r.value.1 <= |s|
    ensures r.Some? ==> CountWellFormed(r.value.0) && s[i..r.value.1] == CountText(r.value.0)
  {
    if i < |s| && s[i] == '*' then
      var j := DigitsEnd(s, i + 1);
      if j > i + 1 && j < |s| && s[j] == '$' then
        assert s[i..j + 1] == "*" + s[i + 1..j] + "$";
        Some((StarArg(s[i + 1..j]), j + 1))
      else Some((Star, i + 1))
    else if i < |s| && IsDigit(s[i]) then
      var j := DigitsEnd(s, i);
      Some((Digits(s[i..j]), j))
    else None
  }

  /** The `(\d+\$)?` group at `j`, and where it ends. */
  function ArgKeyAt(s: string, j: nat): (r: (Option<string>, nat))
    requires j <= |s|
    ensures j <= r.1 <= |s| && s[j..r.1] == KeyText(r.0)
    ensures r.0.Some? ==> IsNumeral(r.0.value)
  {
    var d := DigitsEnd(s, j);
    if d > j && d < |s| && s[d] == '$' then
      assert s[j..d + 1] == s[j..d] + "$";
      (Some(s[j..d]), d + 1)
    else (None, j)
  }

  /** The optional width at `f`, and where it ends. */
  function WidthAt(s: string, f: nat): (r: (Option<Count>, nat))
    requires f <= |s|
    ensures f <= r.1 <= |s| && s[f..r.1] == WidthText(r.0)
    ensures r.0.Some? ==> CountWellFormed(r.0.value)
  {
    var c := CountAt(s, f);
    if c.Some? then (Some(c.value.0), c.value.1) else (None, f)
  }

  /** The optional `.precision` at `w`, and where it ends; `None` when a `.` has no count after it. */
  function PrecisionAt(s: string, w: nat): (r: Option<(Option<Count>, nat)>)
    requires w <= |s|
    ensures r.Some? ==> w <= r.value.1 <= |s| && s[w..r.value.1] == PrecisionText(r.value.0)
    ensures r.Some? && r.value.0.Some? ==> CountWellFormed(r.value.0.value)
  {
    if w < |s| && s[w] == '.' then
      var c := CountAt(s, w + 1);
      if c.None? then None
      else
        SliceJoin(s, w, w + 1, c.value.1);
        Some((Some(c.value.0), c.value.1))
    else Some((None, w))
  }

  /**
   * The directive the pattern matches at the `%` in position `i`, and the
   * position just after it; `None` when it matches nothing there, in which
   * case the `%` stays as it is. Its groups are well formed;
   * `DirectiveAtMatches` shows that its text is the characters it spans.
   */
  function DirectiveAt(s: string, i: nat): (r: Option<(Directive, nat)>)
    requires i < |s| && s[i] == '%'
    ensures r.Some? ==> i + 2 <= r.value.1 <= |s|
    ensures r.Some? ==> DirectiveWellFormed(r.value.0)
    ensures (r.Some? && r.value.0.Percent?) <==> i + 1 < |s| && s[i + 1] == '%'
  {
    if i + 1 < |s| && s[i + 1] == '%' then Some((Percent, i + 2))
    else
      var key := ArgKeyAt(s, i + 1);
      var a := key.1;
      var f := FlagsEnd(s, a);
      var width := WidthAt(s, f);
      var w := width.1;
      match PrecisionAt(s, w)
      case None => None
      case Some((precision, p)) =>
        if p < |s| && IsConversion(s[p]) then
          Some((Conversion(Spec(key.0, s[a..f], width.0, precision, s[p])), p + 1))
        else None
  }

  /** What `DirectiveAt` returns is a match of the pattern: the directive's text is the characters it spans. */
  lemma DirectiveAtMatches(s: string, i: nat)
    requires i < |s| && s[i] == '%'
    ensures DirectiveAt(s, i).Some? ==> s[i..DirectiveAt(s, i).value.1] == Unparse(DirectiveAt(s, i).value.0)
  {
    if i + 1 < |s| && s[i + 1] == '%' {
      assert s[i..i + 2] == "%%";
    } else {
      var key := ArgKeyAt(s, i + 1);
      var f := FlagsEnd(s, key.1);
      var width := WidthAt(s, f);
      var precision := PrecisionAt(s, width.1);
      if precision.Some? && precision.value.1 < |s| && IsConversion(s[precision.value.1]) {
        var p := precision.value.1;
        var spec := Spec(key.0, s[key.1..f], width.0, precision.value.0, s[p]);
        assert DirectiveAt(s, i) == Some((Conversion(spec), p + 1));
        DirectiveSpan(s, i, key.1, f, width.1, p);
        assert [s[i]] == "%";
        assert s[i..p + 1] == "%" + KeyText(spec.argKey) + spec.flags + WidthText(spec.width) + PrecisionText(spec.precision) + [spec.conversion];
      }
    }
  }

  /** `+text` for a run of decimal digits. */
  function DigitsValue(text: string): nat
    decreases |text|
  {
    if text == [] then 0
    else
      var d := (text[|text| - 1] as int) - ('0' as int);
      DigitsValue(text[..|text| - 1]) * 10 + (if 0 <= d <= 9 then d else 0)
  }

  // ---------------------------------------------------------------------------
  // The flag loop
  // ---------------------------------------------------------------------------

  /** The locals the flag loop sets. */
  datatype Flags = Flags(leftJustify: bool, positivePrefix: string, zeroPad: bool, prefixBaseX: bool, customPadChar: string)

  /** Their values before the loop. */
  const NoFlags := Flags(false, "", false, false, " ")

  /** `s.charAt(j)`: one character, or the empty string past the end. */
  function CharAt(s: string, j: nat): (r: string)
    ensures |r| <= 1
  {
    if j < |s| then [s[j]] else ""
  }

  /** One turn of the loop: the `switch (flags.charAt(j))`. */
  function FlagStep(f: Flags, flags: string, j: nat): Flags
    requires j < |flags|
  {
    match flags[j]
    case ' ' => f.(positivePrefix := " ")
    case '+' => f.(positivePrefix := "+")
    case '-' => f.(leftJustify := true)
    case '\'' => f.(customPadChar := CharAt(flags, j + 1))
    case '0' => f.(zeroPad := true, customPadChar := "0")
    case '#' => f.(prefixBaseX := true)
    case _ => f
  }

  /** The locals after the first `n` turns of the loop. */
  function FlagsUpTo(flags: string, n: nat): (f: Flags)
    requires n <= |flags|
    ensures |f.customPadChar| <= 1
    decreases n
  {
    if n == 0 then NoFlags else FlagStep(FlagsUpTo(flags, n - 1), flags, n - 1)
  }

  /** The locals after the whole loop. */
  function FlagsOf(flags: string): (f: Flags)
    ensures |f.customPadChar| <= 1
  {
    FlagsUpTo(flags, |flags|)
  }

  /** The flags that choose the pad character: `'` (the character after it) and `0`. */
  predicate SetsPadChar(c: char)
  {
    c == '\'' || c == '0'
  }

  /** The pad character the flag at `j` chooses. */
  function PadCharSetBy(flags: string, j: nat): string
    requires j < |flags|
  {
    if flags[j] == '0' then "0" else CharAt(flags, j + 1)
  }

  /** The flags that choose the sign prefix. */
  predicate SetsSign(c: char)
  {
    c == ' ' || c == '+'
  }

  /** The flag at `j` is the last of the first `n` that chooses the pad character. */
  predicate LastPadSetter(flags: string, j: nat, n: nat)
  {
    j < n <= |flags| && SetsPadChar(flags[j]) && forall k :: j < k < n ==> !SetsPadChar(flags[k])
  }

  /** The flag at `j` is the last of the first `n` that chooses the sign prefix. */
  predicate LastSignSetter(flags: string, j: nat, n: nat)
  {
    j < n <= |flags| && SetsSign(flags[j]) && forall k :: j < k < n ==> !SetsSign(flags[k])
  }

  /** The on/off flags after `n` turns: each is set iff its character occurred. */
  lemma {:induction false} SwitchesUpTo(flags: string, n: nat)
    requires n <= |flags|
    ensures FlagsUpTo(flags, n).leftJustify <==> '-' in flags[..n]
    ensures FlagsUpTo(flags, n).zeroPad <==> '0' in flags[..n]
    ensures FlagsUpTo(flags, n).prefixBaseX <==> '#' in flags[..n]
    decreases n
  {
    if n > 0 {
      SwitchesUpTo(flags, n - 1);
      SwitchStep(FlagsUpTo(flags, n - 1), flags, n - 1);
      InPrefixStep(flags, n);
    }
  }

  /** One turn sets a switch exactly when its flag is that switch's. */
  lemma SwitchStep(f: Flags, flags: string, j: nat)
    requires j < |flags|
    ensures FlagStep(f, flags, j).leftJustify == (f.leftJustify || flags[j] == '-')
    ensures FlagStep(f, flags, j).zeroPad == (f.zeroPad || flags[j] == '0')
    ensures FlagStep(f, flags, j).prefixBaseX == (f.prefixBaseX || flags[j] == '#')
  {
  }

  lemma InPrefixStep(flags: string, n: nat)
    requires 0 < n <= |flags|
    ensures forall c :: c in flags[..n] <==> c in flags[..n - 1] || c == flags[n - 1]
  {
    assert flags[..n] == flags[..n - 1] + [flags[n - 1]];
  }

  /** One turn changes the pad character exactly when its flag is `'` or `0`. */
  lemma PadStep(f: Flags, flags: string, j: nat)
    requires j < |flags|
    ensures FlagStep(f, flags, j).customPadChar == if SetsPadChar(flags[j]) then PadCharSetBy(flags, j) else f.customPadChar
  {
  }

  /** The pad character after `n` turns: the last `'` or `0` decides it. */
  lemma {:induction false} PadCharUpTo(flags: string, n: nat)
    requires n <= |flags|
    ensures (forall j :: 0 <= j < n ==> !SetsPadChar(flags[j])) ==> FlagsUpTo(flags, n).customPadChar == " "
    ensures forall j: nat :: LastPadSetter(flags, j, n) ==> FlagsUpTo(flags, n).customPadChar == PadCharSetBy(flags, j)
    decreases n
  {
    if n > 0 {
      PadCharUpTo(flags, n - 1);
      var cur := FlagsUpTo(flags, n).customPadChar;
      assert cur == if SetsPadChar(flags[n - 1]) then PadCharSetBy(flags, n - 1) else FlagsUpTo(flags, n - 1).customPadChar by {
        PadStep(FlagsUpTo(flags, n - 1), flags, n - 1);
      }
      LastSetterBefore(flags, n, SetsSign(flags[n - 1]));
    }
  }

  /**
   * The last setter among the first `n` flags is the flag at `n - 1` when
   * that one sets, and otherwise the last setter among the first `n - 1`.
   */
  lemma LastSetterBefore(flags: string, n: nat, signSets: bool)
    requires 0 < n <= |flags| && signSets == SetsSign(flags[n - 1])
    ensures !SetsPadChar(flags[n - 1]) ==> forall j: nat :: LastPadSetter(flags, j, n) ==> LastPadSetter(flags, j, n - 1)
    ensures SetsPadChar(flags[n - 1]) ==> forall j: nat :: LastPadSetter(flags, j, n) ==> j == n - 1
    ensures !signSets ==> forall j: nat :: LastSignSetter(flags, j, n) ==> LastSignSetter(flags, j, n - 1)
    ensures signSets ==> forall j: nat :: LastSignSetter(flags, j, n) ==> j == n - 1
  {
  }

  /** One turn changes the sign prefix exactly when its flag is ` ` or `+`. */
  lemma SignStep(f: Flags, flags: string, j: nat)
    requires j < |flags|
    ensures FlagStep(f, flags, j).positivePrefix == if SetsSign(flags[j]) then [flags[j]] else f.positivePrefix
  {
  }

  /** The sign prefix after `n` turns: the last ` ` or `+` decides it. */
  lemma SignUpTo(flags: string, n: nat)
    requires n <= |flags|
    ensures (forall j :: 0 <= j < n ==> !SetsSign(flags[j])) ==> FlagsUpTo(flags, n).positivePrefix == ""
    ensures forall j: nat :: LastSignSetter(flags, j, n) ==> FlagsUpTo(flags, n).positivePrefix == [flags[j]]
  {
    SignUnsetUpTo(flags, n);
    SignLastSetUpTo(flags, n);
  }

  lemma {:induction false} SignUnsetUpTo(flags: string, n: nat)
    requires n <= |flags|
    ensures (forall j :: 0 <= j < n ==> !SetsSign(flags[j])) ==> FlagsUpTo(flags, n).positivePrefix == ""
    decreases n
  {
    if n > 0 && forall j :: 0 <= j < n ==> !SetsSign(flags[j]) {
      SignUnsetUpTo(flags, n - 1);
      SignStep(FlagsUpTo(flags, n - 1), flags, n - 1);
    }
  }

  lemma {:induction false} SignLastSetUpTo(flags: string, n: nat)
    requires n <= |flags|
    ensures forall j: nat :: LastSignSetter(flags, j, n) ==> FlagsUpTo(flags, n).positivePrefix == [flags[j]]
    decreases n
  {
    if n > 0 {
      SignLastSetUpTo(flags, n - 1);
      SignStep(FlagsUpTo(flags, n - 1), flags, n - 1);
      LastSetterBefore(flags, n, SetsSign(flags[n - 1]));
    }
  }


  /**
   * After the loop: `-` sets left justification, `0` zero padding, `#` the
   * base prefix; the pad character is the one the last `'` or `0` chose (a
   * space when there is none), and the sign prefix is the last ` ` or `+`.
   */
  lemma FlagsMeaning(flags: string)
    ensures FlagsOf(flags).leftJustify <==> '-' in flags
    ensures FlagsOf(flags).zeroPad <==> '0' in flags
    ensures FlagsOf(flags).prefixBaseX <==> '#' in flags
    ensures (forall j :: 0 <= j < |flags| ==> !SetsPadChar(flags[j])) ==> FlagsOf(flags).customPadChar == " "
    ensures forall j: nat :: LastPadSetter(flags, j, |flags|) ==> FlagsOf(flags).customPadChar == PadCharSetBy(flags, j)
    ensures (forall j :: 0 <= j < |flags| ==> !SetsSign(flags[j])) ==> FlagsOf(flags).positivePrefix == ""
    ensures forall j: nat :: LastSignSetter(flags, j, |flags|) ==> FlagsOf(flags).positivePrefix == [flags[j]]
  {
    SwitchesUpTo(flags, |flags|);
    PadCharUpTo(flags, |flags|);
    SignUpTo(flags, |flags|);
    assert flags[..|flags|] == flags;
  }

  /** The source's `for (j = 0; j < flagsl; j++) switch (flags.charAt(j)) …`. */
  method ParseFlags(flags: string) returns (f: Flags)
    ensures f == FlagsOf(flags)
  {
    var leftJustify, positivePrefix, zeroPad, prefixBaseX, customPadChar := false, "", false, false, " ";
    for j := 0 to |flags|
      invariant Flags(leftJustify, positivePrefix, zeroPad, prefixBaseX, customPadChar) == FlagsUpTo(flags, j)
    {
      match flags[j] {
        case ' ' => positivePrefix := " ";
        case '+' => positivePrefix := "+";
        case '-' => leftJustify := true;
        case '\'' => customPadChar := CharAt(flags, j + 1);
        case '0' => zeroPad := true; customPadChar := "0";
        case '#' => prefixBaseX := true;
        case _ =>
      }
    }
    f := Flags(leftJustify, positivePrefix, zeroPad, prefixBaseX, customPadChar);
  }

  // ---------------------------------------------------------------------------
  // _pad, justify, _formatString
  // ---------------------------------------------------------------------------

  /** `n` copies of `c`. */
  function Repeat(c: char, n: nat): (r: string)
    ensures |r| == n && forall i :: 0 <= i < n ==> r[i] == c
  {
    seq(n, _ => c)
  }

  /**
   * `_pad(str, len, chr, leftJustify)`: `str` padded to `len` characters with
   * `chr` (a space when `chr` is empty), on the right when left-justifying.
   */
  function Pad(str: string, len: int, chr: string, leftJustify: bool): (r: string)
    requires |chr| <= 1
    ensures |r| == if |str| >= len then |str| else len
    ensures leftJustify ==> str <= r && forall i :: |str| <= i < |r| ==> r[i] == PadWith(chr)
    ensures !leftJustify ==> r[|r| - |str|..] == str && forall i :: 0 <= i < |r| - |str| ==> r[i] == PadWith(chr)
  {
    var padding := if |str| >= len then "" else Repeat(PadWith(chr), len - |str|);
    if leftJustify then str + padding else padding + str
  }

  /** `if (!chr) chr = ' '`. */
  function PadWith(chr: string): char
    requires |chr| <= 1
  {
    if chr == "" then ' ' else chr[0]
  }

  /**
   * `justify`: a value shorter than `minWidth` is widened to it. Left
   * justification and plain padding use `_pad`; zero padding to the right
   * puts the zeros after the first `|prefix|` characters.
   */
  function Justify(value: string, prefix: string, leftJustify: bool, minWidth: int, zeroPad: bool, customPadChar: string): (r: string)
    requires |customPadChar| <= 1
    ensures |r| == if |value| >= minWidth then |value| else minWidth
    ensures |value| >= minWidth ==> r == value
    ensures leftJustify ==> value <= r
    ensures !leftJustify && prefix == "" ==> r[|r| - |value|..] == value
    ensures leftJustify ==> forall i :: |value| <= i < |r| ==> r[i] == PadWith(customPadChar)
    ensures !leftJustify && !zeroPad ==> r[|r| - |value|..] == value && forall i :: 0 <= i < |r| - |value| ==> r[i] == PadWith(customPadChar)
    ensures !leftJustify && zeroPad ==>
      var k := if |prefix| <= |value| then |prefix| else |value|;
      && r[..k] == value[..k]
      && (forall i :: k <= i < k + |r| - |value| ==> r[i] == '0')
      && r[k + |r| - |value|..] == value[k..]
  {
    var diff := minWidth - |value|;
    if diff > 0 then
      if leftJustify || !zeroPad then Pad(value, minWidth, customPadChar, leftJustify)
      else
        var k := if |prefix| <= |value| then |prefix| else |value|;
        var r := value[..k] + Pad("", diff, "0", true) + value[k..];
        assert k == 0 ==> r[|r| - |value|..] == value;
        r
    else value
  }

  /** `_formatString`: cut to the precision when there is one, then justify. */
  function FormatString(value: string, leftJustify: bool, minWidth: int, precision: Option<nat>, zeroPad: bool, customPadChar: string): (r: string)
    requires |customPadChar| <= 1
    ensures |r| == if |Cut(value, precision)| >= minWidth then |Cut(value, precision)| else minWidth
    ensures leftJustify ==> Cut(value, precision) <= r
    ensures !leftJustify ==> r[|r| - |Cut(value, precision)|..] == Cut(value, precision)
    ensures leftJustify ==> forall i :: |Cut(value, precision)| <= i < |r| ==> r[i] == PadWith(customPadChar)
    ensures !leftJustify ==> forall i :: 0 <= i < |r| - |Cut(value, precision)| ==> r[i] == if zeroPad then '0' else PadWith(customPadChar)
  {
    Justify(Cut(value, precision), "", leftJustify, minWidth, zeroPad, customPadChar)
  }

  /** `value.slice(0, precision)`, or the whole value when there is no precision. */
  function Cut(value: string, precision: Option<nat>): (r: string)
    ensures r <= value
    ensures precision.None? ==> r == value
    ensures precision.Some? ==> |r| == if precision.value < |value| then precision.value else |value|
  {
    if precision.Some? && precision.value < |value| then value[..precision.value] else value
  }

  // ---------------------------------------------------------------------------
  // doFormat and the whole replacement
  // ---------------------------------------------------------------------------

  /** `a[i++]` past the last argument is `undefined`, which `value + ''` prints. */
  const UNDEFINED := "undefined"

  /** `a[i++]`: the next positional argument. */
  function NextArg(args: seq<string>, next: nat): string
  {
    if next < |args| then args[next] else UNDEFINED
  }

  /**
   * `a[key]` for the digits of an `n$` index: `a[0]` is the format itself,
   * and digits with a leading zero (other than "0") name no array element.
   */
  function KeyedArg(format: string, args: seq<string>, key: string): string
  {
    if key == "0" then format
    else if key != [] && key[0] != '0' && 1 <= DigitsValue(key) <= |args| then args[DigitsValue(key) - 1]
    else UNDEFINED
  }

  /** The decimal value of a width or precision the model covers. */
  function CountValue(c: Count): nat
  {
    if c.Digits? then DigitsValue(c.text) else 0
  }

  /** Does the model cover this directive: a `%s` with no `*` count? */
  predicate Covered(spec: Spec)
  {
    spec.conversion == 's'
    && (spec.width.None? || spec.width.value.Digits?)
    && (spec.precision.None? || spec.precision.value.Digits?)
  }

  /** `doFormat` for a `%s` directive: the text it produces and the next positional index. */
  function Convert(format: string, args: seq<string>, spec: Spec, next: nat): Option<(string, nat)>
  {
    if !Covered(spec) then None
    else
      var f := FlagsOf(spec.flags);
      var minWidth := if spec.width.Some? then CountValue(spec.width.value) else 0;
      var precision := if spec.precision.Some? then Some(CountValue(spec.precision.value)) else None;
      var value := if spec.argKey.Some? then KeyedArg(format, args, spec.argKey.value) else NextArg(args, next);
      var next' := if spec.argKey.Some? then next else next + 1;
      Some((FormatString(value, f.leftJustify, minWidth, precision, f.zeroPad, f.customPadChar), next'))
  }

  /** `s` in front of a result that may be missing. */
  function Prepend(s: string, r: Option<string>): Option<string>
  {
    if r.None? then None else Some(s + r.value)
  }

  lemma PrependEmpty(r: Option<string>)
    ensures Prepend("", r) == r
  {
    if r.Some? {
      assert "" + r.value == r.value;
    }
  }

  lemma PrependTwice(a: string, b: string, r: Option<string>)
    ensures Prepend(a, Prepend(b, r)) == Prepend(a + b, r)
  {
    if r.Some? {
      assert a + (b + r.value) == (a + b) + r.value;
    }
  }

  /**
   * The output for the format from position `pos` on, when `next` arguments
   * have been used; `None` when a directive outside the model is met.
   */
  function FormatFrom(format: string, args: seq<string>, pos: nat, next: nat): Option<string>
    requires pos <= |format|
    decreases |format| - pos
  {
    if |format| <= pos then Some("")
    else if format[pos] != '%' then Prepend([format[pos]], FormatFrom(format, args, pos + 1, next))
    else
      match DirectiveAt(format, pos)
      case None => Prepend("%", FormatFrom(format, args, pos + 1, next))
      case Some((Percent, end)) => Prepend("%", FormatFrom(format, args, end, next))
      case Some((Conversion(spec), end)) =>
        match Convert(format, args, spec, next)
        case None => None
        case Some((text, next')) => Prepend(text, FormatFrom(format, args, end, next'))
  }

  /** `sprintf(format, args…)`. */
  function Format(format: string, args: seq<string>): Option<string>
  {
    FormatFrom(format, args, 0, 0)
  }

  /** `doFormat` for one directive: the flag loop, then `_formatString`. */
  method DoFormat(format: string, args: seq<string>, spec: Spec, next: nat) returns (r: Option<(string, nat)>)
    ensures r == Convert(format, args, spec, next)
    ensures r.Some? <==> Covered(spec)
    ensures r.Some? ==> r.value.1 == if spec.argKey.Some? then next else next + 1
    ensures r.Some? && spec.argKey.None? && spec.width.None? && spec.precision.None? ==> r.value.0 == NextArg(args, next)
  {
    if !Covered(spec) {
      return None;
    }
    var f := ParseFlags(spec.flags);
    var minWidth := 0;
    if spec.width.Some? {
      minWidth := DigitsValue(spec.width.value.text);
    }
    var precision := None;
    if spec.precision.Some? {
      precision := Some(DigitsValue(spec.precision.value.text));
    }
    var value, next' := "", next;
    if spec.argKey.Some? {
      value := KeyedArg(format, args, spec.argKey.value);
    } else {
      value := NextArg(args, next);
      next' := next + 1;
    }
    r := Some((FormatString(value, f.leftJustify, minWidth, precision, f.zeroPad, f.customPadChar), next'));
  }

  /** `format.replace(regex, doFormat)`, with the argument counter shared by all directives. */
  method Sprintf(format: string, args: seq<string>) returns (r: Option<string>)
    ensures r == Format(format, args)
  {
    var out := "";
    var pos, next := 0, 0;
    PrependEmpty(Format(format, args));
    while pos < |format|
      invariant pos <= |format|
      invariant Format(format, args) == Prepend(out, FormatFrom(format, args, pos, next))
      decreases |format| - pos
    {
      if format[pos] != '%' {
        PrependTwice(out, [format[pos]], FormatFrom(format, args, pos + 1, next));
        out, pos := out + [format[pos]], pos + 1;
      } else {
        var d := DirectiveAt(format, pos);
        if d.None? {
          PrependTwice(out, "%", FormatFrom(format, args, pos + 1, next));
          out, pos := out + "%", pos + 1;
        } else if d.value.0.Percent? {
          PrependTwice(out, "%", FormatFrom(format, args, d.value.1, next));
          out, pos := out + "%", d.value.1;
        } else {
          var converted := DoFormat(format, args, d.value.0.spec, next);
          if converted.None? {
            return None;
          }
          PrependTwice(out, converted.value.0, FormatFrom(format, args, d.value.1, converted.value.1));
          out, pos, next := out + converted.value.0, d.value.1, converted.value.1;
        }
      }
    }
    assert out + "" == out;
    return Some(out);
  }

  // ---------------------------------------------------------------------------
  // What the output is
  // ---------------------------------------------------------------------------

  /** Text without `%` is copied as it is. */
  lemma {:induction false} LiteralRun(format: string, args: seq<string>, pos: nat, k: nat, next: nat)
    requires pos <= k <= |format|
    requires '%' !in format[pos..k]
    ensures FormatFrom(format, args, pos, next) == Prepend(format[pos..k], FormatFrom(format, args, k, next))
    decreases k - pos
  {
    if pos < k {
      assert format[pos] == format[pos..k][0];
      assert format[pos + 1..k] == format[pos..k][1..];
      LiteralRun(format, args, pos + 1, k, next);
      PrependTwice([format[pos]], format[pos + 1..k], FormatFrom(format, args, k, next));
      assert [format[pos]] + format[pos + 1..k] == format[pos..k];
    } else {
      assert format[pos..k] == "";
      PrependEmpty(FormatFrom(format, args, k, next));
    }
  }

  /** A format without `%` is its own output, whatever the arguments. */
  lemma NoDirectives(format: string, args: seq<string>)
    requires '%' !in format
    ensures Format(format, args) == Some(format)
  {
    LiteralRun(format, args, 0, |format|, 0);
    assert format[0..|format|] == format;
    assert format + "" == format;
    PrependEmpty(Some(format));
  }

  /** `%%` is one `%` and uses no argument. */
  lemma PercentPercent(format: string, args: seq<string>, pos: nat, next: nat)
    requires pos + 1 < |format| && format[pos] == '%' && format[pos + 1] == '%'
    ensures FormatFrom(format, args, pos, next) == Prepend("%", FormatFrom(format, args, pos + 2, next))
  {
  }

  /** A bare `%s` is the next argument, unchanged. */
  lemma PlainString(format: string, args: seq<string>, pos: nat, next: nat)
    requires pos + 1 < |format| && format[pos] == '%' && format[pos + 1] == 's'
    ensures FormatFrom(format, args, pos, next) == Prepend(NextArg(args, next), FormatFrom(format, args, pos + 2, next + 1))
  {
    assert DigitsEnd(format, pos + 1) == pos + 1;
    assert FlagsEnd(format, pos + 1) == pos + 1;
    assert CountAt(format, pos + 1).None?;
    var spec := Spec(None, "", None, None, 's');
    assert format[pos + 1..pos + 1] == "";
    assert DirectiveAt(format, pos) == Some((Conversion(spec), pos + 2));
    assert FlagsOf("") == NoFlags;
    var value := NextArg(args, next);
    assert FormatString(value, false, 0, None, false, " ") == value;
    assert Convert(format, args, spec, next) == Some((value, next + 1));
  }

  /** A format made of `%`-free pieces with a `%s` between each two. */
  function Template(pieces: seq<string>): string
    requires |pieces| >= 1
    decreases |pieces|
  {
    if |pieces| == 1 then pieces[0] else pieces[0] + "%s" + Template(pieces[1..])
  }

  /** The pieces with the arguments from `next` on put between them, in order. */
  function Filled(pieces: seq<string>, args: seq<string>, next: nat): string
    requires |pieces| >= 1
    decreases |pieces|
  {
    if |pieces| == 1 then pieces[0] else pieces[0] + NextArg(args, next) + Filled(pieces[1..], args, next + 1)
  }

  predicate PercentFree(pieces: seq<string>)
  {
    forall i :: 0 <= i < |pieces| ==> '%' !in pieces[i]
  }

  lemma PercentFreeTail(pieces: seq<string>)
    requires |pieces| >= 1 && PercentFree(pieces)
    ensures '%' !in pieces[0] && PercentFree(pieces[1..])
  {
    forall i | 0 <= i < |pieces[1..]| ensures '%' !in pieces[1..][i] {
      assert pieces[1..][i] == pieces[i + 1];
    }
  }

  /** Where a template sits in a format, its first piece, a `%s` and the rest follow each other. */
  lemma TemplateAt(f: string, pos: nat, pieces: seq<string>)
    requires |pieces| >= 2 && pos <= |f| && f[pos..] == Template(pieces)
    ensures pos + |pieces[0]| + 2 <= |f| && f[pos..pos + |pieces[0]|] == pieces[0]
    ensures f[pos + |pieces[0]|] == '%' && f[pos + |pieces[0]| + 1] == 's'
    ensures f[pos + |pieces[0]| + 2..] == Template(pieces[1..])
  {
    var p, k := pieces[0], pos + |pieces[0]|;
    var rest := Template(pieces[1..]);
    assert f[pos..] == p + "%s" + rest by {
      TemplateStep(pieces);
    }
    assert f[pos..k] == f[pos..][..|p|];
    assert f[k] == f[pos..][|p|] && f[k + 1] == f[pos..][|p| + 1];
    assert f[k + 2..] == f[pos..][|p| + 2..];
  }

  /** The last piece of a template runs to the end of the format. */
  lemma LastPiece(f: string, args: seq<string>, pos: nat, next: nat, p: string)
    requires '%' !in p && pos <= |f| && f[pos..] == p
    ensures FormatFrom(f, args, pos, next) == Some(p)
  {
    assert f[pos..|f|] == p;
    LiteralRun(f, args, pos, |f|, next);
    assert p + "" == p;
  }

  /** A `%`-free run and the `%s` after it put the run and the next argument out. */
  lemma RunThenArgument(f: string, args: seq<string>, pos: nat, k: nat, next: nat)
    requires pos <= k && k + 1 < |f| && '%' !in f[pos..k] && f[k] == '%' && f[k + 1] == 's'
    ensures FormatFrom(f, args, pos, next) == Prepend(f[pos..k] + NextArg(args, next), FormatFrom(f, args, k + 2, next + 1))
  {
    LiteralRun(f, args, pos, k, next);
    PlainString(f, args, k, next);
    PrependTwice(f[pos..k], NextArg(args, next), FormatFrom(f, args, k + 2, next + 1));
  }

  lemma {:induction false} FilledFrom(f: string, args: seq<string>, pos: nat, next: nat, pieces: seq<string>)
    requires |pieces| >= 1 && PercentFree(pieces)
    requires pos <= |f| && f[pos..] == Template(pieces)
    ensures FormatFrom(f, args, pos, next) == Some(Filled(pieces, args, next))
    decreases |pieces|
  {
    PercentFreeTail(pieces);
    if |pieces| == 1 {
      LastPiece(f, args, pos, next, pieces[0]);
    } else {
      var k := pos + |pieces[0]|;
      TemplateAt(f, pos, pieces);
      RunThenArgument(f, args, pos, k, next);
      FilledFrom(f, args, k + 2, next + 1, pieces[1..]);
    }
  }

  lemma TemplateStep(p: seq<string>)
    requires |p| >= 2
    ensures Template(p) == p[0] + "%s" + Template(p[1..])
  {
  }

  lemma FilledStep(p: seq<string>, args: seq<string>, next: nat)
    requires |p| >= 2 && next < |args|
    ensures Filled(p, args, next) == p[0] + args[next] + Filled(p[1..], args, next + 1)
  {
  }

  /** `Template` of five pieces written out. */
  lemma TemplateFive(p: seq<string>)
    requires |p| == 5
    ensures Template(p) == p[0] + "%s" + p[1] + "%s" + p[2] + "%s" + p[3] + "%s" + p[4]
  {
    var t4 := Template(p[4..]);
    assert t4 == p[4] by {
      assert |p[4..]| == 1 && p[4..][0] == p[4];
    }
    var t3 := Template(p[3..]);
    assert t3 == p[3] + "%s" + t4 by {
      TemplateStep(p[3..]);
      assert p[3..][1..] == p[4..];
    }
    var t2 := Template(p[2..]);
    assert t2 == p[2] + "%s" + t3 by {
      TemplateStep(p[2..]);
      assert p[2..][1..] == p[3..];
    }
    var t1 := Template(p[1..]);
    assert t1 == p[1] + "%s" + t2 by {
      TemplateStep(p[1..]);
      assert p[1..][1..] == p[2..];
    }
    assert Template(p) == p[0] + "%s" + t1 by {
      TemplateStep(p);
    }
  }

  /** `Filled` of five pieces with four arguments written out. */
  lemma FilledFive(p0: string, p1: string, p2: string, p3: string, p4: string, args: seq<string>)
    requires |args| == 4
    ensures Filled([p0, p1, p2, p3, p4], args, 0)
      == p0 + args[0] + (p1 + args[1] + (p2 + args[2] + (p3 + args[3] + p4)))
  {
    assert Filled([p3, p4], args, 3) == p3 + args[3] + p4 by {
      FilledStep([p3, p4], args, 3);
      assert [p3, p4][1..] == [p4];
    }
    assert Filled([p2, p3, p4], args, 2) == p2 + args[2] + Filled([p3, p4], args, 3) by {
      FilledStep([p2, p3, p4], args, 2);
      assert [p2, p3, p4][1..] == [p3, p4];
    }
    assert Filled([p1, p2, p3, p4], args, 1) == p1 + args[1] + Filled([p2, p3, p4], args, 2) by {
      FilledStep([p1, p2, p3, p4], args, 1);
      assert [p1, p2, p3, p4][1..] == [p2, p3, p4];
    }
    FilledStep([p0, p1, p2, p3, p4], args, 0);
    assert [p0, p1, p2, p3, p4][1..] == [p1, p2, p3, p4];
  }

  /**
   * A format whose only directives are bare `%s` is filled with the
   * arguments in order; arguments are never rescanned for directives.
   */
  lemma TemplateFilled(pieces: seq<string>, args: seq<string>)
    requires |pieces| >= 1 && PercentFree(pieces)
    ensures Format(Template(pieces), args) == Some(Filled(pieces, args, 0))
  {
    var f := Template(pieces);
    assert f[0..] == f;
    FilledFrom(f, args, 0, 0, pieces);
  }

  /** `sprintf("%%")` is `"%"`. */
  lemma PercentExample()
    ensures Format("%%", []) == Some("%")
  {
    PercentPercent("%%", [], 0, 0);
    assert "%" + "" == "%";
  }

  /** `sprintf("[%10s]", 'monkey')` is `'[    monkey]'`: padded on the left with spaces. */
  lemma WidthExample(f: string, args: seq<string>)
    requires f == "[%10s]" && args == ["monkey"]
    ensures Format(f, args) == Some("[    monkey]")
  {
    assert |f| == 6 && f[0] == '[' && f[1] == '%' && f[5] == ']';
    var spec := WidthExampleReading(f, args);
    BracketedTexts();
    BracketedDirective(f, args, spec, 5, "    monkey", "[    monkey]");
  }

  /** How the example's directive is read and converted. */
  lemma WidthExampleReading(f: string, args: seq<string>) returns (spec: Spec)
    requires f == "[%10s]" && args == ["monkey"]
    ensures DirectiveAt(f, 1) == Some((Conversion(spec), 5))
    ensures Convert(f, args, spec, 0) == Some(("    monkey", 1))
  {
    spec := Spec(None, "", Some(Digits("10")), None, 's');
    WidthExampleDirective(f, spec);
    WidthExampleText(f, args, spec);
  }

  lemma WidthExampleDirective(f: string, spec: Spec)
    requires f == "[%10s]" && spec == Spec(None, "", Some(Digits("10")), None, 's')
    ensures DirectiveAt(f, 1) == Some((Conversion(spec), 5))
  {
    assert DigitsEnd(f, 2) == 4 by {
      assert DigitsEnd(f, 4) == 4;
    }
    assert FlagsEnd(f, 2) == 2;
    assert f[2..4] == "10" && f[2..2] == "";
    assert CountAt(f, 2) == Some((Digits("10"), 4));
  }

  lemma WidthExampleText(f: string, args: seq<string>, spec: Spec)
    requires args == ["monkey"] && spec == Spec(None, "", Some(Digits("10")), None, 's')
    ensures Convert(f, args, spec, 0) == Some(("    monkey", 1))
  {
    assert FlagsOf("") == NoFlags;
    assert DigitsValue("10") == 10 by {
      assert "10"[..1] == "1" && "1"[..0] == "";
    }
    assert Pad("monkey", 10, " ", false) == "    monkey";
  }

  /** `sprintf("[%'#10s]", 'monkey')` is `'[####monkey]'`: `'` chooses the pad character. */
  lemma PadCharExample(f: string, args: seq<string>)
    requires f == "[%'#10s]" && args == ["monkey"]
    ensures Format(f, args) == Some("[####monkey]")
  {
    assert |f| == 8 && f[0] == '[' && f[1] == '%' && f[7] == ']';
    var spec := PadCharExampleReading(f, args);
    BracketedTexts();
    BracketedDirective(f, args, spec, 7, "####monkey", "[####monkey]");
  }

  /** How the example's directive is read and converted. */
  lemma PadCharExampleReading(f: string, args: seq<string>) returns (spec: Spec)
    requires f == "[%'#10s]" && args == ["monkey"]
    ensures DirectiveAt(f, 1) == Some((Conversion(spec), 7))
    ensures Convert(f, args, spec, 0) == Some(("####monkey", 1))
  {
    spec := Spec(None, "'#", Some(Digits("10")), None, 's');
    PadCharExampleDirective(f, spec);
    PadCharExampleText(f, args, spec);
  }

  lemma PadCharExampleDirective(f: string, spec: Spec)
    requires f == "[%'#10s]" && spec == Spec(None, "'#", Some(Digits("10")), None, 's')
    ensures DirectiveAt(f, 1) == Some((Conversion(spec), 7))
  {
    assert DigitsEnd(f, 2) == 2;
    assert FlagsEnd(f, 2) == 4 by {
      assert FlagsEnd(f, 4) == 4;
    }
    assert DigitsEnd(f, 4) == 6 by {
      assert DigitsEnd(f, 6) == 6;
    }
    assert f[4..6] == "10" && f[2..4] == "'#";
    assert CountAt(f, 4) == Some((Digits("10"), 6));
  }

  lemma PadCharExampleText(f: string, args: seq<string>, spec: Spec)
    requires args == ["monkey"] && spec == Spec(None, "'#", Some(Digits("10")), None, 's')
    ensures Convert(f, args, spec, 0) == Some(("####monkey", 1))
  {
    var flags := "'#";
    assert FlagsOf(flags) == Flags(false, "", false, true, "#") by {
      assert FlagsUpTo(flags, 1) == Flags(false, "", false, false, "#");
    }
    assert DigitsValue("10") == 10 by {
      assert "10"[..1] == "1" && "1"[..0] == "";
    }
    assert Pad("monkey", 10, "#", false) == "####monkey";
  }

  /** `sprintf('%-03s', 'E')` is `'E00'`: left justification pads with the chosen `0`. */
  lemma LeftZeroExample(f: string, args: seq<string>)
    requires f == "%-03s" && args == ["E"]
    ensures Format(f, args) == Some("E00")
  {
    var spec := Spec(None, "-0", Some(Digits("3")), None, 's');
    LeftZeroExampleDirective(f, spec);
    LeftZeroExampleText(f, args, spec);
    assert FormatFrom(f, args, 0, 0) == Prepend("E00", FormatFrom(f, args, 5, 1));
    assert "E00" + "" == "E00";
  }

  lemma LeftZeroExampleDirective(f: string, spec: Spec)
    requires f == "%-03s" && spec == Spec(None, "-0", Some(Digits("3")), None, 's')
    ensures DirectiveAt(f, 0) == Some((Conversion(spec), 5))
  {
    assert DigitsEnd(f, 1) == 1;
    assert FlagsEnd(f, 1) == 3 by {
      assert FlagsEnd(f, 3) == 3;
    }
    assert DigitsEnd(f, 3) == 4 by {
      assert DigitsEnd(f, 4) == 4;
    }
    assert f[3..4] == "3" && f[1..3] == "-0";
    assert CountAt(f, 3) == Some((Digits("3"), 4));
  }

  lemma LeftZeroExampleText(f: string, args: seq<string>, spec: Spec)
    requires args == ["E"] && spec == Spec(None, "-0", Some(Digits("3")), None, 's')
    ensures Convert(f, args, spec, 0) == Some(("E00", 1))
  {
    var flags := "-0";
    assert FlagsOf(flags) == Flags(true, "", true, false, "0") by {
      assert FlagsUpTo(flags, 1) == Flags(true, "", false, false, " ");
    }
    assert DigitsValue("3") == 3 by {
      assert "3"[..0] == "";
    }
    assert Pad("E", 3, "0", true) == "E00";
  }

  /** One character that is not `%` is copied. */
  lemma TextStep(format: string, args: seq<string>, pos: nat, next: nat)
    requires pos < |format| && format[pos] != '%'
    ensures FormatFrom(format, args, pos, next) == Prepend([format[pos]], FormatFrom(format, args, pos + 1, next))
  {
  }

  /** A directive is replaced by what `doFormat` makes of it. */
  lemma ConversionStep(format: string, args: seq<string>, pos: nat, next: nat, spec: Spec, end: nat, text: string, next': nat)
    requires pos < |format| && format[pos] == '%'
    requires DirectiveAt(format, pos) == Some((Conversion(spec), end))
    requires Convert(format, args, spec, next) == Some((text, next'))
    ensures FormatFrom(format, args, pos, next) == Prepend(text, FormatFrom(format, args, end, next'))
  {
  }

  /** The bracketed results of the examples, spelt out. */
  lemma BracketedTexts()
    ensures "[    monkey]" == "[" + "    monkey" + "]"
    ensures "[####monkey]" == "[" + "####monkey" + "]"
  {
  }

  /** As `Bracketed`, with the directive's reading and its conversion given. */
  lemma BracketedDirective(f: string, args: seq<string>, spec: Spec, end: nat, text: string, whole: string)
    requires 1 <= end && end + 1 == |f| && f[0] == '[' && f[1] == '%' && f[end] == ']'
    requires DirectiveAt(f, 1) == Some((Conversion(spec), end))
    requires Convert(f, args, spec, 0) == Some((text, 1))
    requires whole == "[" + text + "]"
    ensures Format(f, args) == Some(whole)
  {
    ConversionStep(f, args, 1, 0, spec, end, text, 1);
    Bracketed(f, args, end, text, 1, whole);
  }

  /** A format `[`, one directive, `]` gives the directive's text in brackets. */
  lemma Bracketed(f: string, args: seq<string>, end: nat, text: string, next: nat, whole: string)
    requires 1 <= end && end + 1 == |f| && f[0] == '[' && f[end] == ']'
    requires FormatFrom(f, args, 1, 0) == Prepend(text, FormatFrom(f, args, end, next))
    requires whole == "[" + text + "]"
    ensures Format(f, args) == Some(whole)
  {
    TextStep(f, args, end, next);
    TextStep(f, args, 0, 0);
    assert [f[end]] == "]" && [f[0]] == "[";
    assert "]" + "" == "]";
    assert "[" + (text + "]") == "[" + text + "]";
  }
}
