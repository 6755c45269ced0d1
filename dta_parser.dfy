/** The text form of DTA, from core/grim/src/dta/parser.rs: a parser, built from nom's
  * combinators, over the bytes of a `.dta` script. Each parser takes the input and yields the
  * unconsumed rest with a value, or fails. */
module DtaParser {
  import opened Ints
  import opened Dta

  /** The outcome of a nom parser: the unconsumed input and the value; a recoverable `Error`, on
    * which `alt` tries its next branch and `many0` stops; or a `Failure`, which `cut` raises and
    * every combinator passes on unchanged. */
  datatype Outcome<+T> = Done(rest: Bytes, value: T) | Error | Failure

  const TAB: U8 := 0x09
  const LF: U8 := 0x0A
  const FF: U8 := 0x0C
  const CR: U8 := 0x0D
  const SPACE: U8 := 0x20
  const QUOTE: U8 := 0x22
  const DOLLAR: U8 := 0x24
  const APOSTROPHE: U8 := 0x27
  const OPEN_PAREN: U8 := 0x28
  const CLOSE_PAREN: U8 := 0x29
  const PLUS: U8 := 0x2B
  const MINUS: U8 := 0x2D
  const DOT: U8 := 0x2E
  const SLASH: U8 := 0x2F
  const ZERO: U8 := 0x30
  const SEMICOLON: U8 := 0x3B
  const UPPER_E: U8 := 0x45
  const UPPER_X: U8 := 0x58
  const OPEN_SQUARE: U8 := 0x5B
  const CLOSE_SQUARE: U8 := 0x5D
  const UNDERSCORE: U8 := 0x5F
  const LOWER_E: U8 := 0x65
  const LOWER_X: U8 := 0x78
  const OPEN_CURLY: U8 := 0x7B
  const CLOSE_CURLY: U8 := 0x7D

  /** The keyword `kDataUnhandled`. */
  const KDATA_UNHANDLED: Bytes :=
    [0x6B, 0x44, 0x61, 0x74, 0x61, 0x55, 0x6E, 0x68, 0x61, 0x6E, 0x64, 0x6C, 0x65, 0x64]

  const I32_MAX: int := 0x7FFF_FFFF
  const I32_MIN: int := -0x8000_0000

  /** `WS_CHARACTERS`: space, tab, carriage return, line feed, form feed. */
  predicate IsWs(c: U8) {
    c == SPACE || c == TAB || c == CR || c == LF || c == FF
  }

  /** `NEWLINE_CHARACTERS`. */
  predicate IsNewline(c: U8) {
    c == CR || c == LF
  }

  predicate IsDigit(c: U8) {
    0x30 <= c <= 0x39
  }

  predicate IsAlpha(c: U8) {
    0x41 <= c <= 0x5A || 0x61 <= c <= 0x7A
  }

  predicate IsHexDigit(c: U8) {
    IsDigit(c) || 0x41 <= c <= 0x46 || 0x61 <= c <= 0x66
  }

  /** Bytes of a symbol name: ASCII letters and digits, `.`, `_` and `/`. */
  predicate IsSymbolChar(c: U8) {
    IsAlpha(c) || IsDigit(c) || c == DOT || c == UNDERSCORE || c == SLASH
  }

  /** Bytes of a variable name after its first: ASCII letters and digits and `_`. */
  predicate IsVarChar(c: U8) {
    IsAlpha(c) || IsDigit(c) || c == UNDERSCORE
  }

  /** Bytes that end a bare token: whitespace, brackets of the three kinds and `;`. */
  predicate IsTokenEnd(c: U8) {
    IsWs(c) || c == OPEN_PAREN || c == CLOSE_PAREN || c == OPEN_SQUARE || c == CLOSE_SQUARE
    || c == OPEN_CURLY || c == CLOSE_CURLY || c == SEMICOLON
  }

  /** The byte tests the parsers scan with. */
  datatype ByteClass =
    | Whitespace
    | Newline
    | NotNewline
    | NotQuote
    | Digit
    | HexDigit
    | Alpha
    | SymbolChar
    | VarChar
    | TokenChar

  predicate InClass(c: U8, k: ByteClass) {
    match k
    case Whitespace => IsWs(c)
    case Newline => IsNewline(c)
    case NotNewline => !IsNewline(c)
    case NotQuote => c != QUOTE
    case Digit => IsDigit(c)
    case HexDigit => IsHexDigit(c)
    case Alpha => IsAlpha(c)
    case SymbolChar => IsSymbolChar(c)
    case VarChar => IsVarChar(c)
    case TokenChar => !IsTokenEnd(c)
  }

  /** Every byte of `s` is of class `k`. */
  predicate All(s: Bytes, k: ByteClass) {
    forall i :: 0 <= i < |s| ==> InClass(s[i], k)
  }

  /** `take_while`: the longest prefix of bytes of class `k`, and the rest of the input. */
  function SplitWhile(text: Bytes, k: ByteClass): (r: (Bytes, Bytes))
    ensures |r.0| + |r.1| == |text|
  {
    if text == [] || !InClass(text[0], k) then ([], text)
    else
      var (taken, rest) := SplitWhile(text[1..], k);
      ([text[0]] + taken, rest)
  }

  /** The prefix and the rest make up the input, the prefix is of class `k`, and it is the
    * longest such prefix. */
  lemma {:induction false} SplitWhileFacts(text: Bytes, k: ByteClass)
    ensures var (taken, rest) := SplitWhile(text, k);
      text == taken + rest && All(taken, k) && (rest != [] ==> !InClass(rest[0], k))
  {
    if text != [] && InClass(text[0], k) {
      SplitWhileFacts(text[1..], k);
      var (taken, rest) := SplitWhile(text[1..], k);
      assert text == [text[0]] + text[1..];
      assert [text[0]] + taken + rest == [text[0]] + (taken + rest);
    }
  }

  /** The split is unique: a prefix of class `k` followed by input that does not start with a
    * byte of class `k` is what `SplitWhile` takes. */
  lemma {:induction false} SplitWhileUnique(a: Bytes, b: Bytes, k: ByteClass)
    requires All(a, k) && (b != [] ==> !InClass(b[0], k))
    ensures SplitWhile(a + b, k) == (a, b)
  {
    if a != [] {
      assert (a + b)[0] == a[0] && (a + b)[1..] == a[1..] + b;
      SplitWhileUnique(a[1..], b, k);
      assert [a[0]] + a[1..] == a;
    } else {
      assert a + b == b;
    }
  }

  /** Input of class `k` throughout is taken whole. */
  lemma SplitWhileAll(s: Bytes, k: ByteClass)
    ensures SplitWhile(s, k).1 == [] <==> All(s, k)
  {
    SplitWhileFacts(s, k);
    if All(s, k) {
      SplitWhileUnique(s, [], k);
      assert s + [] == s;
    }
  }

  // ---------------------------------------------------------------------------------------------
  // Whitespace and comments

  /** `take_comment`: a `;`, everything up to the next line break, then the run of line-break
    * bytes, which is the value. Anything not starting with `;` is an `Error`. */
  function TakeComment(text: Bytes): (r: Outcome<Bytes>)
    ensures !r.Failure?
    ensures r.Done? ==> |r.rest| < |text|
  {
    if text == [] || text[0] != SEMICOLON then Error
    else
      var (_, lineEnd) := SplitWhile(text[1..], NotNewline);
      var (newlines, rest) := SplitWhile(lineEnd, Newline);
      Done(rest, newlines)
  }

  /** What `take_ws_or_comment` computes: the input after every leading run of whitespace and
    * comments, and the last run of whitespace taken. */
  function SkipWsAndComments(text: Bytes): (r: (Bytes, Bytes))
    decreases |text|
    ensures |r.0| <= |text|
  {
    var split := SplitWhile(text, Whitespace);
    var comment := TakeComment(split.1);
    if comment.Done? then SkipWsAndComments(comment.rest) else (split.1, split.0)
  }

  /** `s` is what is left of `t` after some prefix. */
  predicate IsSuffix(s: Bytes, t: Bytes) {
    |s| <= |t| && t[|t| - |s|..] == s
  }

  lemma SuffixOfConcat(a: Bytes, b: Bytes)
    ensures IsSuffix(b, a + b)
  {
    assert (a + b)[|a|..] == b;
  }

  lemma SuffixTrans(a: Bytes, b: Bytes, c: Bytes)
    requires IsSuffix(a, b) && IsSuffix(b, c)
    ensures IsSuffix(a, c)
  {
    assert c[|c| - |a|..] == c[|c| - |b|..][|b| - |a|..];
  }

  /** What `SplitWhile` leaves is a suffix of its input. */
  lemma SplitWhileSuffix(text: Bytes, k: ByteClass)
    ensures IsSuffix(SplitWhile(text, k).1, text)
  {
    SplitWhileFacts(text, k);
    SuffixOfConcat(SplitWhile(text, k).0, SplitWhile(text, k).1);
  }

  /** The input a comment leaves is a suffix of the comment's input. */
  lemma TakeCommentSuffix(text: Bytes)
    requires TakeComment(text).Done?
    ensures IsSuffix(TakeComment(text).rest, text)
  {
    var tail := text[1..];
    var lineEnd := SplitWhile(tail, NotNewline).1;
    SplitWhileSuffix(tail, NotNewline);
    SplitWhileSuffix(lineEnd, Newline);
    SuffixTrans(TakeComment(text).rest, lineEnd, tail);
    assert IsSuffix(tail, text);
    SuffixTrans(TakeComment(text).rest, tail, text);
  }

  /** What `SkipWsAndComments` leaves is a suffix of its input that starts with neither
    * whitespace nor `;`, and the run it yields is whitespace. */
  lemma {:induction false} SkipWsAndCommentsSkips(text: Bytes)
    decreases |text|
    ensures IsSuffix(SkipWsAndComments(text).0, text)
    ensures All(SkipWsAndComments(text).1, Whitespace)
    ensures var rest := SkipWsAndComments(text).0; rest == [] || (!IsWs(rest[0]) && rest[0] != SEMICOLON)
  {
    var split := SplitWhile(text, Whitespace);
    SplitWhileFacts(text, Whitespace);
    SuffixOfConcat(split.0, split.1);
    var comment := TakeComment(split.1);
    if comment.Done? {
      TakeCommentSuffix(split.1);
      SkipWsAndCommentsSkips(comment.rest);
      SuffixTrans(comment.rest, split.1, text);
      SuffixTrans(SkipWsAndComments(comment.rest).0, comment.rest, text);
    }
  }

  /** Skipping is idempotent: what is left starts with nothing to skip. */
  lemma SkipWsAndCommentsIdempotent(text: Bytes)
    ensures var rest := SkipWsAndComments(text).0;
      SkipWsAndComments(rest) == (rest, [])
  {
    SkipWsAndCommentsSkips(text);
    var rest := SkipWsAndComments(text).0;
    SplitWhileUnique([], rest, Whitespace);
    assert [] + rest == rest;
  }

  lemma AllConcat(a: Bytes, b: Bytes, k: ByteClass)
    requires All(a, k) && All(b, k)
    ensures All(a + b, k)
  {
  }

  /** Bytes of class `k` in front of the input join the prefix taken. */
  lemma SplitWhilePrepend(a: Bytes, text: Bytes, k: ByteClass)
    requires All(a, k)
    ensures SplitWhile(a + text, k) == (a + SplitWhile(text, k).0, SplitWhile(text, k).1)
  {
    var split := SplitWhile(text, k);
    SplitWhileFacts(text, k);
    AllConcat(a, split.0, k);
    var joined := a + split.0;
    assert a + text == joined + split.1;
    SplitWhileUnique(joined, split.1, k);
  }

  /** Leading whitespace, and a comment ended by a line break, are skipped over. */
  lemma SkipLeadingWs(ws: Bytes, text: Bytes)
    requires All(ws, Whitespace)
    ensures SkipWsAndComments(ws + text).0 == SkipWsAndComments(text).0
  {
    SplitWhilePrepend(ws, text, Whitespace);
  }

  lemma SkipLeadingComment(body: Bytes, text: Bytes)
    requires All(body, NotNewline)
    ensures SkipWsAndComments([SEMICOLON] + body + [LF] + text).0 == SkipWsAndComments(text).0
  {
    var input := [SEMICOLON] + body + [LF] + text;
    var lineEnd := [LF] + text;
    SplitWhileUnique([], input, Whitespace);
    assert [] + input == input;
    assert input[1..] == body + lineEnd;
    SplitWhileUnique(body, lineEnd, NotNewline);
    var split := SplitWhile(lineEnd, Newline);
    SplitWhileFacts(lineEnd, Newline);
    assert split.0 != [] && split.0[0] == LF;
    var moreNewlines := split.0[1..];
    assert text == moreNewlines + split.1 by {
      assert lineEnd == [LF] + (moreNewlines + split.1);
    }
    SkipLeadingWs(moreNewlines, split.1);
  }

  /** `take_ws_or_comment`: takes whitespace, then, as long as a comment follows, the comment and
    * the whitespace after it. */
  method TakeWsOrComment(text: Bytes) returns (rest: Bytes, ws: Bytes)
    ensures (rest, ws) == SkipWsAndComments(text)
  {
    var split := SplitWhile(text, Whitespace);
    ws, rest := split.0, split.1;
    while true
      invariant SkipWsAndComments(text) == match TakeComment(rest)
        case Done(after, _) => SkipWsAndComments(after)
        case _ => (rest, ws)
      decreases |rest|
    {
      var comment := TakeComment(rest);
      if !comment.Done? {
        break;
      }
      split := SplitWhile(comment.rest, Whitespace);
      ws, rest := split.0, split.1;
    }
  }

  // ---------------------------------------------------------------------------------------------
  // Numbers

  /** The value of one decimal or hexadecimal digit. */
  function DigitValue(c: U8): (v: nat)
    ensures IsDigit(c) ==> v == c - ZERO
  {
    if IsDigit(c) then c - ZERO
    else if 0x41 <= c <= 0x46 then c - 0x37
    else if 0x61 <= c <= 0x66 then c - 0x57
    else 0
  }

  /** The number the digits spell in `base`, most significant first, after `acc`. */
  function NumberFrom(acc: nat, digits: Bytes, base: nat): nat
    decreases |digits|
  {
    if digits == [] then acc
    else NumberFrom(acc * base + DigitValue(digits[0]), digits[1..], base)
  }

  lemma {:induction false} NumberFromConcat(acc: nat, a: Bytes, b: Bytes, base: nat)
    decreases |a|
    ensures NumberFrom(acc, a + b, base) == NumberFrom(NumberFrom(acc, a, base), b, base)
  {
    if a == [] {
      assert a + b == b;
    } else {
      assert (a + b)[1..] == a[1..] + b;
      NumberFromConcat(acc * base + DigitValue(a[0]), a[1..], b, base);
    }
  }

  /** The hexadecimal branch of `parse_int`: `0x` or `0X`, then hexadecimal digits to the end of
    * the token, read by `i32::from_str_radix`, which refuses values above `i32::MAX`. */
  function ParseHex(text: Bytes): Outcome<DataArray> {
    if |text| >= 2 && text[0] == ZERO && (text[1] == LOWER_X || text[1] == UPPER_X) then
      var (digits, rest) := SplitWhile(text[2..], HexDigit);
      if digits == [] || rest != [] then Error
      else
        var n := NumberFrom(0, digits, 16);
        if n <= I32_MAX then Done([], Integer(n)) else Error
    else Error
  }

  /** The decimal branch of `parse_int`: an optional `-`, then decimal digits to the end of the
    * token, read by `str::parse::<i32>`, which refuses values outside the `i32` range. */
  function ParseDec(text: Bytes): Outcome<DataArray> {
    var negative := text != [] && text[0] == MINUS;
    var body := if negative then text[1..] else text;
    var (digits, rest) := SplitWhile(body, Digit);
    if digits == [] || rest != [] then Error
    else
      var magnitude: int := NumberFrom(0, digits, 10);
      var n := if negative then -magnitude else magnitude;
      if I32_MIN <= n <= I32_MAX then Done([], Integer(n)) else Error
  }

  /** `parse_int`: the hexadecimal form, else the decimal form. */
  function ParseInt(text: Bytes): (r: Outcome<DataArray>)
    ensures r.Done? ==> r.rest == [] && r.value.Integer?
    ensures !r.Failure?
  {
    var hex := ParseHex(text);
    if hex.Error? then ParseDec(text) else hex
  }

  /** Hexadecimal integer text: `0x`/`0X` and at least one hexadecimal digit. */
  predicate IsHexText(text: Bytes) {
    |text| > 2 && text[0] == ZERO && (text[1] == LOWER_X || text[1] == UPPER_X) && All(text[2..], HexDigit)
  }

  /** Decimal integer text: an optional `-` and at least one decimal digit. */
  predicate IsDecText(text: Bytes) {
    if text != [] && text[0] == MINUS then |text| > 1 && All(text[1..], Digit)
    else text != [] && All(text, Digit)
  }

  /** The value decimal integer text denotes. */
  function DecValue(text: Bytes): int {
    if text != [] && text[0] == MINUS then -(NumberFrom(0, text[1..], 10) as int)
    else NumberFrom(0, text, 10)
  }

  /** The value integer text denotes. */
  function TextValue(text: Bytes): int {
    if IsHexText(text) then NumberFrom(0, text[2..], 16) else DecValue(text)
  }

  lemma ParseHexIff(text: Bytes)
    ensures ParseHex(text).Done? <==> IsHexText(text) && NumberFrom(0, text[2..], 16) <= I32_MAX
    ensures ParseHex(text).Done? ==> ParseHex(text) == Done([], Integer(NumberFrom(0, text[2..], 16)))
    ensures !ParseHex(text).Failure?
  {
    if |text| >= 2 && text[0] == ZERO && (text[1] == LOWER_X || text[1] == UPPER_X) {
      var split := SplitWhile(text[2..], HexDigit);
      SplitWhileAll(text[2..], HexDigit);
      SplitWhileFacts(text[2..], HexDigit);
      if split.1 == [] {
        assert text[2..] == split.0 + [] == split.0;
      }
    }
  }

  lemma ParseDecIff(text: Bytes)
    ensures ParseDec(text).Done? <==> IsDecText(text) && I32_MIN <= DecValue(text) <= I32_MAX
    ensures ParseDec(text).Done? ==> ParseDec(text) == Done([], Integer(DecValue(text)))
    ensures !ParseDec(text).Failure?
  {
    var negative := text != [] && text[0] == MINUS;
    var body := if negative then text[1..] else text;
    var split := SplitWhile(body, Digit);
    SplitWhileAll(body, Digit);
    SplitWhileFacts(body, Digit);
    if split.1 == [] {
      assert body == split.0 + [] == split.0;
    }
  }

  /** `parse_int` accepts exactly the hexadecimal texts whose value is at most `i32::MAX` and
    * the decimal texts whose value is an `i32`, and yields that value with nothing left over. */
  lemma ParseIntIff(text: Bytes)
    ensures ParseInt(text).Done? <==>
      (IsHexText(text) && TextValue(text) <= I32_MAX)
      || (!IsHexText(text) && IsDecText(text) && I32_MIN <= TextValue(text) <= I32_MAX)
    ensures ParseInt(text).Done? ==> ParseInt(text) == Done([], Integer(TextValue(text)))
  {
    ParseHexIff(text);
    ParseDecIff(text);
    if IsHexText(text) {
      assert !IsDigit(text[1]);
      assert !IsDecText(text);
    }
  }

  /** The decimal digits of `n`, most significant first, as Rust's `Display` writes them. */
  function DecimalDigits(n: nat): (r: Bytes)
    ensures r != [] && All(r, Digit)
  {
    if n < 10 then [ZERO + n]
    else
      var high, low := DecimalDigits(n / 10), [ZERO + n % 10];
      AllConcat(high, low, Digit);
      high + low
  }

  lemma {:induction false} DecimalDigitsValue(n: nat)
    ensures NumberFrom(0, DecimalDigits(n), 10) == n
  {
    if n >= 10 {
      var high := DecimalDigits(n / 10);
      DecimalDigitsValue(n / 10);
      NumberFromConcat(0, high, [ZERO + n % 10], 10);
    }
  }

  /** The text an `i32` is written as. */
  function DecimalText(v: I32): Bytes {
    if v < 0 then [MINUS] + DecimalDigits(-(v as int)) else DecimalDigits(v)
  }

  /** Reading an integer back from its decimal text gives the integer. */
  lemma ParseIntDecimalText(v: I32)
    ensures ParseInt(DecimalText(v)) == Done([], Integer(v))
  {
    var text := DecimalText(v);
    var magnitude: nat := if v < 0 then -(v as int) else v;
    var digits := DecimalDigits(magnitude);
    DecimalDigitsValue(magnitude);
    if v < 0 {
      assert text == [MINUS] + digits && text[1..] == digits;
      assert !IsHexText(text);
    } else {
      assert text == digits && IsDigit(text[0]);
      assert |text| > 1 ==> IsDigit(text[1]);
    }
    assert IsDecText(text) && DecValue(text) == v;
    ParseIntIff(text);
  }

  // ---------------------------------------------------------------------------------------------
  // Floats

  /** `recognize_float`: an optional sign; digits with an optional `.` and further digits, or a
    * `.` and digits; then an optional exponent `e`/`E`, optional sign and digits. Once the
    * exponent letter is read, missing digits are a `Failure` (nom's `cut`). The value is the
    * recognized text. */
  function RecognizeFloat(text: Bytes): (r: Outcome<Bytes>)
    ensures r.Done? ==> |r.rest| <= |text| && r.value == text[..|text| - |r.rest|]
  {
    var unsigned := if text != [] && (text[0] == PLUS || text[0] == MINUS) then text[1..] else text;
    var (whole, afterWhole) := SplitWhile(unsigned, Digit);
    var hasDot := afterWhole != [] && afterWhole[0] == DOT;
    var (fraction, afterFraction) := if hasDot then SplitWhile(afterWhole[1..], Digit) else ([], afterWhole);
    if whole == [] && fraction == [] then Error
    else if afterFraction != [] && (afterFraction[0] == LOWER_E || afterFraction[0] == UPPER_E) then
      var expSigned := afterFraction[1..];
      var expDigits := if expSigned != [] && (expSigned[0] == PLUS || expSigned[0] == MINUS) then expSigned[1..] else expSigned;
      var (exponent, rest) := SplitWhile(expDigits, Digit);
      if exponent == [] then Failure
      else Done(rest, text[..|text| - |rest|])
    else Done(afterFraction, text[..|text| - |afterFraction|])
  }

  /** `parse_float`: the whole token must be float text; its value, which is Rust's
    * `str::parse::<f32>` and never fails on such text, is the given conversion's bit pattern. */
  function ParseFloat(text: Bytes, floatBits: Bytes -> U32): (r: Outcome<DataArray>)
    ensures r.Done? ==> r == Done([], Float(floatBits(text)))
  {
    match RecognizeFloat(text)
    case Done(rest, _) => if rest == [] then Done([], Float(floatBits(text))) else Error
    case Error => Error
    case Failure => Failure
  }

  /** Digits followed by an exponent letter and nothing more are a `Failure`, not an `Error`. */
  lemma FloatExponentCut(digits: Bytes, e: U8, floatBits: Bytes -> U32)
    requires digits != [] && All(digits, Digit) && (e == LOWER_E || e == UPPER_E)
    ensures ParseFloat(digits + [e], floatBits) == Failure
  {
    var text := digits + [e];
    assert text[0] == digits[0];
    SplitWhileUnique(digits, [e], Digit);
    assert [e][1..] == [];
  }

  // ---------------------------------------------------------------------------------------------
  // Variables, symbols, strings, keywords

  /** `parse_variable`: `$`, then a letter or `_`, then letters, digits and `_` to the end of the
    * token. The value keeps the `$`. */
  function ParseVariable(text: Bytes): Outcome<DataArray> {
    if text == [] || text[0] != DOLLAR then Error
    else
      var name := text[1..];
      var (first, afterFirst) :=
        if name != [] && IsAlpha(name[0]) then SplitWhile(name, Alpha)
        else if name != [] && name[0] == UNDERSCORE then ([name[0]], name[1..])
        else ([], name);
      if first == [] then Error
      else
        var (_, rest) := SplitWhile(afterFirst, VarChar);
        if rest != [] then Error else Done([], Variable(DataString(text)))
  }

  /** A variable name: a letter or `_`, then letters, digits and `_`. */
  predicate IsVarName(name: Bytes) {
    name != [] && (IsAlpha(name[0]) || name[0] == UNDERSCORE) && All(name[1..], VarChar)
  }

  /** `parse_variable` accepts exactly `$` and a variable name, and keeps the whole text. */
  lemma ParseVariableIff(text: Bytes)
    ensures ParseVariable(text).Done? <==> text != [] && text[0] == DOLLAR && IsVarName(text[1..])
    ensures ParseVariable(text).Done? ==> ParseVariable(text) == Done([], Variable(DataString(text)))
  {
    if text != [] && text[0] == DOLLAR && text[1..] != [] {
      var name := text[1..];
      if IsAlpha(name[0]) {
        var split := SplitWhile(name, Alpha);
        SplitWhileFacts(name, Alpha);
        assert split.0 != [];
        var tailFirst := split.0[1..];
        assert name[1..] == tailFirst + split.1 by {
          assert name == [split.0[0]] + (tailFirst + split.1);
        }
        assert All(tailFirst, VarChar);
        SplitWhileAll(split.1, VarChar);
        if All(split.1, VarChar) {
          AllConcat(tailFirst, split.1, VarChar);
        }
        if All(name[1..], VarChar) {
          AllOfSuffix(tailFirst, split.1, VarChar);
        }
      } else if name[0] == UNDERSCORE {
        SplitWhileAll(name[1..], VarChar);
      }
    }
  }

  lemma AllOfSuffix(a: Bytes, b: Bytes, k: ByteClass)
    requires All(a + b, k)
    ensures All(b, k)
  {
    forall i | 0 <= i < |b|
      ensures InClass(b[i], k)
    {
      assert b[i] == (a + b)[|a| + i];
    }
  }

  /** `parse_symbol_name`: one or more symbol bytes. */
  function ParseSymbolName(text: Bytes): (r: Outcome<Bytes>)
    ensures !r.Failure?
  {
    var (name, rest) := SplitWhile(text, SymbolChar);
    if name == [] then Error else Done(rest, name)
  }

  /** `parse_symbol`: a symbol name, else a symbol name between `'` quotes, and nothing after
    * it. The value leaves the quotes out. */
  function ParseSymbol(text: Bytes): Outcome<DataArray> {
    var bare := ParseSymbolName(text);
    var named :=
      if bare.Done? then bare
      else if text != [] && text[0] == APOSTROPHE then
        match ParseSymbolName(text[1..])
        case Done(t1, name) => if t1 != [] && t1[0] == APOSTROPHE then Done(t1[1..], name) else Error
        case _ => Error
      else Error;
    match named
    case Done(rest, name) => if rest == [] then Done([], Symbol(DataString(name))) else Error
    case _ => Error
  }

  /** A symbol name: one or more symbol bytes. */
  predicate IsSymbolName(name: Bytes) {
    name != [] && All(name, SymbolChar)
  }

  /** `parse_symbol` accepts exactly a symbol name, bare or quoted, and yields the name. */
  lemma ParseSymbolIff(text: Bytes, name: Bytes)
    ensures ParseSymbol(text) == Done([], Symbol(DataString(name))) <==>
      IsSymbolName(name) && (text == name || text == [APOSTROPHE] + name + [APOSTROPHE])
    ensures ParseSymbol(text).Done? ==> ParseSymbol(text).value.Symbol?
  {
    if IsSymbolName(name) && text == name {
      ParseSymbolBare(text);
    } else if IsSymbolName(name) && text == [APOSTROPHE] + name + [APOSTROPHE] {
      ParseSymbolQuoted(name);
    }
    if ParseSymbol(text) == Done([], Symbol(DataString(name))) {
      ParseSymbolSound(text);
    }
  }

  lemma ParseSymbolBare(name: Bytes)
    requires IsSymbolName(name)
    ensures ParseSymbol(name) == Done([], Symbol(DataString(name)))
  {
    SplitWhileAll(name, SymbolChar);
    SplitWhileFacts(name, SymbolChar);
    assert SplitWhile(name, SymbolChar).0 == name;
  }

  lemma ParseSymbolQuoted(name: Bytes)
    requires IsSymbolName(name)
    ensures ParseSymbol([APOSTROPHE] + name + [APOSTROPHE]) == Done([], Symbol(DataString(name)))
  {
    var text := [APOSTROPHE] + name + [APOSTROPHE];
    assert SplitWhile(text, SymbolChar).0 == [];
    assert text[1..] == name + [APOSTROPHE];
    SplitWhileUnique(name, [APOSTROPHE], SymbolChar);
  }

  /** What `parse_symbol` accepts is a symbol name, bare or quoted, and the value is it. */
  lemma ParseSymbolSound(text: Bytes)
    requires ParseSymbol(text).Done?
    ensures var name := ParseSymbol(text).value.s.data;
      IsSymbolName(name) && (text == name || text == [APOSTROPHE] + name + [APOSTROPHE])
  {
    var bare := SplitWhile(text, SymbolChar);
    SplitWhileFacts(text, SymbolChar);
    if bare.0 != [] {
      assert text == bare.0 + [];
    } else {
      var inner := SplitWhile(text[1..], SymbolChar);
      SplitWhileFacts(text[1..], SymbolChar);
      assert inner.1 == [APOSTROPHE] by {
        assert inner.1 == [inner.1[0]] + inner.1[1..];
      }
      assert text == [text[0]] + text[1..];
    }
  }

  /** `parse_string`: `"`, every byte up to the next `"`, then that `"`. There are no escapes. */
  function ParseString(text: Bytes): (r: Outcome<DataArray>)
    ensures !r.Failure?
    ensures r.Done? ==> |r.rest| < |text|
  {
    if text == [] || text[0] != QUOTE then Error
    else
      var (body, rest) := SplitWhile(text[1..], NotQuote);
      if rest == [] then Error else Done(rest[1..], String(DataString(body)))
  }

  /** A quoted text without inner quotes is read back as its contents. */
  lemma ParseStringQuoted(body: Bytes, after: Bytes)
    requires All(body, NotQuote)
    ensures ParseString([QUOTE] + body + [QUOTE] + after) == Done(after, String(DataString(body)))
  {
    var text := [QUOTE] + body + [QUOTE] + after;
    assert text[1..] == body + ([QUOTE] + after);
    SplitWhileUnique(body, [QUOTE] + after, NotQuote);
  }

  /** `parse_kdata_unhandled`: the whole token is `kDataUnhandled`. */
  function ParseKData(text: Bytes): Outcome<DataArray> {
    if text == KDATA_UNHANDLED then Done([], KDataUnhandled) else Error
  }

  // ---------------------------------------------------------------------------------------------
  // Nodes and arrays

  /** The alternatives tried on a bare token, in order: the keyword, an integer, a float, a
    * variable, a symbol. */
  function TokenValue(token: Bytes, floatBits: Bytes -> U32): Outcome<DataArray> {
    var kdata := ParseKData(token);
    if !kdata.Error? then kdata else
    var integer := ParseInt(token);
    if !integer.Error? then integer else
    var float := ParseFloat(token, floatBits);
    if !float.Error? then float else
    var variable := ParseVariable(token);
    if !variable.Error? then variable else
    ParseSymbol(token)
  }

  /** `map_parser(take_until_ws_comment_array1, …)`: the token is the bytes up to the next
    * whitespace, bracket or `;`, at least one; its value comes from `TokenValue`, which must
    * succeed, and the input goes on after the token. */
  function ParseToken(text: Bytes, floatBits: Bytes -> U32): (r: Outcome<DataArray>)
    ensures r.Done? ==> |r.rest| < |text|
  {
    var (token, rest) := SplitWhile(text, TokenChar);
    if token == [] then Error
    else
      match TokenValue(token, floatBits)
      case Done(_, v) => Done(rest, v)
      case Error => Error
      case Failure => Failure
  }

  /** The three bracketed node kinds. */
  datatype Bracket = Paren | Square | Curly {
    function Open(): U8 {
      match this
      case Paren => OPEN_PAREN
      case Square => OPEN_SQUARE
      case Curly => OPEN_CURLY
    }

    function Close(): U8 {
      match this
      case Paren => CLOSE_PAREN
      case Square => CLOSE_SQUARE
      case Curly => CLOSE_CURLY
    }

    /** `(…)` is an `Array`, `[…]` a `Property`, `{…}` a `Command`. */
    function Wrap(items: seq<DataArray>): DataArray {
      match this
      case Paren => Array(items)
      case Square => Property(items)
      case Curly => Command(items)
    }
  }

  /** `parse_node`: after whitespace and comments, a bare token, a string, or a bracketed list of
    * nodes, in that order of preference. */
  function ParseNode(text: Bytes, floatBits: Bytes -> U32): (r: Outcome<DataArray>)
    decreases |text|, 1
    ensures r.Done? ==> |r.rest| < |text|
  {
    var t := SkipWsAndComments(text).0;
    var token := ParseToken(t, floatBits);
    if !token.Error? then token else
    var str := ParseString(t);
    if !str.Error? then str else
    var paren := ParseGroup(t, Paren, floatBits);
    if !paren.Error? then paren else
    var square := ParseGroup(t, Square, floatBits);
    if !square.Error? then square else
    ParseGroup(t, Curly, floatBits)
  }

  /** One bracketed alternative of `parse_node`: the opening bracket, `parse_data_array`, then
    * whitespace and comments and the closing bracket. */
  function ParseGroup(t: Bytes, bracket: Bracket, floatBits: Bytes -> U32): (r: Outcome<DataArray>)
    decreases |t|, 0
    ensures r.Done? ==> |r.rest| < |t|
  {
    if t == [] || t[0] != bracket.Open() then Error
    else
      match ParseDataArray(t[1..], floatBits)
      case Done(afterItems, items) =>
        var r := SkipWsAndComments(afterItems).0;
        if r != [] && r[0] == bracket.Close() then Done(r[1..], bracket.Wrap(items)) else Error
      case Error => Error
      case Failure => Failure
  }

  /** `parse_data_array`, `many0(parse_node)`: nodes as long as one parses; the first `Error`
    * ends the list, before the input that node would have started at, and a `Failure` fails
    * the list. Every node consumes input, so nom's check against a parser that consumes
    * nothing never fires. */
  function ParseDataArray(text: Bytes, floatBits: Bytes -> U32): (r: Outcome<seq<DataArray>>)
    decreases |text|, 2
    ensures r.Done? ==> |r.rest| <= |text|
    ensures !r.Error?
  {
    match ParseNode(text, floatBits)
    case Error => Done(text, [])
    case Failure => Failure
    case Done(rest, node) =>
      match ParseDataArray(rest, floatBits)
      case Done(after, nodes) => Done(after, [node] + nodes)
      case _ => Failure
  }

  /** Input holding only whitespace and comments yields no node, and an empty list. */
  lemma ParseBlank(text: Bytes, floatBits: Bytes -> U32)
    requires SkipWsAndComments(text).0 == []
    ensures ParseNode(text, floatBits) == Error
    ensures ParseDataArray(text, floatBits) == Done(text, [])
  {
    assert SplitWhile([], TokenChar) == ([], []);
  }

  /** Leading whitespace does not change the node read. */
  lemma ParseNodeAfterWs(ws: Bytes, text: Bytes, floatBits: Bytes -> U32)
    requires All(ws, Whitespace)
    ensures ParseNode(ws + text, floatBits) == ParseNode(text, floatBits)
  {
    SkipLeadingWs(ws, text);
  }

  /** Input that starts with neither whitespace nor `;` is left as it is. */
  lemma SkipNothing(text: Bytes)
    requires text == [] || (!IsWs(text[0]) && text[0] != SEMICOLON)
    ensures SkipWsAndComments(text) == (text, [])
  {
    SplitWhileUnique([], text, Whitespace);
    assert [] + text == text;
  }

  /** A whole input that is one bare token reads as the token's value. */
  lemma ParseNodeBareToken(text: Bytes, floatBits: Bytes -> U32, v: DataArray)
    requires text != [] && All(text, TokenChar) && TokenValue(text, floatBits) == Done([], v)
    ensures ParseNode(text, floatBits) == Done([], v)
  {
    SkipNothing(text);
    ParseTokenWhole(text, floatBits, v);
  }

  lemma ParseTokenWhole(text: Bytes, floatBits: Bytes -> U32, v: DataArray)
    requires text != [] && All(text, TokenChar) && TokenValue(text, floatBits) == Done([], v)
    ensures ParseToken(text, floatBits) == Done([], v)
  {
    var split := SplitWhile(text, TokenChar);
    SplitWhileAll(text, TokenChar);
    SplitWhileFacts(text, TokenChar);
    assert split.1 == [];
    assert split.0 == text by {
      assert text == split.0 + split.1;
    }
  }

  /** The decimal text of an integer is one bare token whose value is that integer. */
  lemma TokenValueInteger(v: I32, floatBits: Bytes -> U32)
    ensures DecimalText(v) != [] && All(DecimalText(v), TokenChar)
    ensures TokenValue(DecimalText(v), floatBits) == Done([], Integer(v))
  {
    var text := DecimalText(v);
    var magnitude: nat := if v < 0 then -(v as int) else v;
    var digits := DecimalDigits(magnitude);
    assert All(text, TokenChar) by {
      forall i | 0 <= i < |text|
        ensures InClass(text[i], TokenChar)
      {
        if v < 0 && i > 0 {
          assert text[i] == digits[i - 1];
        }
      }
    }
    assert text != KDATA_UNHANDLED by {
      assert KDATA_UNHANDLED[0] == 0x6B;
    }
    ParseIntDecimalText(v);
  }

  /** An integer's decimal text is read back as that integer. */
  lemma ParseNodeInteger(v: I32, floatBits: Bytes -> U32)
    ensures ParseNode(DecimalText(v), floatBits) == Done([], Integer(v))
  {
    TokenValueInteger(v, floatBits);
    ParseNodeBareToken(DecimalText(v), floatBits, Integer(v));
  }

  /** `$` and a variable name read as that variable. */
  lemma ParseNodeVariable(name: Bytes, floatBits: Bytes -> U32)
    requires IsVarName(name)
    ensures ParseNode([DOLLAR] + name, floatBits) == Done([], Variable(DataString([DOLLAR] + name)))
  {
    var text := [DOLLAR] + name;
    assert text[1..] == name;
    assert All(text, TokenChar) by {
      forall i | 0 <= i < |text|
        ensures InClass(text[i], TokenChar)
      {
        if 1 < i {
          assert text[i] == name[1..][i - 2];
        }
      }
    }
    assert text != KDATA_UNHANDLED by {
      assert KDATA_UNHANDLED[0] == 0x6B;
    }
    assert ParseHex(text).Error?;
    assert ParseDec(text).Error? by {
      SplitWhileFacts(text, Digit);
    }
    assert RecognizeFloat(text).Error? by {
      SplitWhileFacts(text, Digit);
    }
    ParseVariableIff(text);
    ParseNodeBareToken(text, floatBits, Variable(DataString(text)));
  }

  /** `parse_int` takes unsigned decimal text up to `i32::MAX` and, after `-`, up to
    * 2147483648: one more either way is refused. */
  lemma ParseIntDecimalBounds(n: nat)
    ensures ParseInt(DecimalDigits(n)).Done? <==> n <= I32_MAX
    ensures ParseInt([MINUS] + DecimalDigits(n)).Done? <==> n <= 0x8000_0000
  {
    var digits := DecimalDigits(n);
    DecimalDigitsValue(n);
    assert IsDigit(digits[0]) && (|digits| > 1 ==> IsDigit(digits[1]));
    assert IsDecText(digits) && DecValue(digits) == n;
    ParseIntIff(digits);
    var negative := [MINUS] + digits;
    assert negative[1..] == digits;
    assert IsDecText(negative) && DecValue(negative) + n == 0;
    ParseIntIff(negative);
  }

  /** A comment with no line break after it, alone or after whitespace, is no node. */
  lemma ParseCommentOnly(ws: Bytes, body: Bytes, floatBits: Bytes -> U32)
    requires All(ws, Whitespace) && All(body, NotNewline)
    ensures ParseNode(ws + [SEMICOLON] + body, floatBits) == Error
  {
    var comment := [SEMICOLON] + body;
    assert ws + [SEMICOLON] + body == ws + comment;
    SkipLeadingWs(ws, comment);
    SplitWhileUnique([], comment, Whitespace);
    assert [] + comment == comment;
    assert comment[1..] == body;
    SplitWhileAll(body, NotNewline);
    SplitWhileFacts(body, NotNewline);
    SplitWhileUnique([], [], Newline);
    assert SkipWsAndComments([]) == ([], []);
    ParseBlank(ws + comment, floatBits);
  }

  /** A bare token followed by the end of the input, whitespace, a bracket or `;` reads as the
    * token's value, and the input goes on after the token. */
  lemma ParseNodeTokenThen(token: Bytes, after: Bytes, floatBits: Bytes -> U32, v: DataArray)
    requires token != [] && All(token, TokenChar) && TokenValue(token, floatBits) == Done([], v)
    requires after == [] || IsTokenEnd(after[0])
    ensures ParseNode(token + after, floatBits) == Done(after, v)
  {
    var text := token + after;
    assert SkipWsAndComments(text).0 == text by {
      TokenStartsNode(token, after);
      SkipNothing(text);
    }
    assert ParseToken(text, floatBits) == Done(after, v) by {
      ParseTokenThen(token, after, floatBits, v);
    }
    ParseNodeByToken(text, text, floatBits, after, v);
  }

  lemma TokenStartsNode(token: Bytes, after: Bytes)
    requires token != [] && All(token, TokenChar)
    ensures (token + after)[0] == token[0] && !IsWs(token[0]) && token[0] != SEMICOLON
  {
    assert InClass(token[0], TokenChar);
  }

  /** The token alternative comes first: where it succeeds after skipping, it is the node. */
  lemma ParseNodeByToken(text: Bytes, t: Bytes, floatBits: Bytes -> U32, rest: Bytes, v: DataArray)
    requires SkipWsAndComments(text).0 == t && ParseToken(t, floatBits) == Done(rest, v)
    ensures ParseNode(text, floatBits) == Done(rest, v)
  {
  }

  lemma ParseTokenThen(token: Bytes, after: Bytes, floatBits: Bytes -> U32, v: DataArray)
    requires token != [] && All(token, TokenChar) && TokenValue(token, floatBits) == Done([], v)
    requires after == [] || IsTokenEnd(after[0])
    ensures ParseToken(token + after, floatBits) == Done(after, v)
  {
    SplitWhileUnique(token, after, TokenChar);
  }

  /** A closing bracket is no node. */
  lemma ParseNodeAtClose(b: Bracket, after: Bytes, floatBits: Bytes -> U32)
    ensures ParseNode([b.Close()] + after, floatBits) == Error
  {
    var text := [b.Close()] + after;
    SkipNothing(text);
    SplitWhileUnique([], text, TokenChar);
    assert [] + text == text;
  }

  /** A token that starts with a letter, is a symbol name and is not the keyword reads as that
    * symbol. */
  lemma TokenValueSymbol(name: Bytes, floatBits: Bytes -> U32)
    requires IsSymbolName(name) && IsAlpha(name[0]) && name != KDATA_UNHANDLED
    ensures TokenValue(name, floatBits) == Done([], Symbol(DataString(name)))
  {
    SplitWhileFacts(name, Digit);
    assert ParseInt(name).Error?;
    assert RecognizeFloat(name).Error?;
    ParseSymbolBare(name);
  }

  /** `many0` keeps a node that parses and goes on after it. */
  lemma ParseDataArrayCons(text: Bytes, floatBits: Bytes -> U32, rest: Bytes, node: DataArray, after: Bytes, nodes: seq<DataArray>)
    requires ParseNode(text, floatBits) == Done(rest, node)
    requires ParseDataArray(rest, floatBits) == Done(after, nodes)
    ensures ParseDataArray(text, floatBits) == Done(after, [node] + nodes)
  {
  }

  /** A list of nodes in brackets whose list ends at the matching closing bracket reads as the
    * bracket's kind of node. */
  lemma ParseGroupClosed(b: Bracket, items: Bytes, floatBits: Bytes -> U32, nodes: seq<DataArray>)
    requires ParseDataArray(items, floatBits) == Done([b.Close()], nodes)
    ensures ParseNode([b.Open()] + items, floatBits) == Done([], b.Wrap(nodes))
  {
    var text := [b.Open()] + items;
    assert text[1..] == items;
    SkipNothing(text);
    SkipNothing([b.Close()]);
    SplitWhileUnique([], text, TokenChar);
    assert [] + text == text;
  }

  /** The last element of a list: a token before the closing bracket. */
  lemma ParseLastItem(b: Bytes, floatBits: Bytes -> U32, vb: DataArray, close: Bytes)
    requires b != [] && All(b, TokenChar) && TokenValue(b, floatBits) == Done([], vb)
    requires close == [CLOSE_PAREN]
    ensures ParseDataArray(b + close, floatBits) == Done(close, [vb])
  {
    assert ParseDataArray(close, floatBits) == Done(close, []) by {
      ParseNodeAtClose(Paren, [], floatBits);
      assert close == [CLOSE_PAREN] + [];
    }
    ParseNodeTokenThen(b, close, floatBits, vb);
    ParseDataArrayCons(b + close, floatBits, close, vb, close, []);
    assert [vb] + [] == [vb];
  }

  /** Whitespace before a list of nodes is skipped by its first node. */
  lemma ParseDataArrayAfterWs(ws: Bytes, text: Bytes, floatBits: Bytes -> U32, after: Bytes, nodes: seq<DataArray>)
    requires All(ws, Whitespace) && nodes != []
    requires ParseDataArray(text, floatBits) == Done(after, nodes)
    ensures ParseDataArray(ws + text, floatBits) == Done(after, nodes)
  {
    ParseNodeAfterWs(ws, text, floatBits);
  }

  /** Two bare tokens between parentheses, with a space between them, read as the `Array` of
    * their values. */
  lemma ParsePairArray(a: Bytes, b: Bytes, floatBits: Bytes -> U32, va: DataArray, vb: DataArray, text: Bytes)
    requires a != [] && All(a, TokenChar) && TokenValue(a, floatBits) == Done([], va)
    requires b != [] && All(b, TokenChar) && TokenValue(b, floatBits) == Done([], vb)
    requires text == [OPEN_PAREN] + (a + ([SPACE] + (b + [CLOSE_PAREN])))
    ensures ParseNode(text, floatBits) == Done([], Array([va, vb]))
  {
    var close := [CLOSE_PAREN];
    var second := [SPACE] + (b + close);
    ParsePairItems(a, b, floatBits, va, vb, close, second);
    ParseGroupClosed(Paren, a + second, floatBits, [va, vb]);
  }

  lemma ParsePairItems(a: Bytes, b: Bytes, floatBits: Bytes -> U32, va: DataArray, vb: DataArray, close: Bytes, second: Bytes)
    requires a != [] && All(a, TokenChar) && TokenValue(a, floatBits) == Done([], va)
    requires b != [] && All(b, TokenChar) && TokenValue(b, floatBits) == Done([], vb)
    requires close == [CLOSE_PAREN] && second == [SPACE] + (b + close)
    ensures ParseDataArray(a + second, floatBits) == Done(close, [va, vb])
  {
    ParseLastItem(b, floatBits, vb, close);
    ParseDataArrayAfterWs([SPACE], b + close, floatBits, close, [vb]);
    ParseNodeTokenThen(a, second, floatBits, va);
    ParseDataArrayCons(a + second, floatBits, second, va, close, [vb]);
    assert [va] + [vb] == [va, vb];
  }

  /** The source's array example: `(year 2002)` reads as the symbol `year` and the integer 2002. */
  lemma ParseYear2002(text: Bytes, floatBits: Bytes -> U32)
    requires text == [0x28, 0x79, 0x65, 0x61, 0x72, 0x20, 0x32, 0x30, 0x30, 0x32, 0x29]
    ensures ParseNode(text, floatBits) == Done([], Array([Symbol(DataString([0x79, 0x65, 0x61, 0x72])), Integer(2002)]))
  {
    var year := text[1..5];
    var number := text[6..10];
    YearToken(year, floatBits);
    NumberToken(number, floatBits);
    assert text == [OPEN_PAREN] + (year + ([SPACE] + (number + [CLOSE_PAREN])));
    ParsePairArray(year, number, floatBits, Symbol(DataString(year)), Integer(2002), text);
  }

  lemma YearToken(year: Bytes, floatBits: Bytes -> U32)
    requires year == [0x79, 0x65, 0x61, 0x72]
    ensures year != [] && All(year, TokenChar)
    ensures TokenValue(year, floatBits) == Done([], Symbol(DataString(year)))
  {
    assert All(year, SymbolChar) && All(year, TokenChar) && year != KDATA_UNHANDLED;
    TokenValueSymbol(year, floatBits);
  }

  lemma NumberToken(number: Bytes, floatBits: Bytes -> U32)
    requires number == [0x32, 0x30, 0x30, 0x32]
    ensures number != [] && All(number, TokenChar)
    ensures TokenValue(number, floatBits) == Done([], Integer(2002))
  {
    assert number == DecimalText(2002);
    TokenValueInteger(2002, floatBits);
  }
}
