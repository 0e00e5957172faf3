/** Writing tokens as text, and reading them back. */
module PqlText {
  import opened Base
  import opened PqlToken
  import opened PqlLexis

  // ---- decimal numbers --------------------------------------------------------------------

  function Decimal(n: nat): (s: string)
    ensures s != "" && AllDigits(s)
  {
    var digit := ('0' as int + n % 10) as char;
    if n < 10 then [digit] else
      AllDigitsConcat(Decimal(n / 10), [digit]);
      Decimal(n / 10) + [digit]
  }

  predicate AllDigits(s: string) {
    s == "" || (IsDigit(s[0]) && AllDigits(s[1..]))
  }

  lemma {:induction false} AllDigitsConcat(s: string, t: string)
    requires AllDigits(s) && AllDigits(t)
    ensures AllDigits(s + t)
  {
    if s == "" {
      assert s + t == t;
    } else {
      AllDigitsConcat(s[1..], t);
      assert (s + t)[1..] == s[1..] + t;
    }
  }

  lemma {:induction false} DecimalReads(n: nat)
    ensures DecimalValue(Decimal(n)) == Some(n)
  {
    var s := Decimal(n);
    if n < 10 {
      assert s[..0] == "";
    } else {
      DecimalReads(n / 10);
      assert s[..|s| - 1] == Decimal(n / 10);
    }
  }

  /** The text of an `i64`. */
  function IntText(n: i64): string {
    if n < 0 then "-" + Decimal(-(n as int)) else Decimal(n)
  }

  lemma IntTextReads(n: i64)
    ensures ParseI64(IntText(n)) == Some(n)
  {
    var value: int := n;
    var m: nat := if value < 0 then -value else value;
    DecimalReads(m);
    assert IsDigit(Decimal(m)[0]);
    if n < 0 {
      assert IntText(n)[1..] == Decimal(m);
    }
  }

  /** The value, if it fits 64 bits. */
  function Fitting(value: int): Option<i64> {
    if -0x8000_0000_0000_0000 <= value < 0x8000_0000_0000_0000 then Some(value) else None
  }

  lemma UnsignedFits(s: string, n: nat)
    requires s != "" && IsDigit(s[0]) && DecimalValue(s) == Some(n)
    ensures ParseI64(s) == Fitting(n)
  {
  }

  lemma SignedFits(s: string, n: nat)
    requires s != "" && DecimalValue(s) == Some(n)
    ensures ParseI64("+" + s) == Fitting(n) && ParseI64("-" + s) == Fitting(-(n as int))
  {
    assert ("-" + s)[1..] == s && ("+" + s)[1..] == s;
  }

  /** The decimal text of a number is an integer, with either sign or none, exactly within 64 bits. */
  lemma IntegersFitExactly(n: nat, s: string)
    requires s == Decimal(n)
    ensures ParseI64(s) == Fitting(n) && ParseI64("+" + s) == Fitting(n) && ParseI64("-" + s) == Fitting(-(n as int))
  {
    DecimalReads(n);
    assert IsDigit(s[0]);
    UnsignedFits(s, n);
    SignedFits(s, n);
  }

  lemma {:induction false} DecimalIsDigits(s: string)
    ensures DecimalValue(s).Some? <==> AllDigits(s)
  {
    if s != "" {
      var front, last := s[..|s| - 1], s[|s| - 1];
      DecimalIsDigits(front);
      assert s == front + [last];
      DigitsSnoc(front, last);
    }
  }

  lemma {:induction false} DigitsSnoc(s: string, c: char)
    ensures AllDigits(s + [c]) <==> AllDigits(s) && IsDigit(c)
  {
    if s == "" {
      assert s + [c] == [c] && [c][1..] == "";
    } else {
      assert (s + [c])[1..] == s[1..] + [c];
      DigitsSnoc(s[1..], c);
    }
  }

  lemma {:induction false} LeadingZero(s: string)
    ensures DecimalValue("0" + s) == DecimalValue(s)
  {
    var zs := "0" + s;
    if s == "" {
      assert zs == "0" && zs[..0] == "";
    } else {
      LeadingZero(s[..|s| - 1]);
      assert zs[..|zs| - 1] == "0" + s[..|s| - 1];
    }
  }

  /** An integer is digits after its sign, at least one. */
  lemma IntegersAreDigits(raw: string)
    requires ParseI64(raw).Some?
    ensures var digits := if raw[0] == '-' || raw[0] == '+' then raw[1..] else raw;
            digits != "" && AllDigits(digits)
  {
    DecimalIsDigits(if raw[0] == '-' || raw[0] == '+' then raw[1..] else raw);
  }

  /** A zero before the digits of an integer changes nothing. */
  lemma LeadingZerosAreIgnored(digits: string, zs: string)
    requires digits != "" && AllDigits(digits) && zs == "0" + digits
    ensures ParseI64(zs) == ParseI64(digits) && ParseI64("-" + zs) == ParseI64("-" + digits)
  {
    LeadingZero(digits);
    DecimalIsDigits(digits);
    var n := DecimalValue(digits).value;
    UnsignedFits(digits, n);
    UnsignedFits(zs, n);
    SignedFits(digits, n);
    SignedFits(zs, n);
  }

  // ---- floats -----------------------------------------------------------------------------

  /** Digits, then perhaps a point and digits, then perhaps an exponent; a digit before the exponent at least. */
  predicate IsFloat(sign: string, whole: string, point: string, exponent: string) {
    && (sign == "" || sign == "-") && AllDigits(whole)
    && (point == "" || (point[0] == '.' && AllDigits(point[1..])))
    && (whole != "" || |point| > 1)
    && (exponent == "" || IsExponent(exponent))
  }

  predicate IsExponent(s: string)
    requires s != ""
  {
    && (s[0..1] == "e" || s[0..1] == "E")
    && (if |s| > 1 && (s[1] == '+' || s[1] == '-') then s[2..] != "" && AllDigits(s[2..])
        else s[1..] != "" && AllDigits(s[1..]))
  }

  /** `s` does not start with a digit. */
  predicate NoDigitFirst(s: string) {
    s == "" || !IsDigit(s[0])
  }

  lemma {:induction false} DigitsSkipped(digits: string, rest: string)
    requires AllDigits(digits) && NoDigitFirst(rest)
    ensures SkipDigits(digits + rest) == rest
  {
    if digits == "" {
      assert digits + rest == rest;
    } else {
      DigitsSkipped(digits[1..], rest);
      assert (digits + rest)[1..] == digits[1..] + rest;
    }
  }

  lemma {:induction false} SkippedAreDigits(s: string) returns (digits: string)
    ensures AllDigits(digits) && s == digits + SkipDigits(s) && NoDigitFirst(SkipDigits(s))
  {
    if s != "" && IsDigit(s[0]) {
      var more := SkippedAreDigits(s[1..]);
      digits := [s[0]] + more;
      ConsConcat(s[0], more, SkipDigits(s[1..]));
      assert digits[1..] == more && s == [s[0]] + s[1..];
    } else {
      digits := "";
      assert "" + s == s;
    }
  }

  lemma ConsConcat<T>(x: T, xs: seq<T>, ys: seq<T>)
    ensures [x] + (xs + ys) == ([x] + xs) + ys
  {
  }

  lemma ExponentIs(s: string)
    requires s != ""
    ensures ExponentSyntax(s) <==> IsExponent(s)
  {
    var e := if |s| > 1 && (s[1] == '-' || s[1] == '+') then s[2..] else s[1..];
    var digits := SkippedAreDigits(e);
    if SkipDigits(e) == "" {
      assert digits + "" == digits;
    }
    if AllDigits(e) {
      DigitsSkipped(e, "");
      assert e + "" == e;
    }
  }

  /** A text put together like a float is one. */
  lemma FloatsAreAccepted(sign: string, whole: string, point: string, exponent: string)
    requires IsFloat(sign, whole, point, exponent)
    ensures FloatSyntax(sign + (whole + (point + exponent)))
  {
    var s := whole + (point + exponent);
    assert sign == "-" ==> (sign + s)[1..] == s;
    assert sign == "" ==> sign + s == s;
    assert s != "" && s[0] != '-';
    assert NoDigitFirst(point + exponent);
    DigitsSkipped(whole, point + exponent);
    if point == "" {
      assert point + exponent == exponent;
    } else {
      assert (point + exponent)[1..] == point[1..] + exponent;
      DigitsSkipped(point[1..], exponent);
    }
    if exponent != "" {
      ExponentIs(exponent);
    }
  }

  /** And a text that is one is put together so. */
  lemma AcceptedAreFloats(raw: string) returns (sign: string, whole: string, point: string, exponent: string)
    requires FloatSyntax(raw)
    ensures raw == sign + (whole + (point + exponent)) && IsFloat(sign, whole, point, exponent)
  {
    sign := if raw != "" && raw[0] == '-' then "-" else "";
    var s := if raw != "" && raw[0] == '-' then raw[1..] else raw;
    whole := SkippedAreDigits(s);
    var rest := SkipDigits(s);
    if rest != "" && rest[0] == '.' {
      var digits := SkippedAreDigits(rest[1..]);
      point, exponent := "." + digits, SkipDigits(rest[1..]);
      assert point[1..] == digits && rest == point + exponent;
    } else {
      point, exponent := "", rest;
      assert point + exponent == rest;
    }
    if exponent != "" {
      ExponentIs(exponent);
    }
  }

  // ---- strings ----------------------------------------------------------------------------

  /** `s` with quotes, backslashes, newlines and tabs escaped, followed by `rest`. */
  function Escape(s: string, rest: string): string {
    if s == "" then rest
    else
      var c, tail := s[0], Escape(s[1..], rest);
      if c == '\'' then ['\\', '\''] + tail
      else if c == '\\' then ['\\', '\\'] + tail
      else if c == '\n' then ['\\', 'n'] + tail
      else if c == '\t' then ['\\', 't'] + tail
      else [c] + tail
  }

  lemma {:induction false} EscapedReads(s: string, rest: string)
    ensures ReadString(Escape(s, ['\''] + rest)) == Ok((s, rest))
  {
    if s == "" {
      assert (['\''] + rest)[1..] == rest;
    } else {
      var text, tail := Escape(s, ['\''] + rest), Escape(s[1..], ['\''] + rest);
      EscapedReads(s[1..], rest);
      assert s == [s[0]] + s[1..];
      if text[0] == '\\' {
        assert text[2..] == tail;
      } else {
        assert text[1..] == tail;
      }
    }
  }

  /** A backslash before any other character stands for itself, and the character follows. */
  lemma OtherEscapesStay(c: char, rest: string)
    requires c !in {'\'', '\\', 'n', 't'}
    ensures ReadString(['\\', c] + rest) ==
            match ReadString(rest) {
              case Ok((text, after)) => Ok((['\\', c] + text, after))
              case Err(e) => Err(e)
            }
  {
    assert (['\\', c] + rest)[2..] == rest;
  }

  // ---- words and numbers ------------------------------------------------------------------

  predicate AllIdentChars(s: string) {
    s == "" || (IsIdentChar(s[0]) && AllIdentChars(s[1..]))
  }

  predicate AllNumberChars(s: string) {
    s == "" || (IsNumberChar(s[0]) && AllNumberChars(s[1..]))
  }

  /** A letter, a digit, an underscore or a slash. */
  predicate ContinuesWord(c: char) {
    'a' <= c <= 'z' || 'A' <= c <= 'Z' || '0' <= c <= '9' || c == '_' || c == '/'
  }

  /** A digit, a point, a sign or the mark of an exponent. */
  predicate ContinuesNumber(c: char) {
    '0' <= c <= '9' || c == '.' || c == '-' || c == '+' || c == 'e' || c == 'E'
  }

  /** Whatever word stands before `rest` ends there. */
  predicate EndsWord(rest: string) {
    rest == "" || !ContinuesWord(rest[0])
  }

  predicate EndsNumber(rest: string) {
    rest == "" || !ContinuesNumber(rest[0])
  }

  /** A word ends exactly before a character other than a letter, a digit, an underscore or a slash. */
  lemma {:induction false} WordReads(w: string, rest: string)
    requires AllIdentChars(w)
    ensures ReadIdent(w + rest) == (w, rest) <==> EndsWord(rest)
  {
    if w == "" {
      assert w + rest == rest;
    } else {
      WordReads(w[1..], rest);
      assert (w + rest)[1..] == w[1..] + rest && w == [w[0]] + w[1..];
      assert ([w[0]] + ReadIdent(w[1..] + rest).0)[1..] == ReadIdent(w[1..] + rest).0;
    }
  }

  /** A number ends exactly before a character that no number has. */
  lemma {:induction false} DigitsRead(w: string, rest: string)
    requires AllNumberChars(w)
    ensures ReadDigits(w + rest) == (w, rest) <==> EndsNumber(rest)
  {
    if w == "" {
      assert w + rest == rest;
    } else {
      DigitsRead(w[1..], rest);
      assert (w + rest)[1..] == w[1..] + rest && w == [w[0]] + w[1..];
      assert ([w[0]] + ReadDigits(w[1..] + rest).0)[1..] == ReadDigits(w[1..] + rest).0;
    }
  }

  predicate IsWord(w: string) {
    w != "" && IsIdentStart(w[0]) && AllIdentChars(w)
  }

  /** Capital letters only. */
  predicate AllUpper(w: string) {
    forall i :: 0 <= i < |w| ==> 'A' <= w[i] <= 'Z'
  }

  /** The same letters, each a capital or not. */
  predicate SameLetters(w: string, upper: string) {
    |w| == |upper| && forall i :: 0 <= i < |w| ==> w[i] == upper[i] || w[i] as int == upper[i] as int + 32
  }

  lemma {:induction false} SameLettersUpper(w: string, upper: string)
    requires AllUpper(upper) && SameLetters(w, upper)
    ensures AllIdentChars(w) && Upper(w) == upper
    ensures w != "" ==> IsWord(w)
  {
    if w != "" {
      assert upper == [upper[0]] + upper[1..];
      SameLettersUpper(w[1..], upper[1..]);
    }
  }

  /** A name the lexer reads as an identifier. */
  predicate IsName(w: string) {
    IsWord(w) && Keyword(w).None?
  }

  /** The text of a number: a digit, or a minus sign and a digit, then number characters. */
  predicate IsNumberText(w: string) {
    w != "" && AllNumberChars(w[1..]) && (IsDigit(w[0]) || (w[0] == '-' && |w| > 1 && IsDigit(w[1])))
  }

  // ---- tokens -----------------------------------------------------------------------------

  /** The token has a text that stands for it. */
  predicate Writable(t: Token) {
    match t
    case Ident(name) => IsName(name)
    case Float(text) => IsNumberText(text) && LooksFloat(text) && FloatSyntax(text)
    case Eof => false
    case _ => true
  }

  function KeywordText(t: Token): string {
    match t
    case Select => "SELECT"
    case From => "FROM"
    case Where => "WHERE"
    case And => "AND"
    case Or => "OR"
    case Not => "NOT"
    case By => "BY"
    case Asc => "ASC"
    case Desc => "DESC"
    case Limit => "LIMIT"
    case Offset => "OFFSET"
    case Like => "LIKE"
    case In => "IN"
    case Is => "IS"
    case Null => "NULL"
    case True => "TRUE"
    case False => "FALSE"
    case _ => ""
  }

  function SymbolText(t: Token): string {
    match t
    case Eq => "="
    case Ne => "!="
    case Lt => "<"
    case Le => "<="
    case Gt => ">"
    case Ge => ">="
    case Star => "*"
    case Comma => ","
    case Dot => "."
    case LParen => "("
    case RParen => ")"
    case _ => ""
  }

  /** The two words of a keyword of two words. */
  function TwoWords(t: Token): (string, string) {
    match t
    case EffectiveAt => ("EFFECTIVE", "AT")
    case AsOf => ("AS", "OF")
    case Order => ("ORDER", "BY")
    case _ => ("", "")
  }

  lemma KeywordIsUpper(t: Token)
    ensures AllUpper(KeywordText(t))
  {
  }

  lemma TwoWordsAreUpper(t: Token)
    ensures AllUpper(TwoWords(t).0) && AllUpper(TwoWords(t).1)
    ensures TwoWords(t).0 == "" <==> TwoWords(t).1 == ""
  {
  }

  /** How a token is laid out: its keyword's casing, the space inside a keyword of two words, and what follows. */
  datatype Layout = Layout(word: string, space: string, second: string, gap: string)

  predicate AllSpace(s: string) {
    forall c | c in s :: c == ' ' || c == '\t' || c == '\n' || c == '\r'
  }

  /** The layout spells the token's keyword, if it is one, in some casing. */
  predicate Spells(t: Token, l: Layout) {
    if TwoWords(t).0 != "" then
      && SameLetters(l.word, TwoWords(t).0) && SameLetters(l.second, TwoWords(t).1)
      && l.space != "" && AllSpace(l.space)
    else SameLetters(l.word, KeywordText(t))
  }

  /** The text of a token followed by `rest`. */
  function Write(t: Token, l: Layout, rest: string): string
    requires Writable(t)
  {
    if t.Ident? then t.name + rest
    else if t.Str? then ['\''] + Escape(t.s, ['\''] + rest)
    else if t.Int? then IntText(t.n) + rest
    else if t.Float? then t.text + rest
    else if TwoWords(t).0 != "" then l.word + (l.space + (l.second + rest))
    else if KeywordText(t) != "" then l.word + rest
    else SymbolText(t) + rest
  }

  /**
   * The token's text ends before `rest`: a word before what is not part of words, a number before what is not part
   * of numbers, `<` and `>` before what is not `=`, everything else anywhere.
   */
  predicate Ends(t: Token, rest: string) {
    if t.Int? || t.Float? then EndsNumber(rest)
    else if t.Lt? || t.Gt? then rest == "" || rest[0] != '='
    else t.Str? || SymbolText(t) != "" || EndsWord(rest)
  }

  /** A token has at most one way to be written. */
  lemma Kinds(t: Token)
    ensures TwoWords(t).0 != "" ==> KeywordText(t) == "" && SymbolText(t) == "" && !t.Str?
    ensures KeywordText(t) != "" ==> SymbolText(t) == "" && !t.Str?
    ensures t.Ident? || t.Str? || t.Int? || t.Float? || t.Eof?
            || TwoWords(t).0 != "" || KeywordText(t) != "" || SymbolText(t) != ""
    ensures t.Ident? || t.Int? || t.Float? ==> TwoWords(t).0 == "" && KeywordText(t) == "" && SymbolText(t) == ""
  {
  }

  lemma SpaceSkipped(s: string)
    requires s != "" && !IsSpace(s[0])
    ensures SkipSpace(s) == s
  {
  }

  /** A word is read whole, whatever it then means, exactly if it ends before `rest`. */
  lemma WordTokenReads(w: string, rest: string)
    requires IsWord(w)
    ensures EndsWord(rest) ==> NextToken(w + rest) == Ok(WordToken(w, rest))
    ensures !EndsWord(rest) ==> NextToken(w + rest).Ok? && |NextToken(w + rest).value.1| < |rest|
  {
    var after := w[1..] + rest;
    assert (w + rest)[0] == w[0] && (w + rest)[1..] == after && w == [w[0]] + w[1..];
    SpaceSkipped(w + rest);
    WordReads(w[1..], rest);
    if !EndsWord(rest) {
      ReadsOn(w[1..], rest);
    }
  }

  /** A word that does not end before `rest` takes some of it. */
  lemma {:induction false} ReadsOn(w: string, rest: string)
    requires AllIdentChars(w) && !EndsWord(rest)
    ensures |ReadIdent(w + rest).1| < |rest|
  {
    if w == "" {
      assert w + rest == rest;
    } else {
      ReadsOn(w[1..], rest);
      assert (w + rest)[1..] == w[1..] + rest;
    }
  }

  lemma {:induction false} DigitsReadOn(w: string, rest: string)
    requires AllNumberChars(w) && !EndsNumber(rest)
    ensures |ReadDigits(w + rest).1| < |rest|
  {
    if w == "" {
      assert w + rest == rest;
    } else {
      DigitsReadOn(w[1..], rest);
      assert (w + rest)[1..] == w[1..] + rest;
    }
  }

  lemma NumberTokenReads(w: string, rest: string)
    requires IsNumberText(w) && NumberToken(w).Ok?
    ensures NextToken(w + rest) == Ok((NumberToken(w).value, rest)) <==> EndsNumber(rest)
  {
    NumberFrom(w, rest);
    DigitsRead(w[1..], rest);
    if !EndsNumber(rest) {
      DigitsReadOn(w[1..], rest);
    }
  }

  /** Where a number starts, its digits are read and made a token. */
  lemma NumberFrom(w: string, rest: string)
    requires IsNumberText(w)
    ensures var (digits, after) := ReadDigits(w[1..] + rest);
            && (NumberToken([w[0]] + digits).Ok? ==>
                  NextToken(w + rest) == Ok((NumberToken([w[0]] + digits).value, after)))
            && (NumberToken([w[0]] + digits).Err? ==> NextToken(w + rest).Err?)
            && [w[0]] + w[1..] == w
  {
    assert !IsSpace(w[0]);
    FirstCharacter(w, rest);
    assert |w| > 1 ==> (w[1..] + rest)[0] == w[1];
  }

  lemma {:induction false} DigitsAreNumberChars(s: string)
    requires AllDigits(s)
    ensures AllNumberChars(s) && !LooksFloat(s)
  {
    if s != "" {
      DigitsAreNumberChars(s[1..]);
    }
  }

  lemma IntReads(n: i64, rest: string)
    ensures NextToken(IntText(n) + rest) == Ok((Token.Int(n), rest)) <==> EndsNumber(rest)
  {
    var w := IntText(n);
    var digits := if n < 0 then w[1..] else w;
    assert AllDigits(digits) && digits != "";
    DigitsAreNumberChars(digits);
    assert n >= 0 ==> AllNumberChars(w[1..]);
    IntTextReads(n);
    NumberTokenReads(w, rest);
  }

  lemma {:induction false} GapSkipped(gap: string, rest: string)
    requires AllSpace(gap)
    ensures SkipSpace(gap + rest) == SkipSpace(rest)
  {
    if gap == "" {
      assert gap + rest == rest;
    } else {
      assert (gap + rest)[1..] == gap[1..] + rest && gap[0] in gap;
      assert forall c | c in gap[1..] :: c in gap;
      GapSkipped(gap[1..], rest);
    }
  }

  /** The second word of a two-word keyword is skipped with the space before it, exactly if it ends before `rest`. */
  lemma SecondWordSkipped(space: string, w: string, word: string, rest: string)
    requires IsWord(w) && Upper(w) == word && AllSpace(space)
    ensures SkipKeyword(word, SkipSpace(space + (w + rest))) == rest <==> EndsWord(rest)
  {
    assert (w + rest)[0] == w[0];
    GapSkipped(space, w + rest);
    SpaceSkipped(w + rest);
    WordReads(w, rest);
    if !EndsWord(rest) {
      ReadsOn(w, rest);
    }
  }

  lemma TwoWordReads(t: Token, l: Layout, rest: string)
    requires TwoWords(t).0 != "" && Spells(t, l)
    ensures NextToken(l.word + (l.space + (l.second + rest))) == Ok((t, rest)) <==> EndsWord(rest)
  {
    TwoWordsAreUpper(t);
    SameLettersUpper(l.word, TwoWords(t).0);
    SameLettersUpper(l.second, TwoWords(t).1);
    SpaceEndsWord(l.space, l.second + rest);
    WordTokenReads(l.word, l.space + (l.second + rest));
    TwoWordToken(t, l.word, l.space + (l.second + rest));
    SecondWordSkipped(l.space, l.second, TwoWords(t).1, rest);
  }

  lemma SpaceEndsWord(space: string, rest: string)
    requires space != "" && AllSpace(space)
    ensures EndsWord(space + rest)
  {
    assert space[0] in space && (space + rest)[0] == space[0];
  }

  lemma TwoWordToken(t: Token, w: string, rest: string)
    requires TwoWords(t).0 != "" && Upper(w) == TwoWords(t).0
    ensures WordToken(w, rest) == (t, SkipKeyword(TwoWords(t).1, SkipSpace(rest)))
  {
  }

  /** Keywords are read in any casing. */
  lemma KeywordReads(t: Token, w: string, rest: string)
    requires KeywordText(t) != "" && SameLetters(w, KeywordText(t))
    ensures NextToken(w + rest) == Ok((t, rest)) <==> EndsWord(rest)
  {
    KeywordIsUpper(t);
    SameLettersUpper(w, KeywordText(t));
    SameLettersUpper(KeywordText(t), KeywordText(t));
    KeywordOfText(t);
    NotTwoWords(t);
    SameUpper(w, KeywordText(t));
    WordTokenReads(w, rest);
  }

  /** The casing of a word does not matter to what it is. */
  lemma SameUpper(w: string, v: string)
    requires Upper(w) == Upper(v)
    ensures Keyword(w) == Keyword(v)
  {
  }

  /** No keyword of one word starts one of two. */
  lemma NotTwoWords(t: Token)
    ensures KeywordText(t) !in {"EFFECTIVE", "AS", "ORDER"}
  {
  }

  lemma KeywordOfText(t: Token)
    requires KeywordText(t) != ""
    ensures Upper(KeywordText(t)) == KeywordText(t) ==> Keyword(KeywordText(t)) == Some(t)
  {
  }

  lemma FirstCharacter(w: string, rest: string)
    requires w != "" && !IsSpace(w[0])
    ensures NextToken(w + rest) == TokenAt(w[0], w[1..] + rest)
  {
    assert (w + rest)[0] == w[0] && (w + rest)[1..] == w[1..] + rest;
    SpaceSkipped(w + rest);
  }

  lemma SymbolReads(t: Token, rest: string)
    requires SymbolText(t) != ""
    ensures NextToken(SymbolText(t) + rest) == Ok((t, rest)) <==> Ends(t, rest)
  {
    FirstCharacter(SymbolText(t), rest);
    if |SymbolText(t)| == 1 {
      ShortSymbol(t, rest);
    } else {
      LongSymbol(t, rest);
    }
  }

  lemma ShortSymbol(t: Token, rest: string)
    requires |SymbolText(t)| == 1
    ensures TokenAt(SymbolText(t)[0], SymbolText(t)[1..] + rest) == Ok((t, rest)) <==> Ends(t, rest)
  {
    assert SymbolText(t)[1..] + rest == rest;
  }

  lemma LongSymbol(t: Token, rest: string)
    requires |SymbolText(t)| > 1
    ensures TokenAt(SymbolText(t)[0], SymbolText(t)[1..] + rest) == Ok((t, rest))
  {
    var w := SymbolText(t);
    assert |w| == 2 && w[1] == '=' && (w[1..] + rest)[0] == '=' && (w[1..] + rest)[1..] == rest;
  }

  lemma NameIsIdent(name: string, rest: string)
    requires IsName(name)
    ensures WordToken(name, rest) == (Ident(name), rest)
  {
  }

  lemma NameReads(name: string, rest: string)
    requires IsName(name)
    ensures NextToken(name + rest) == Ok((Ident(name), rest)) <==> EndsWord(rest)
  {
    NameIsIdent(name, rest);
    WordTokenReads(name, rest);
  }

  lemma StringReads(s: string, rest: string)
    ensures NextToken(['\''] + Escape(s, ['\''] + rest)) == Ok((Token.Str(s), rest))
  {
    EscapedReads(s, rest);
    assert (['\''] + Escape(s, ['\''] + rest))[1..] == Escape(s, ['\''] + rest);
  }

  /** A written token is read back, with nothing after it touched, exactly if it ends before what follows. */
  lemma WrittenTokenReads(t: Token, l: Layout, rest: string)
    requires Writable(t) && Spells(t, l)
    ensures NextToken(Write(t, l, rest)) == Ok((t, rest)) <==> Ends(t, rest)
  {
    if t.Ident? {
      NameReads(t.name, rest);
    } else if t.Str? {
      StringReads(t.s, rest);
    } else if t.Int? {
      IntReads(t.n, rest);
    } else if t.Float? {
      NumberTokenReads(t.text, rest);
    } else {
      WordOrSymbolReads(t, l, rest);
    }
  }

  lemma WordOrSymbolReads(t: Token, l: Layout, rest: string)
    requires Writable(t) && Spells(t, l) && !t.Ident? && !t.Int? && !t.Float? && !t.Str?
    ensures NextToken(Write(t, l, rest)) == Ok((t, rest)) <==> Ends(t, rest)
  {
    Kinds(t);
    if TwoWords(t).0 != "" {
      TwoWordReads(t, l, rest);
    } else if KeywordText(t) != "" {
      KeywordReads(t, l.word, rest);
    } else {
      SymbolReads(t, rest);
    }
  }

  // ---- token lists ------------------------------------------------------------------------

  /** The tokens' texts, each followed by its gap. */
  function WriteAll(ts: seq<Token>, ls: seq<Layout>): string
    requires |ls| == |ts| && (forall t | t in ts :: Writable(t))
  {
    if ts == [] then "" else Write(ts[0], ls[0], ls[0].gap + WriteAll(ts[1..], ls[1..]))
  }

  /** The first character of a token's text. */
  function FirstOf(t: Token, l: Layout): char
    requires Writable(t) && Spells(t, l)
  {
    if t.Ident? then t.name[0]
    else if t.Str? then '\''
    else if t.Int? then IntText(t.n)[0]
    else if t.Float? then t.text[0]
    else if SymbolText(t) != "" then SymbolText(t)[0]
    else l.word[0]
  }

  /** Every token is spelled and spaced, and where two touch, the first ends before the second. */
  predicate LaidOut(ts: seq<Token>, ls: seq<Layout>)
    requires forall t | t in ts :: Writable(t)
  {
    && |ls| == |ts|
    && (forall i :: 0 <= i < |ts| ==> Spells(ts[i], ls[i]) && AllSpace(ls[i].gap))
    && (forall i :: 0 <= i < |ts| - 1 && ls[i].gap == "" ==> Ends(ts[i], [FirstOf(ts[i + 1], ls[i + 1])]))
  }

  /** Strings, punctuation and operators. */
  predicate Standing(t: Token) {
    t.Str? || SymbolText(t) != ""
  }

  /** A string, a punctuation mark or an operator may touch its neighbours, but `<`, `>` before `=` and a point. */
  lemma StandingTouches(t: Token, u: Token, l: Layout)
    requires Writable(u) && Spells(u, l) && (Standing(t) || Standing(u)) && !u.Eq? && !u.Dot?
    ensures Ends(t, [FirstOf(u, l)])
  {
    if Standing(u) {
      StandingFirst(u, l);
    } else {
      WordFirst(u, l);
    }
    TouchedBy(t, FirstOf(u, l));
  }

  lemma StandingFirst(u: Token, l: Layout)
    requires Writable(u) && Spells(u, l) && Standing(u) && !u.Eq? && !u.Dot?
    ensures FirstOf(u, l) in {'\'', '!', '<', '>', '*', ',', '(', ')'}
  {
  }

  lemma WordFirst(u: Token, l: Layout)
    requires Writable(u) && Spells(u, l) && !Standing(u)
    ensures FirstOf(u, l) != '='
  {
    KeywordIsUpper(u);
    TwoWordsAreUpper(u);
    Kinds(u);
    if KeywordText(u) != "" {
      FirstIsLetter(l.word, KeywordText(u));
    } else if TwoWords(u).0 != "" {
      FirstIsLetter(l.word, TwoWords(u).0);
    }
  }

  lemma FirstIsLetter(w: string, upper: string)
    requires upper != "" && AllUpper(upper) && SameLetters(w, upper)
    ensures w[0] != '='
  {
  }

  lemma TouchedBy(t: Token, c: char)
    requires c in {'\'', '!', '<', '>', '*', ',', '(', ')'} || (Standing(t) && c != '=')
    ensures Ends(t, [c])
  {
  }

  lemma FirstOfConcat(w: string, rest: string)
    requires w != ""
    ensures w + rest != "" && (w + rest)[0] == w[0]
  {
  }

  lemma FirstWritten(t: Token, l: Layout, rest: string)
    requires Writable(t) && Spells(t, l)
    ensures Write(t, l, rest) != "" && Write(t, l, rest)[0] == FirstOf(t, l)
  {
    if t.Ident? {
      FirstOfConcat(t.name, rest);
    } else if t.Int? {
      FirstOfConcat(IntText(t.n), rest);
    } else if t.Float? {
      FirstOfConcat(t.text, rest);
    } else if !t.Str? {
      FirstOfWord(t, l, rest);
    }
  }

  lemma FirstOfWord(t: Token, l: Layout, rest: string)
    requires Writable(t) && Spells(t, l) && !t.Ident? && !t.Int? && !t.Float? && !t.Str?
    ensures Write(t, l, rest) != "" && Write(t, l, rest)[0] == FirstOf(t, l)
  {
    Kinds(t);
    if SymbolText(t) != "" {
      FirstOfConcat(SymbolText(t), rest);
    } else if TwoWords(t).0 != "" {
      FirstOfConcat(l.word, l.space + (l.second + rest));
    } else {
      FirstOfConcat(l.word, rest);
    }
  }

  lemma EndsBefore(t: Token, rest: string)
    requires rest != "" && Ends(t, [rest[0]])
    ensures Ends(t, rest)
  {
  }

  lemma SpaceEnds(t: Token, rest: string)
    requires rest != "" && AllSpace([rest[0]])
    ensures Ends(t, rest)
  {
    assert rest[0] in [rest[0]];
  }

  /** The first of the tokens ends where its gap and the others begin. */
  lemma FirstEnds(ts: seq<Token>, ls: seq<Layout>)
    requires ts != [] && (forall t | t in ts :: Writable(t)) && LaidOut(ts, ls)
    ensures Ends(ts[0], ls[0].gap + WriteAll(ts[1..], ls[1..]))
  {
    var gap, tail := ls[0].gap, WriteAll(ts[1..], ls[1..]);
    if gap != "" {
      assert gap[0] in gap && (gap + tail)[0] == gap[0];
      SpaceEnds(ts[0], gap + tail);
    } else {
      assert gap + tail == tail;
      if |ts| > 1 {
        assert ts[1..][0] == ts[1] && ls[1..][0] == ls[1] && ts[1] in ts;
        FirstWritten(ts[1], ls[1], ls[1].gap + WriteAll(ts[1..][1..], ls[1..][1..]));
        EndsBefore(ts[0], tail);
      }
    }
  }

  lemma TokenizeAfterGap(gap: string, rest: string)
    requires AllSpace(gap)
    ensures Tokenize(gap + rest) == Tokenize(rest)
  {
    GapSkipped(gap, rest);
    assert NextToken(gap + rest) == NextToken(rest);
  }

  lemma OneMoreRead(t: Token, l: Layout, tail: string, more: seq<Token>)
    requires Writable(t) && Spells(t, l) && AllSpace(l.gap) && Ends(t, l.gap + tail) && Tokenize(tail) == Ok(more)
    ensures Tokenize(Write(t, l, l.gap + tail)) == Ok([t] + more)
  {
    WrittenTokenReads(t, l, l.gap + tail);
    TokenizeAfterGap(l.gap, tail);
    FirstToken(t, Write(t, l, l.gap + tail), l.gap + tail, more);
  }

  lemma FirstToken(t: Token, text: string, rest: string, more: seq<Token>)
    requires NextToken(text) == Ok((t, rest)) && t != Eof && Tokenize(rest) == Ok(more)
    ensures Tokenize(text) == Ok([t] + more)
  {
  }

  lemma LaidOutRest(ts: seq<Token>, ls: seq<Layout>)
    requires ts != [] && (forall t | t in ts :: Writable(t)) && LaidOut(ts, ls)
    ensures (forall t | t in ts[1..] :: Writable(t)) && LaidOut(ts[1..], ls[1..])
  {
    forall t | t in ts[1..] ensures Writable(t) {
      assert t in ts;
    }
    forall i | 0 <= i < |ts[1..]| - 1 && ls[1..][i].gap == ""
      ensures Ends(ts[1..][i], [FirstOf(ts[1..][i + 1], ls[1..][i + 1])])
    {
      assert ts[1..][i] == ts[i + 1] && ts[1..][i + 1] == ts[i + 2] && ls[1..][i] == ls[i + 1]
        && ls[1..][i + 1] == ls[i + 2];
    }
  }

  lemma WrittenTokensStep(ts: seq<Token>, ls: seq<Layout>)
    requires ts != [] && (forall t | t in ts :: Writable(t)) && LaidOut(ts, ls)
    requires (forall t | t in ts[1..] :: Writable(t)) && Tokenize(WriteAll(ts[1..], ls[1..])) == Ok(ts[1..] + [Eof])
    ensures Tokenize(WriteAll(ts, ls)) == Ok([ts[0]] + (ts[1..] + [Eof]))
  {
    FirstEnds(ts, ls);
    assert ts[0] in ts;
    OneMoreRead(ts[0], ls[0], WriteAll(ts[1..], ls[1..]), ts[1..] + [Eof]);
  }

  lemma Uncons<T>(x: T, xs: seq<T>, last: T)
    requires xs != [] && x == xs[0]
    ensures [x] + (xs[1..] + [last]) == xs + [last]
  {
  }

  /** Lexing laid out tokens gives the tokens and one end marker, whatever their spacing and casing. */
  lemma {:induction false} WrittenTokensRead(ts: seq<Token>, ls: seq<Layout>)
    requires (forall t | t in ts :: Writable(t)) && LaidOut(ts, ls)
    ensures Tokenize(WriteAll(ts, ls)) == Ok(ts + [Eof])
    decreases |ts|
  {
    if ts == [] {
      assert ts + [Eof] == [Eof];
    } else {
      LaidOutRest(ts, ls);
      WrittenTokensRead(ts[1..], ls[1..]);
      WrittenTokensStep(ts, ls);
      Uncons(ts[0], ts, Eof);
    }
  }

  // ---- what is no token --------------------------------------------------------------------

  /** A character that starts no token, given what follows it. */
  predicate StartsNothing(c: char, rest: string) {
    && !('a' <= c <= 'z' || 'A' <= c <= 'Z' || c == '_' || '0' <= c <= '9' || c == '\'')
    && c !in {'*', ',', '.', '(', ')', '=', '<', '>'}
    && !(c == '!' && rest != "" && rest[0] == '=')
    && !(c == '-' && rest != "" && '0' <= rest[0] <= '9')
  }

  /** A string literal that is not closed is the only fault a string can have. */
  lemma {:induction false} StringFaults(s: string)
    ensures ReadString(s).Err? ==> ReadString(s).error in {UnterminatedString, UnexpectedEndOfEscape}
    decreases |s|
  {
    if s != "" && s[0] == '\\' && |s| > 1 {
      StringFaults(s[2..]);
    } else if s != "" && s[0] != '\'' {
      StringFaults(s[1..]);
    }
  }

  /** A character is refused exactly if no token starts with it. */
  lemma OtherCharactersAreRefused(c: char, rest: string)
    requires c !in {' ', '\t', '\n', '\r'}
    ensures NextToken([c] + rest) == Err(UnexpectedCharacter(c)) <==> StartsNothing(c, rest)
  {
    assert ([c] + rest)[1..] == rest;
    SpaceSkipped([c] + rest);
    StringFaults(rest);
  }
}
