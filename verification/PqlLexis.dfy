/** What the lexer computes, as functions from the remaining text to a token and the text after it. */
module PqlLexis {
  import opened Base
  import opened PqlToken

  datatype LexError =
    | UnterminatedString
    | UnexpectedEndOfEscape
    | InvalidFloat(raw: string)
    | InvalidInteger(raw: string)
    | UnexpectedCharacter(c: char)

  type Lexed<T> = Result<(T, string), LexError>

  predicate IsSpace(c: char) {
    c == ' ' || c == '\t' || c == '\n' || c == '\r'
  }

  predicate IsDigit(c: char) {
    '0' <= c <= '9'
  }

  predicate IsIdentStart(c: char) {
    'a' <= c <= 'z' || 'A' <= c <= 'Z' || c == '_'
  }

  predicate IsIdentChar(c: char) {
    IsIdentStart(c) || IsDigit(c) || c == '/'
  }

  predicate IsNumberChar(c: char) {
    IsDigit(c) || c == '.' || c == 'e' || c == 'E' || c == '-' || c == '+'
  }

  function SkipSpace(s: string): (r: string)
    ensures |r| <= |s|
    ensures r != "" ==> !IsSpace(r[0])
  {
    if s != "" && IsSpace(s[0]) then SkipSpace(s[1..]) else s
  }

  /** The longest run of identifier characters, and the text after it. */
  function ReadIdent(s: string): (r: (string, string))
    ensures r.0 + r.1 == s
  {
    if s == "" || !IsIdentChar(s[0]) then ("", s)
    else
      var (word, rest) := ReadIdent(s[1..]);
      ([s[0]] + word, rest)
  }

  /** The longest run of number characters, and the text after it. */
  function ReadDigits(s: string): (r: (string, string))
    ensures r.0 + r.1 == s
  {
    if s == "" || !IsNumberChar(s[0]) then ("", s)
    else
      var (word, rest) := ReadDigits(s[1..]);
      ([s[0]] + word, rest)
  }

  /** The character an escape stands for; an unknown escape stands for itself, backslash included. */
  function Unescape(c: char): string {
    if c == '\'' then "'"
    else if c == '\\' then "\\"
    else if c == 'n' then "\n"
    else if c == 't' then "\t"
    else ['\\', c]
  }

  /** A string literal after its opening quote. */
  function ReadString(s: string): (r: Lexed<string>)
    ensures r.Ok? ==> |r.value.1| < |s|
    decreases |s|
  {
    if s == "" then Err(UnterminatedString)
    else if s[0] == '\'' then Ok(("", s[1..]))
    else if s[0] == '\\' then
      if |s| == 1 then Err(UnexpectedEndOfEscape)
      else
        var (text, rest) :- ReadString(s[2..]);
        Ok((Unescape(s[1]) + text, rest))
    else
      var (text, rest) :- ReadString(s[1..]);
      Ok(([s[0]] + text, rest))
  }

  // ---- numbers ----------------------------------------------------------------------------

  function DecimalValue(s: string): Option<nat> {
    if s == "" then Some(0)
    else
      var high := DecimalValue(s[..|s| - 1]);
      var c := s[|s| - 1];
      if high.Some? && IsDigit(c) then Some(10 * high.value + (c as int - '0' as int)) else None
  }

  /** `parse::<i64>`: an optional sign, at least one digit, no overflow. */
  function ParseI64(raw: string): Option<i64> {
    var signed := raw != "" && (raw[0] == '-' || raw[0] == '+');
    var digits := if signed then raw[1..] else raw;
    var n := DecimalValue(digits);
    if digits == "" || n.None? then None
    else
      var magnitude: int := n.value;
      var value := if raw[0] == '-' then -magnitude else magnitude;
      if -0x8000_0000_0000_0000 <= value < 0x8000_0000_0000_0000 then Some(value) else None
  }

  predicate LooksFloat(s: string) {
    s != "" && (s[0] == '.' || s[0] == 'e' || s[0] == 'E' || LooksFloat(s[1..]))
  }

  function SkipDigits(s: string): string {
    if s != "" && IsDigit(s[0]) then SkipDigits(s[1..]) else s
  }

  /** The texts `parse::<f64>` accepts, among those that start with a digit or a minus sign. */
  predicate FloatSyntax(raw: string) {
    var s := if raw != "" && raw[0] == '-' then raw[1..] else raw;
    var whole := SkipDigits(s);
    var fraction := if whole != "" && whole[0] == '.' then SkipDigits(whole[1..]) else whole;
    var digits := whole != s || (whole != "" && whole[0] == '.' && fraction != whole[1..]);
    digits && (fraction == "" || ExponentSyntax(fraction))
  }

  predicate ExponentSyntax(s: string) {
    s != "" && (s[0] == 'e' || s[0] == 'E') &&
    var e := if |s| > 1 && (s[1] == '-' || s[1] == '+') then s[2..] else s[1..];
    e != "" && SkipDigits(e) == ""
  }

  /** `raw` as a token: a float if it holds a point or an exponent, else an integer. */
  function NumberToken(raw: string): Result<Token, LexError> {
    if LooksFloat(raw) then
      if FloatSyntax(raw) then Ok(Token.Float(raw)) else Err(InvalidFloat(raw))
    else
      var n := ParseI64(raw);
      if n.Some? then Ok(Token.Int(n.value)) else Err(InvalidInteger(raw))
  }

  // ---- words ------------------------------------------------------------------------------

  function UpperChar(c: char): char {
    if 'a' <= c <= 'z' then (c as int - 'a' as int + 'A' as int) as char else c
  }

  /** `to_ascii_uppercase` */
  function Upper(s: string): (r: string)
    ensures |r| == |s|
  {
    if s == "" then "" else [UpperChar(s[0])] + Upper(s[1..])
  }

  /** `Token::keyword`: keywords are recognised in any case. */
  function Keyword(word: string): Option<Token> {
    var w := Upper(word);
    if w == "SELECT" then Some(Select)
    else if w == "FROM" then Some(From)
    else if w == "WHERE" then Some(Where)
    else if w == "AND" then Some(And)
    else if w == "OR" then Some(Or)
    else if w == "NOT" then Some(Not)
    else if w == "ORDER" then Some(Order)
    else if w == "BY" then Some(By)
    else if w == "ASC" then Some(Asc)
    else if w == "DESC" then Some(Desc)
    else if w == "LIMIT" then Some(Limit)
    else if w == "OFFSET" then Some(Offset)
    else if w == "EFFECTIVE" then Some(EffectiveAt)
    else if w == "AS" then Some(AsOf)
    else if w == "LIKE" then Some(Like)
    else if w == "IN" then Some(In)
    else if w == "IS" then Some(Is)
    else if w == "NULL" then Some(Null)
    else if w == "TRUE" then Some(True)
    else if w == "FALSE" then Some(False)
    else None
  }

  /** The text after `expected` if the next word is that, else the text as it was. */
  function SkipKeyword(expected: string, s: string): (r: string)
    ensures |r| <= |s|
  {
    if s != "" && IsIdentStart(s[0]) && Upper(ReadIdent(s).0) == expected then ReadIdent(s).1 else s
  }

  /** A word and, for the two-word keywords, its second word. */
  function WordToken(word: string, rest: string): (r: (Token, string))
    ensures |r.1| <= |rest| && r.0 != Eof
  {
    var w := Upper(word);
    if w == "EFFECTIVE" then (EffectiveAt, SkipKeyword("AT", SkipSpace(rest)))
    else if w == "AS" then (AsOf, SkipKeyword("OF", SkipSpace(rest)))
    else if w == "ORDER" then (Order, SkipKeyword("BY", SkipSpace(rest)))
    else
      var k := Keyword(word);
      (if k.Some? then k.value else Ident(word), rest)
  }

  // ---- tokens -----------------------------------------------------------------------------

  /** Operators and punctuation: the token whose first character is `c`. */
  function SymbolAt(c: char, rest: string): (r: Lexed<Token>)
    ensures r.Ok? ==> r.value.0 != Eof && |r.value.1| <= |rest|
  {
    var equals := rest != "" && rest[0] == '=';
    if c == '*' then Ok((Star, rest))
    else if c == ',' then Ok((Comma, rest))
    else if c == '.' then Ok((Dot, rest))
    else if c == '(' then Ok((LParen, rest))
    else if c == ')' then Ok((RParen, rest))
    else if c == '=' then Ok((Token.Eq, rest))
    else if c == '!' && equals then Ok((Token.Ne, rest[1..]))
    else if c == '<' then Ok(if equals then (Token.Le, rest[1..]) else (Token.Lt, rest))
    else if c == '>' then Ok(if equals then (Token.Ge, rest[1..]) else (Token.Gt, rest))
    else Err(UnexpectedCharacter(c))
  }

  /** The token whose first character is `c`. */
  function TokenAt(c: char, rest: string): (r: Lexed<Token>)
    ensures r.Ok? ==> r.value.0 != Eof && |r.value.1| <= |rest|
  {
    if c == '\'' then
      var (value, after) :- ReadString(rest);
      Ok((Token.Str(value), after))
    else if IsDigit(c) || (c == '-' && rest != "" && IsDigit(rest[0])) then
      var (digits, after) := ReadDigits(rest);
      var token :- NumberToken([c] + digits);
      Ok((token, after))
    else if IsIdentStart(c) then
      var (word, after) := ReadIdent(rest);
      Ok(WordToken([c] + word, after))
    else SymbolAt(c, rest)
  }

  function NextToken(text: string): (r: Lexed<Token>)
    ensures r.Ok? && r.value.0 != Eof ==> |r.value.1| < |text|
  {
    var s := SkipSpace(text);
    if s == "" then Ok((Eof, "")) else TokenAt(s[0], s[1..])
  }

  function Tokenize(text: string): Result<seq<Token>, LexError>
    decreases |text|
  {
    var (token, rest) :- NextToken(text);
    if token == Eof then Ok([Eof])
    else
      var tokens :- Tokenize(rest);
      Ok([token] + tokens)
  }
}
