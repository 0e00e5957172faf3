/** The lexer itself: a cursor over the text, advanced (and once moved back) by its methods. */
module PqlLexer {
  import opened Base
  import opened PqlToken
  import opened PqlLexis
  import Lists

  class Lexer {
    const input: string
    var pos: nat

    constructor (input: string)
      ensures this.input == input && Valid() && Remaining() == input
    {
      this.input := input;
      this.pos := 0;
    }

    ghost predicate Valid()
      reads this
    {
      pos <= |input|
    }

    function Remaining(): string
      reads this
      requires Valid()
    {
      input[pos..]
    }

    ghost predicate Follows<T>(r: Result<T, LexError>, spec: Lexed<T>)
      reads this
    {
      && Valid()
      && match spec
         case Ok((value, rest)) => r == Ok(value) && Remaining() == rest
         case Err(error) => r == Err(error)
    }

    function PeekChar(): (c: Option<char>)
      reads this
      requires Valid()
      ensures c == if Remaining() == "" then None else Some(Remaining()[0])
    {
      if pos < |input| then Some(input[pos]) else None
    }

    method Advance() returns (c: Option<char>)
      requires Valid()
      modifies this
      ensures Valid()
      ensures old(Remaining()) == "" ==> c == None && Remaining() == ""
      ensures old(Remaining()) != "" ==> c == Some(old(Remaining())[0]) && Remaining() == old(Remaining())[1..]
    {
      c := PeekChar();
      if c.Some? {
        pos := pos + 1;
      }
    }

    method SkipWhitespace()
      requires Valid()
      modifies this
      ensures Valid() && Remaining() == SkipSpace(old(Remaining()))
    {
      while pos < |input| && IsSpace(input[pos])
        invariant Valid() && SkipSpace(Remaining()) == SkipSpace(old(Remaining()))
      {
        pos := pos + 1;
      }
    }

    /** The rest of a word whose first character was read. */
    method Ident(first: char) returns (word: string)
      requires Valid()
      modifies this
      ensures Valid() && (word, Remaining()) == ([first] + ReadIdent(old(Remaining())).0, ReadIdent(old(Remaining())).1)
    {
      word := [first];
      ghost var spec := ReadIdent(Remaining());
      while pos < |input| && IsIdentChar(input[pos])
        invariant Valid()
        invariant word + ReadIdent(Remaining()).0 == [first] + spec.0 && ReadIdent(Remaining()).1 == spec.1
      {
        IdentStep(word, Remaining());
        assert Remaining()[0] == input[pos] && Remaining()[1..] == input[pos + 1..];
        word := word + [input[pos]];
        pos := pos + 1;
      }
      assert word + "" == word;
    }

    /** One more character of a word. */
    static lemma IdentStep(word: string, s: string)
      requires s != "" && IsIdentChar(s[0])
      ensures word + ReadIdent(s).0 == (word + [s[0]]) + ReadIdent(s[1..]).0 && ReadIdent(s).1 == ReadIdent(s[1..]).1
    {
      Lists.Moved(word, s[0], ReadIdent(s[1..]).0);
    }

    /** A string literal after its opening quote. */
    method StringLiteral() returns (r: Result<string, LexError>)
      requires Valid()
      modifies this
      ensures Follows(r, ReadString(old(Remaining())))
    {
      var s := "";
      ghost var start := Remaining();
      while true
        invariant Valid()
        invariant ReadString(start) == After(s, ReadString(Remaining()))
        decreases |input| - pos
      {
        ghost var here := Remaining();
        var c := Advance();
        if c == None {
          return Err(UnterminatedString);
        } else if c == Some('\'') {
          assert s + "" == s;
          return Ok(s);
        } else if c == Some('\\') {
          var e := Advance();
          if e == None {
            return Err(UnexpectedEndOfEscape);
          }
          assert Remaining() == here[2..];
          StringStep(s, Unescape(e.value), ReadString(Remaining()));
          s := s + Unescape(e.value);
        } else {
          StringStep(s, [c.value], ReadString(Remaining()));
          s := s + [c.value];
        }
      }
    }

    /** What was read so far in front of what is still to be read. */
    static ghost function After(s: string, rest: Lexed<string>): (r: Lexed<string>)
      ensures s == "" ==> r == rest
    {
      if rest.Ok? then
        assert s == "" ==> s + rest.value.0 == rest.value.0;
        Ok((s + rest.value.0, rest.value.1))
      else rest
    }

    static lemma StringStep(s: string, piece: string, rest: Lexed<string>)
      ensures After(s + piece, rest) == After(s, After(piece, rest))
    {
      if rest.Ok? {
        assert s + (piece + rest.value.0) == (s + piece) + rest.value.0;
      }
    }

    /** The characters of a number whose first was read, and whether they look like a float. */
    method Digits(first: char) returns (raw: string, isFloat: bool)
      requires Valid() && (IsDigit(first) || first == '-')
      modifies this
      ensures Valid() && raw == [first] + ReadDigits(old(Remaining())).0
      ensures Remaining() == ReadDigits(old(Remaining())).1
      ensures isFloat <==> LooksFloat(raw)
    {
      raw, isFloat := [first], false;
      ghost var spec := ReadDigits(Remaining());
      assert !LooksFloat(raw) by { assert raw[1..] == ""; }
      while pos < |input| && IsNumberChar(input[pos])
        invariant Valid() && (isFloat <==> LooksFloat(raw))
        invariant raw + ReadDigits(Remaining()).0 == [first] + spec.0 && ReadDigits(Remaining()).1 == spec.1
      {
        var c := input[pos];
        DigitsStep(raw, Remaining());
        assert Remaining()[0] == c && Remaining()[1..] == input[pos + 1..];
        LooksFloatLast(raw, c);
        if c == '.' || c == 'e' || c == 'E' {
          isFloat := true;
        }
        raw := raw + [c];
        pos := pos + 1;
      }
      assert raw + "" == raw;
    }

    /** A number whose first character was read. */
    method Number(first: char) returns (r: Result<Token, LexError>)
      requires Valid() && (IsDigit(first) || first == '-')
      modifies this
      ensures Valid() && r == NumberToken([first] + ReadDigits(old(Remaining())).0)
      ensures Remaining() == ReadDigits(old(Remaining())).1
    {
      var raw, isFloat := Digits(first);
      if isFloat {
        return if FloatSyntax(raw) then Ok(Token.Float(raw)) else Err(InvalidFloat(raw));
      }
      var n := ParseI64(raw);
      return if n.Some? then Ok(Token.Int(n.value)) else Err(InvalidInteger(raw));
    }

    /** One more character of a number. */
    static lemma DigitsStep(raw: string, s: string)
      requires s != "" && IsNumberChar(s[0])
      ensures raw + ReadDigits(s).0 == (raw + [s[0]]) + ReadDigits(s[1..]).0 && ReadDigits(s).1 == ReadDigits(s[1..]).1
    {
      Lists.Moved(raw, s[0], ReadDigits(s[1..]).0);
    }

    static lemma {:induction false} LooksFloatLast(s: string, c: char)
      ensures LooksFloat(s + [c]) <==> LooksFloat(s) || c == '.' || c == 'e' || c == 'E'
    {
      if s == "" {
        assert (s + [c])[1..] == "";
      } else {
        assert (s + [c])[1..] == s[1..] + [c];
        LooksFloatLast(s[1..], c);
      }
    }

    /** Reads `expected` if it is the next word, else moves back. */
    method IdentIfKeyword(expected: string) returns (found: bool)
      requires Valid()
      modifies this
      ensures Valid() && Remaining() == SkipKeyword(expected, old(Remaining()))
    {
      var start := pos;
      if pos < |input| && IsIdentStart(input[pos]) {
        ghost var here := Remaining();
        var ch := Advance();
        var word := Ident(ch.value);
        assert ReadIdent(here) == ([ch.value] + ReadIdent(here[1..]).0, ReadIdent(here[1..]).1);
        if Upper(word) == expected {
          return true;
        }
        pos := start;
        return false;
      }
      return false;
    }

    /** The token of a word whose characters were read. */
    method Word(ident: string) returns (t: Token)
      requires Valid()
      modifies this
      ensures Valid() && (t, Remaining()) == WordToken(ident, old(Remaining()))
    {
      var upper := Upper(ident);
      if upper == "EFFECTIVE" {
        SkipWhitespace();
        var next := IdentIfKeyword("AT");
        return EffectiveAt;
      } else if upper == "AS" {
        SkipWhitespace();
        var next := IdentIfKeyword("OF");
        return AsOf;
      } else if upper == "ORDER" {
        SkipWhitespace();
        var _ := IdentIfKeyword("BY");
        return Order;
      }
      var kw := Keyword(ident);
      return if kw.Some? then kw.value else Token.Ident(ident);
    }

    method Next() returns (r: Result<Token, LexError>)
      requires Valid()
      modifies this
      ensures Follows(r, NextToken(old(Remaining())))
    {
      SkipWhitespace();
      var first := Advance();
      if first == None {
        return Ok(Eof);
      }
      r := From(first.value);
    }

    /** The token whose first character was read. */
    method From(c: char) returns (r: Result<Token, LexError>)
      requires Valid()
      modifies this
      ensures Follows(r, TokenAt(c, old(Remaining())))
    {
      if c == '\'' {
        var s :- StringLiteral();
        return Ok(Token.Str(s));
      } else if IsDigit(c) || (c == '-' && pos < |input| && IsDigit(input[pos])) {
        r := Number(c);
      } else if IsIdentStart(c) {
        var ident := Ident(c);
        var t := Word(ident);
        return Ok(t);
      } else {
        r := Symbol(c);
      }
    }

    method Symbol(c: char) returns (r: Result<Token, LexError>)
      requires Valid()
      modifies this
      ensures Follows(r, SymbolAt(c, old(Remaining())))
    {
      var equals := pos < |input| && input[pos] == '=';
      if equals && (c == '!' || c == '<' || c == '>') {
        pos := pos + 1;
        return Ok(if c == '!' then Token.Ne else if c == '<' then Token.Le else Token.Ge);
      }
      match c
      case '*' => return Ok(Star);
      case ',' => return Ok(Comma);
      case '.' => return Ok(Dot);
      case '(' => return Ok(LParen);
      case ')' => return Ok(RParen);
      case '=' => return Ok(Token.Eq);
      case '<' => return Ok(Token.Lt);
      case '>' => return Ok(Token.Gt);
      case _ => return Err(UnexpectedCharacter(c));
    }

    /** All tokens up to and including the end marker. */
    method TokenizeAll() returns (r: Result<seq<Token>, LexError>)
      requires Valid()
      modifies this
      ensures r == Tokenize(old(Remaining()))
    {
      var tokens: seq<Token> := [];
      ghost var start := Remaining();
      while true
        invariant Valid()
        invariant Tokenize(start) == Before(tokens, Tokenize(Remaining()))
        decreases |input| - pos
      {
        ghost var here := Remaining();
        var token :- Next();
        if token == Eof {
          return Ok(tokens + [Eof]);
        }
        assert Tokenize(here) == Before([token], Tokenize(Remaining()));
        TokensStep(tokens, token, Tokenize(Remaining()));
        tokens := tokens + [token];
      }
    }

    static ghost function Before(tokens: seq<Token>, rest: Result<seq<Token>, LexError>):
      (r: Result<seq<Token>, LexError>)
      ensures tokens == [] ==> r == rest
    {
      if rest.Ok? then
        assert tokens == [] ==> tokens + rest.value == rest.value;
        Ok(tokens + rest.value)
      else rest
    }

    static lemma TokensStep(tokens: seq<Token>, token: Token, rest: Result<seq<Token>, LexError>)
      ensures Before(tokens + [token], rest) == Before(tokens, Before([token], rest))
    {
      if rest.Ok? {
        assert tokens + ([token] + rest.value) == (tokens + [token]) + rest.value;
      }
    }
  }
}
