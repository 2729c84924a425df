/** The proto lexer as it runs (language/lexer.rs), with its incremental line and column counters. */
module Lexer {
  import opened Wrappers
  import opened WireBasics
  import opened LexerSpec
  import T = LexerTheorems

  class Lexer {
    const src: bytes
    var pos: nat
    var line: nat
    var col: nat
    var comments: seq<Comment>

    /** The counters always agree with a scan from the start. */
    ghost predicate Valid()
      reads this
    {
      pos <= |src| && (line, col) == LineCol(src, pos)
    }

    constructor (src: bytes)
      ensures this.src == src && Valid() && pos == 0 && comments == []
    {
      this.src := src;
      pos, line, col, comments := 0, 1, 1, [];
    }

    function Peek(): Option<byte>
      reads this
    {
      if pos < |src| then Some(src[pos]) else None
    }

    method Bump() returns (b: Option<byte>)
      requires Valid()
      modifies `pos, `line, `col
      ensures Valid() && b == old(Peek())
      ensures pos == if b.Some? then old(pos) + 1 else old(pos)
    {
      if pos >= |src| { return None; }
      b := Some(src[pos]);
      pos := pos + 1;
      if b.value == NL {
        line, col := line + 1, 1;
      } else {
        col := col + 1;
      }
    }

    /** `line_col_at` */
    method LineColAt(offset: nat) returns (l: nat, c: nat)
      ensures (l, c) == LineCol(src, if offset <= |src| then offset else |src|)
    {
      l, c := 1, 1;
      var end := if offset <= |src| then offset else |src|;
      for i := 0 to end
        invariant (l, c) == LineCol(src, i)
      {
        if src[i] == NL {
          l, c := l + 1, 1;
        } else {
          c := c + 1;
        }
      }
    }

    method PositionOf(offset: nat) returns (p: Position)
      requires offset <= |src|
      ensures p == PosOf(src, offset)
    {
      var l, c := LineColAt(offset);
      p := Position(l, c, offset);
    }

    /** `record_comment` */
    method RecordComment(off0: nat)
      requires Valid() && off0 <= pos
      modifies `comments
      ensures comments == old(comments) + [CommentOf(src, off0, pos)]
    {
      var start := PositionOf(off0);
      var end := PositionOf(pos);
      comments := comments + [Comment(Span(start, end), TrimEnd(src[off0..pos]))];
    }

    method SkipLine()
      requires Valid()
      modifies `pos, `line, `col
      ensures Valid() && pos == LineEnd(src, old(pos))
    {
      while pos < |src| && src[pos] != NL
        invariant Valid() && LineEnd(src, pos) == LineEnd(src, old(pos))
        decreases |src| - pos
      {
        var _ := Bump();
      }
    }

    method SkipBlock()
      requires Valid()
      modifies `pos, `line, `col
      ensures Valid() && pos == BlockEnd(src, old(pos), 1)
    {
      var depth := 1;
      while depth > 0
        invariant Valid() && BlockEnd(src, pos, depth) == BlockEnd(src, old(pos), 1)
        decreases |src| - pos
      {
        if pos == |src| {
          break;
        } else if At(src, pos, STAR) && At(src, pos + 1, SLASH) {
          var _ := Bump();
          var _ := Bump();
          depth := depth - 1;
        } else if Opens(src, pos, STAR) {
          var _ := Bump();
          var _ := Bump();
          depth := depth + 1;
        } else {
          var _ := Bump();
        }
      }
    }

    /** `skip_trivia` */
    method SkipTrivia()
      requires Valid()
      modifies this
      ensures Valid()
      ensures pos == Trivia(src, old(pos)).1
      ensures comments == old(comments) + Trivia(src, old(pos)).0
    {
      hide LineCol;
      while pos < |src| && (Whitespace(src[pos]) || CommentEnd(src, pos).Some?)
        invariant Valid()
        invariant Trivia(src, pos).1 == Trivia(src, old(pos)).1
        invariant comments + Trivia(src, pos).0 == old(comments) + Trivia(src, old(pos)).0
        decreases |src| - pos
      {
        ghost var (at, before) := (pos, comments);
        if Whitespace(src[pos]) {
          var _ := Bump();
        } else {
          var off0 := pos;
          if At(src, pos + 1, SLASH) {
            SkipLine();
          } else {
            var _ := Bump();
            var _ := Bump();
            SkipBlock();
          }
          assert CommentEnd(src, at) == Some(pos);
          RecordComment(off0);
          Assoc(before, [CommentOf(src, at, pos)], Trivia(src, pos).0);
        }
      }
      assert Trivia(src, pos) == ([], pos);
      assert comments + [] == comments;
    }

    method LexIdent() returns (name: bytes)
      requires Valid()
      modifies `pos, `line, `col
      ensures Valid() && pos == IdentEnd(src, old(pos)) && name == src[old(pos)..pos]
    {
      var start := pos;
      while pos < |src| && IsIdent(src[pos])
        invariant Valid() && start <= pos && IdentEnd(src, pos) == IdentEnd(src, start)
        decreases |src| - pos
      {
        var _ := Bump();
      }
      name := src[start..pos];
    }

    method LexHexNumber() returns (r: Result<TokenKind, LexError>)
      requires Valid() && pos < |src| && IsDigit(src[pos]) && IsHexStart(src, pos)
      modifies `pos, `line, `col
      ensures Valid()
      ensures match NumberAt(src, old(pos))
              case Success(t) => r == Success(t.0) && pos == t.1
              case Failure(e) => r == Failure(e)
    {
      var start := pos;
      var _ := Bump();
      var _ := Bump();
      while pos < |src| && (HexValue(src[pos]).Some? || src[pos] == UNDERSCORE)
        invariant Valid() && start + 2 <= pos && HexEnd(src, pos) == HexEnd(src, start + 2)
        decreases |src| - pos
      {
        var _ := Bump();
      }
      var at := PositionOf(start);
      r := IntToken(WithoutUnderscores(src[start + 2..pos]), 16, at);
    }

    /** `lex_number` */
    method LexNumber() returns (r: Result<TokenKind, LexError>)
      requires Valid() && pos < |src| && IsDigit(src[pos])
      modifies `pos, `line, `col
      ensures Valid()
      ensures match NumberAt(src, old(pos))
              case Success(t) => r == Success(t.0) && pos == t.1
              case Failure(e) => r == Failure(e)
    {
      hide LineCol, IntToken, WithoutUnderscores, IsFloat;
      if IsHexStart(src, pos) {
        r := LexHexNumber();
        return;
      }
      var start := pos;
      var sawDot, sawExp := false, false;
      while true
        invariant Valid() && start <= pos
        invariant NumberEnd(src, pos, sawDot, sawExp) == NumberEnd(src, start, false, false)
        decreases |src| - pos
      {
        if pos == |src| {
          break;
        } else if IsDigit(src[pos]) || src[pos] == UNDERSCORE {
          var _ := Bump();
        } else if src[pos] == 46 && !sawDot && !sawExp {
          sawDot := true;
          var _ := Bump();
        } else if IsExponent(src[pos]) && !sawExp {
          sawExp := true;
          var _ := Bump();
          if pos < |src| && IsSign(src[pos]) {
            var _ := Bump();
          }
        } else {
          break;
        }
      }
      var text := WithoutUnderscores(src[start..pos]);
      var at := PositionOf(start);
      if sawDot || sawExp {
        r := if IsFloat(text) then Success(Float(text)) else Failure(LexError(UnexpectedToken, at));
      } else {
        r := IntToken(text, 10, at);
      }
    }

    /** `read_hex` */
    method ReadHex(n: nat) returns (r: Result<nat, LexError>)
      requires Valid()
      modifies `pos, `line, `col
      ensures Valid() && r == HexAt(src, old(pos), n, 0, PosOf(src, old(pos)))
      ensures r.Success? ==> pos == old(pos) + n
    {
      var start := PositionOf(pos);
      var v := 0;
      for i := 0 to n
        invariant Valid() && pos == old(pos) + i
        invariant HexAt(src, pos, n - i, v, start) == HexAt(src, old(pos), n, 0, start)
      {
        var b := Bump();
        if b.None? { return Failure(LexError(EndOfText, start)); }
        var d := HexValue(b.value);
        if d.None? { return Failure(LexError(UnexpectedToken, start)); }
        v := v * 16 + d.value;
      }
      r := Success(v);
    }

    /** What follows a backslash in a string literal. */
    method ReadEscape(start: Position) returns (r: Result<nat, LexError>)
      requires Valid()
      modifies `pos, `line, `col
      ensures Valid()
      ensures match EscapeAt(src, old(pos), start)
              case Success(t) => r == Success(t.0) && pos == t.1
              case Failure(e) => r == Failure(e)
    {
      var esc := Bump();
      if esc.None? { return Failure(LexError(EndOfText, start)); }
      if Escape(esc.value).Some? { return Success(Escape(esc.value).value); }
      if HexWidth(esc.value).None? { return Failure(LexError(UnexpectedToken, start)); }
      r := ReadHex(HexWidth(esc.value).value);
      if r.Success? && !IsScalar(r.value) { r := Failure(LexError(UnexpectedToken, start)); }
    }

    /** `lex_string` */
    method LexString(quote: byte) returns (r: Result<seq<nat>, LexError>)
      requires Valid() && pos < |src|
      modifies `pos, `line, `col
      ensures Valid()
      ensures match StringAt(src, old(pos) + 1, quote, PosOf(src, old(pos)))
              case Success(t) => r == Success(t.0) && pos == t.1
              case Failure(e) => r == Failure(e)
    {
      hide LineCol, EscapeAt;
      var start := PositionOf(pos);
      ghost var from := pos + 1;
      var _ := Bump();
      var out: seq<nat> := [];
      ExtendsNothing(StringAt(src, pos, quote, start));
      while true
        invariant Valid() && from <= pos
        invariant Extends(out, StringAt(src, pos, quote, start), StringAt(src, from, quote, start))
        decreases |src| - pos
      {
        ghost var at := pos;
        var c := Bump();
        if c.None? { return Failure(LexError(EndOfText, start)); }
        if c.value == quote {
          assert out + [] == out;
          return Success(out);
        }
        if c.value == BACKSLASH {
          var esc := ReadEscape(start);
          if esc.Failure? { return Failure(esc.error); }
          ExtendsMore(out, esc.value, StringAt(src, pos, quote, start));
          out := out + [esc.value];
        } else {
          ExtendsMore(out, c.value, StringAt(src, pos, quote, start));
          out := out + [c.value];
        }
      }
    }

    /** `next_token` */
    method NextToken() returns (r: Result<Option<Token>, LexError>)
      requires Valid()
      modifies this
      ensures Valid()
      ensures comments == old(comments) + Trivia(src, old(pos)).0
      ensures var start := Trivia(src, old(pos)).1;
              if start == |src| then r == Success(None) && pos == start
              else match KindAt(src, start)
                   case Success(t) => pos == t.1 && r == Success(Some(Token(t.0, SpanOf(src, start, t.1))))
                   case Failure(e) => r == Failure(e)
    {
      hide LineCol, Trivia, StringAt, NumberAt;
      SkipTrivia();
      ghost var begin := pos;
      var start := PositionOf(pos);
      if pos == |src| { return Success(None); }
      var b := src[pos];
      var kind: TokenKind;
      if Punctuation(b).Some? {
        var _ := Bump();
        kind := Punctuation(b).value;
      } else if IsQuote(b) {
        var s := LexString(b);
        if s.Failure? { return Failure(s.error); }
        kind := TokenKind.Str(s.value);
      } else if IsLetter(b) || b == UNDERSCORE {
        var name := LexIdent();
        kind := Ident(name);
      } else if IsDigit(b) {
        var n := LexNumber();
        if n.Failure? { return Failure(n.error); }
        kind := n.value;
      } else {
        return Failure(LexError(UnexpectedToken, start));
      }
      var end := PositionOf(pos);
      r := Success(Some(Token(kind, Span(start, end))));
    }
  }

  /** The whole literal is what has been read and then the rest. */
  ghost predicate Extends(out: seq<nat>, rest: Result<(seq<nat>, nat), LexError>,
                          whole: Result<(seq<nat>, nat), LexError>)
  {
    match rest
    case Success(t) => whole == Success((out + t.0, t.1))
    case Failure(e) => whole == Failure(e)
  }

  lemma ExtendsNothing(r: Result<(seq<nat>, nat), LexError>)
    ensures Extends([], r, r)
  {
    if r.Success? { assert [] + r.value.0 == r.value.0; }
  }

  lemma ExtendsMore(out: seq<nat>, c: nat, rest: Result<(seq<nat>, nat), LexError>)
    ensures rest.Success? ==> out + ([c] + rest.value.0) == out + [c] + rest.value.0
  {
  }

  /** The result for the whole text is what has been found and then the rest. */
  ghost predicate Found(tokens: seq<Token>, comments: seq<Comment>, rest: Lexed, whole: Lexed) {
    match rest
    case Success(t) => whole == Success((tokens + t.0, comments + t.1))
    case Failure(e) => whole == Failure(e)
  }

  lemma FoundMore(tokens: seq<Token>, comments: seq<Comment>, token: Token, more: seq<Comment>, rest: Lexed, whole: Lexed)
    requires rest.Success? ==>
               Found(tokens, comments, Success(([token] + rest.value.0, more + rest.value.1)), whole)
    requires rest.Failure? ==> Found(tokens, comments, rest, whole)
    ensures Found(tokens + [token], comments + more, rest, whole)
  {
    if rest.Success? {
      Assoc(tokens, [token], rest.value.0);
      Assoc(comments, more, rest.value.1);
    }
  }

  /** `lex_with_comments`: the tokens and the comments, which tile the text, or the first error. */
  method LexWithComments(src: bytes) returns (r: Lexed)
    ensures r == Lex(src, 0)
    ensures r.Success? ==>
              T.Tiles(src, T.TokenSpans(r.value.0), T.CommentSpans(r.value.1), 0, |src|)
  {
    hide Trivia, KindAt, T.Tiles, LineCol;
    var lexer := new Lexer(src);
    var out: seq<Token> := [];
    LexStart(src);
    while true
      invariant lexer.src == src && lexer.Valid() && fresh(lexer)
      invariant Found(out, lexer.comments, Lex(src, lexer.pos), Lex(src, 0))
      decreases |src| - lexer.pos
    {
      ghost var (at, before) := (lexer.pos, lexer.comments);
      var t := lexer.NextToken();
      if t.Failure? { return Failure(t.error); }
      if t.value.None? {
        assert out + [] == out;
        r := Success((out, lexer.comments));
        LexTilesWhole(src);
        return;
      }
      FoundMore(out, before, t.value.value, Trivia(src, at).0, Lex(src, lexer.pos), Lex(src, 0));
      out := out + [t.value.value];
    }
  }

  lemma LexStart(src: bytes)
    ensures Found([], [], Lex(src, 0), Lex(src, 0))
  {
    var r := Lex(src, 0);
    if r.Success? {
      var tokens, comments := r.value.0, r.value.1;
      assert [] + tokens == tokens && [] + comments == comments;
    }
  }

  lemma LexTilesWhole(src: bytes)
    ensures Lex(src, 0).Success? ==>
              T.Tiles(src, T.TokenSpans(Lex(src, 0).value.0), T.CommentSpans(Lex(src, 0).value.1), 0, |src|)
  {
    if Lex(src, 0).Success? { T.LexTiles(src, 0); }
  }
}
