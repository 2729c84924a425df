/** Whole texts: the lexer accepts exactly those laid out as tokens, white space and comments (language/lexer.rs). */
module LexerLanguage {
  import opened Wrappers
  import opened WireBasics
  import opened LexerSpec
  import opened LexerGrammar
  import opened LexerTrivia

  datatype Item = Filler(g: Gap) | Lexed(l: Lexeme)

  function ItemText(x: Item): bytes {
    match x
    case Filler(g) => GapText(g)
    case Lexed(l) => LexemeText(l)
  }

  /** From `pos` to its end the text consists of the items one behind the other. */
  ghost predicate Laid(src: bytes, pos: nat, items: seq<Item>)
    decreases |items|
  {
    if |items| == 0 then pos == |src|
    else
      && (match items[0] case Filler(g) => GapStands(src, pos, g) case Lexed(l) => Stands(src, pos, l))
      && Laid(src, pos + |ItemText(items[0])|, items[1..])
  }

  function KindsOf(items: seq<Item>): seq<TokenKind> {
    if |items| == 0 then []
    else (if items[0].Lexed? then [LexemeKind(items[0].l)] else []) + KindsOf(items[1..])
  }

  function CommentsOf(items: seq<Item>): seq<bytes> {
    if |items| == 0 then []
    else (if items[0].Filler? then GapComments(items[0].g) else []) + CommentsOf(items[1..])
  }

  function Kinds(ts: seq<Token>): (ks: seq<TokenKind>)
    ensures |ks| == |ts| && forall i :: 0 <= i < |ts| ==> ks[i] == ts[i].kind
  {
    seq(|ts|, i requires 0 <= i < |ts| => ts[i].kind)
  }

  /** Lexing from `pos` gives tokens of these kinds and comments of these texts. */
  ghost predicate LexesTo(src: bytes, pos: nat, ks: seq<TokenKind>, cs: seq<bytes>) {
    pos <= |src| && Lex(src, pos).Success? && Kinds(Lex(src, pos).value.0) == ks && Texts(Lex(src, pos).value.1) == cs
  }

  lemma LexNothing(src: bytes)
    ensures LexesTo(src, |src|, [], [])
  {
    assert Trivia(src, |src|) == ([], |src|);
  }

  lemma TextsJoin(a: seq<Comment>, b: seq<Comment>)
    ensures Texts(a + b) == Texts(a) + Texts(b)
  {
  }

  /** A gap in front adds its comments. */
  lemma LexGap(src: bytes, pos: nat, end: nat, texts: seq<bytes>)
    requires pos <= end <= |src| && GapAdds(src, pos, end, texts)
    ensures Lex(src, pos).Success? <==> Lex(src, end).Success?
    ensures Lex(src, pos).Success? ==>
              && Kinds(Lex(src, pos).value.0) == Kinds(Lex(src, end).value.0)
              && Texts(Lex(src, pos).value.1) == texts + Texts(Lex(src, end).value.1)
  {
    hide KindAt, LineCol, Trivia, Texts, Kinds;
    var (all, rest) := (Trivia(src, pos), Trivia(src, end));
    if all.1 < |src| && KindAt(src, all.1).Success? && Lex(src, KindAt(src, all.1).value.1).Success? {
      var tail := Lex(src, KindAt(src, all.1).value.1).value.1;
      TextsJoin(all.0, tail);
      TextsJoin(rest.0, tail);
      Assoc(texts, Texts(rest.0), Texts(tail));
    }
  }

  lemma NoTrivia(src: bytes, pos: nat)
    requires pos < |src| && !Whitespace(src[pos]) && CommentEnd(src, pos).None?
    ensures Trivia(src, pos) == ([], pos)
  {
    hide CommentEnd, LineCol;
  }

  /** Where a token starts there is no white space and no comment. */
  lemma NoGap(src: bytes, pos: nat)
    requires pos < |src| && KindAt(src, pos).Success?
    ensures !Whitespace(src[pos]) && CommentEnd(src, pos).None?
  {
    hide NumberAt, StringAt, LineCol, LineEnd, BlockEnd;
  }

  lemma LexToken(src: bytes, pos: nat)
    requires pos < |src| && !Whitespace(src[pos]) && CommentEnd(src, pos).None?
    ensures Lex(src, pos).Success? <==> KindAt(src, pos).Success? && Lex(src, KindAt(src, pos).value.1).Success?
    ensures Lex(src, pos).Success? ==>
              && Kinds(Lex(src, pos).value.0)
                 == [KindAt(src, pos).value.0] + Kinds(Lex(src, KindAt(src, pos).value.1).value.0)
              && Texts(Lex(src, pos).value.1) == Texts(Lex(src, KindAt(src, pos).value.1).value.1)
  {
    hide KindAt, LineCol, Trivia, CommentEnd;
    NoTrivia(src, pos);
    if KindAt(src, pos).Success? && Lex(src, KindAt(src, pos).value.1).Success? {
      var (k, end) := KindAt(src, pos).value;
      var rest := Lex(src, end).value;
      var token := Token(k, SpanOf(src, pos, end));
      assert Lex(src, pos) == Success(([token] + rest.0, [] + rest.1));
      assert [] + rest.1 == rest.1;
      assert Kinds([token] + rest.0) == [k] + Kinds(rest.0);
    }
  }

  lemma {:induction false} LayoutReads(src: bytes, pos: nat, items: seq<Item>)
    requires Laid(src, pos, items)
    ensures LexesTo(src, pos, KindsOf(items), CommentsOf(items))
    decreases |items|
  {
    hide KindAt, CommentEnd, Lex, Kinds, Texts, GapStands, Stands, GapAdds, GapText, LexemeText, LexemeKind, Trivia;
    hide Whitespace, GapComments;
    if |items| == 0 {
      LexNothing(src);
    } else {
      var end := pos + |ItemText(items[0])|;
      LayoutReads(src, end, items[1..]);
      var (ks, cs) := (KindsOf(items[1..]), CommentsOf(items[1..]));
      match items[0]
      case Filler(g) =>
        GapReads(src, pos, g);
        LexGap(src, pos, end, GapComments(g));
        assert [] + ks == ks;
      case Lexed(l) =>
        LexemeReads(src, pos, l);
        NoGap(src, pos);
        LexToken(src, pos);
        assert [] + cs == cs;
    }
  }

  lemma {:induction false} LayoutParses(src: bytes, pos: nat) returns (items: seq<Item>)
    requires pos <= |src| && Lex(src, pos).Success?
    ensures Laid(src, pos, items)
    decreases |src| - pos
  {
    hide KindAt, CommentEnd, Lex, Kinds, Texts, GapStands, Stands, GapAdds, GapText, LexemeText, LexemeKind, Trivia;
    hide Whitespace, GapComments;
    if pos == |src| {
      items := [];
    } else if Whitespace(src[pos]) || CommentEnd(src, pos).Some? {
      var g := GapParses(src, pos);
      GapReads(src, pos, g);
      var end := pos + |GapText(g)|;
      LexGap(src, pos, end, GapComments(g));
      var rest := LayoutParses(src, end);
      items := [Filler(g)] + rest;
      assert items[1..] == rest;
    } else {
      LexToken(src, pos);
      var l := LexemeParses(src, pos);
      LexemeReads(src, pos, l);
      var rest := LayoutParses(src, pos + |LexemeText(l)|);
      items := [Lexed(l)] + rest;
      assert items[1..] == rest;
    }
  }

  /**
   * The language of the lexer: a text is accepted with these tokens and these comments if and only if it can be laid
   * out as gaps and tokens that mean just that. So whatever the layout, the tokens are the same.
   */
  lemma LexLanguage(src: bytes, ks: seq<TokenKind>, cs: seq<bytes>)
    ensures LexesTo(src, 0, ks, cs) <==>
            exists items :: Laid(src, 0, items) && KindsOf(items) == ks && CommentsOf(items) == cs
  {
    hide Lex, Laid, KindsOf, CommentsOf, Kinds, Texts;
    if LexesTo(src, 0, ks, cs) {
      var items := LayoutParses(src, 0);
      LayoutReads(src, 0, items);
    }
    forall items | Laid(src, 0, items)
      ensures LexesTo(src, 0, KindsOf(items), CommentsOf(items))
    {
      LayoutReads(src, 0, items);
    }
  }
}
