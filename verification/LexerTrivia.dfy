/** White space and comments between tokens (language/lexer.rs) as they are written, and how the lexer passes them. */
module LexerTrivia {
  import opened Wrappers
  import opened WireBasics
  import opened LexerSpec

  // --------------------------------------------------------------------------- comments

  /** What a block comment consists of: opening marks, closing marks and other bytes. */
  datatype Bit = Open | Close | Other(b: byte)

  function BitText(x: Bit): (s: bytes)
    ensures |s| > 0
  {
    match x
    case Open => [SLASH, STAR]
    case Close => [STAR, SLASH]
    case Other(b) => [b]
  }

  function BitsText(bits: seq<Bit>): bytes {
    if |bits| == 0 then [] else BitText(bits[0]) + BitsText(bits[1..])
  }

  /** No other byte is half of a mark. */
  predicate Greedy(bits: seq<Bit>) {
    |bits| > 0 ==>
      && Greedy(bits[1..])
      && (bits[0].Other? && |bits| > 1 ==>
            var next := BitText(bits[1])[0];
            !(bits[0].b == SLASH && next == STAR) && !(bits[0].b == STAR && next == SLASH))
  }

  /** The last mark, and none before it, closes the last of `depth` levels. */
  predicate Closes(bits: seq<Bit>, depth: nat) {
    |bits| > 0 &&
    match bits[0]
    case Open => Closes(bits[1..], depth + 1)
    case Close => if depth <= 1 then |bits| == 1 else Closes(bits[1..], depth - 1)
    case Other(_) => Closes(bits[1..], depth)
  }

  predicate NeverCloses(bits: seq<Bit>, depth: nat) {
    |bits| == 0 ||
    match bits[0]
    case Open => NeverCloses(bits[1..], depth + 1)
    case Close => depth > 1 && NeverCloses(bits[1..], depth - 1)
    case Other(_) => NeverCloses(bits[1..], depth)
  }

  /** The levels open behind the bit. */
  function After(x: Bit, depth: nat): nat {
    if x.Open? then depth + 1 else if x.Close? && depth > 0 then depth - 1 else depth
  }

  lemma BitFirst(src: bytes, pos: nat, depth: nat, x: Bit)
    requires depth > 0 && Has(src, pos, BitText(x)) && Alone(src, pos, x)
    ensures BlockEnd(src, pos, depth) == BlockEnd(src, pos + |BitText(x)|, After(x, depth))
  {
    HasByte(src, pos, BitText(x), 0);
    if !x.Other? { HasByte(src, pos, BitText(x), 1); }
  }

  /** The comment ends behind `bits`, closed or with the text. */
  ghost predicate BlockStands(src: bytes, pos: nat, depth: nat, bits: seq<Bit>) {
    && Has(src, pos, BitsText(bits)) && Greedy(bits)
    && (Closes(bits, depth) || (NeverCloses(bits, depth) && pos + |BitsText(bits)| == |src|))
  }

  /** The byte behind the bit does not make another mark of it. */
  predicate Alone(src: bytes, pos: nat, x: Bit) {
    x.Other? && pos + 1 < |src| ==>
      !(x.b == SLASH && src[pos + 1] == STAR) && !(x.b == STAR && src[pos + 1] == SLASH)
  }

  lemma BlockFirst(src: bytes, pos: nat, depth: nat, bits: seq<Bit>)
    requires depth > 0 && BlockStands(src, pos, depth, bits) && |bits| > 0
    ensures Has(src, pos, BitText(bits[0])) && Alone(src, pos, bits[0])
    ensures var from := pos + |BitText(bits[0])|;
            if After(bits[0], depth) > 0 then BlockStands(src, from, After(bits[0], depth), bits[1..])
            else |bits| == 1
  {
    var (x, rest) := (bits[0], bits[1..]);
    HasSplit(src, pos, BitText(x), BitsText(rest));
    if |rest| > 0 {
      HasByte(src, pos + |BitText(x)|, BitsText(rest), 0);
      assert rest[0] == bits[1];
    } else {
      assert BitsText(bits) == BitText(x) && !Closes(rest, depth);
    }
  }

  lemma {:induction false} BlockReads(src: bytes, pos: nat, depth: nat, bits: seq<Bit>)
    requires depth > 0 && BlockStands(src, pos, depth, bits)
    ensures BlockEnd(src, pos, depth) == pos + |BitsText(bits)|
    decreases |bits|
  {
    if |bits| == 0 {
      BlockDone(src, pos, depth);
    } else {
      hide BlockEnd, BlockStands, BitText, Has, Alone;
      BlockFirst(src, pos, depth, bits);
      var from := pos + |BitText(bits[0])|;
      HasEnd(src, pos, BitText(bits[0]));
      BitFirst(src, pos, depth, bits[0]);
      if After(bits[0], depth) == 0 {
        BlockDone(src, from, 0);
      } else {
        BlockReads(src, from, After(bits[0], depth), bits[1..]);
      }
    }
  }

  lemma BlockDone(src: bytes, pos: nat, depth: nat)
    requires pos <= |src| && (depth == 0 || pos == |src|)
    ensures BlockEnd(src, pos, depth) == pos
  {
  }

  lemma BitAt(src: bytes, pos: nat) returns (x: Bit)
    requires pos < |src|
    ensures Has(src, pos, BitText(x)) && Alone(src, pos, x)
  {
    if At(src, pos, STAR) && At(src, pos + 1, SLASH) {
      x := Close;
      assert src[pos..pos + 2] == [STAR, SLASH];
    } else if Opens(src, pos, STAR) {
      x := Open;
      assert src[pos..pos + 2] == [SLASH, STAR];
    } else {
      x := Other(src[pos]);
      assert src[pos..pos + 1] == [src[pos]];
    }
  }

  lemma {:induction false} BlockParses(src: bytes, pos: nat, depth: nat) returns (bits: seq<Bit>)
    requires depth > 0 && pos <= |src|
    ensures BlockStands(src, pos, depth, bits)
    decreases |src| - pos
  {
    if pos == |src| {
      bits := [];
    } else {
      hide BitText;
      var x := BitAt(src, pos);
      HasEnd(src, pos, BitText(x));
      var from := pos + |BitText(x)|;
      var rest: seq<Bit> := [];
      if After(x, depth) > 0 { rest := BlockParses(src, from, After(x, depth)); }
      bits := [x] + rest;
      assert bits[1..] == rest;
      BlockMore(src, pos, depth, x, rest);
    }
  }

  lemma BlockMore(src: bytes, pos: nat, depth: nat, x: Bit, rest: seq<Bit>)
    requires depth > 0 && Has(src, pos, BitText(x)) && Alone(src, pos, x)
    requires if After(x, depth) > 0 then BlockStands(src, pos + |BitText(x)|, After(x, depth), rest) else rest == []
    ensures BlockStands(src, pos, depth, [x] + rest)
  {
    var bits := [x] + rest;
    assert bits[0] == x && bits[1..] == rest;
    var from := pos + |BitText(x)|;
    if |rest| > 0 { HasByte(src, from, BitsText(rest), 0); }
    if |rest| == 0 { assert Has(src, from, []); }
    HasJoin(src, pos, BitText(x), BitsText(rest));
  }

  // ------------------------------------------------------------------------------ layout

  /** What may stand between tokens. */
  datatype Gap = Blank(b: byte) | Line(text: bytes) | Block(bits: seq<Bit>)

  function GapText(g: Gap): (s: bytes)
    ensures |s| > 0
  {
    match g
    case Blank(b) => [b]
    case Line(text) => [SLASH, SLASH] + text
    case Block(bits) => [SLASH, STAR] + BitsText(bits)
  }

  predicate OneLine(text: bytes) {
    forall i :: 0 <= i < |text| ==> text[i] != NL
  }

  /** The white space or comment `g` stands at `pos`, and ends where it ends. */
  ghost predicate GapStands(src: bytes, pos: nat, g: Gap) {
    Has(src, pos, GapText(g)) &&
    match g
    case Blank(b) => Whitespace(b)
    case Line(text) => OneLine(text) && (var end := pos + 2 + |text|; end < |src| ==> src[end] == NL)
    case Block(bits) => BlockStands(src, pos + 2, 1, bits)
  }

  lemma {:induction false} LineEnds(src: bytes, pos: nat, text: bytes)
    requires OneLine(text) && Has(src, pos, text) && (pos + |text| < |src| ==> src[pos + |text|] == NL)
    ensures LineEnd(src, pos) == pos + |text|
    decreases |text|
  {
    if |text| > 0 {
      HasByte(src, pos, text, 0);
      assert text == [text[0]] + text[1..];
      HasSplit(src, pos, [text[0]], text[1..]);
      LineEnds(src, pos + 1, text[1..]);
    }
  }

  lemma {:induction false} LineParses(src: bytes, pos: nat)
    requires pos <= |src|
    ensures var end := LineEnd(src, pos); OneLine(src[pos..end]) && (end < |src| ==> src[end] == NL)
    decreases |src| - pos
  {
    var end := LineEnd(src, pos);
    if end > pos {
      LineParses(src, pos + 1);
      assert src[pos..end] == [src[pos]] + src[pos + 1..end];
    }
  }

  lemma BlankReads(src: bytes, pos: nat, b: byte)
    requires GapStands(src, pos, Blank(b))
    ensures pos < |src| && Whitespace(src[pos])
  {
    HasByte(src, pos, [b], 0);
  }

  lemma SlashesOneLine(text: bytes)
    requires OneLine(text)
    ensures OneLine([SLASH, SLASH] + text)
  {
  }

  lemma LineComment(src: bytes, pos: nat)
    requires Opens(src, pos, SLASH)
    ensures CommentEnd(src, pos) == Some(LineEnd(src, pos))
  {
    hide LineEnd, BlockEnd;
  }

  lemma LineParts(src: bytes, pos: nat, text: bytes)
    requires GapStands(src, pos, Line(text))
    ensures Has(src, pos, [SLASH, SLASH] + text) && OneLine(text)
    ensures pos + 2 + |text| < |src| ==> src[pos + 2 + |text|] == NL
  {
    hide Has, OneLine;
  }

  lemma LineReads(src: bytes, pos: nat, text: bytes)
    requires GapStands(src, pos, Line(text))
    ensures pos < |src| && src[pos] == SLASH && CommentEnd(src, pos) == Some(pos + 2 + |text|)
  {
    hide LineEnd, CommentEnd, OneLine, GapStands, Has;
    var s := [SLASH, SLASH] + text;
    LineParts(src, pos, text);
    HasEnd(src, pos, s);
    HasByte(src, pos, s, 0);
    HasByte(src, pos, s, 1);
    SlashesOneLine(text);
    LineEnds(src, pos, s);
    LineComment(src, pos);
  }

  lemma BlockComment(src: bytes, pos: nat)
    requires Opens(src, pos, STAR)
    ensures CommentEnd(src, pos) == Some(BlockEnd(src, pos + 2, 1))
  {
    hide LineEnd, BlockEnd;
  }

  lemma BlockCommentReads(src: bytes, pos: nat, bits: seq<Bit>)
    requires GapStands(src, pos, Block(bits))
    ensures pos < |src| && src[pos] == SLASH && CommentEnd(src, pos) == Some(pos + 2 + |BitsText(bits)|)
  {
    hide BlockEnd, BlockStands, CommentEnd, BitsText;
    var s := [SLASH, STAR] + BitsText(bits);
    HasByte(src, pos, s, 0);
    HasByte(src, pos, s, 1);
    BlockReads(src, pos + 2, 1, bits);
    BlockComment(src, pos);
  }

  /** Comments nested in a comment, as a tree, with no slash or star outside the marks. */
  datatype Nest = Text(b: byte) | Nested(body: seq<Nest>)

  function NestsText(nests: seq<Nest>): bytes
    decreases nests
  {
    if |nests| == 0 then [] else NestText(nests[0]) + NestsText(nests[1..])
  }

  function NestText(n: Nest): bytes
    decreases n
  {
    match n
    case Text(b) => [b]
    case Nested(body) => [SLASH, STAR] + NestsText(body) + [STAR, SLASH]
  }

  predicate NoMarks(nests: seq<Nest>)
    decreases nests
  {
    |nests| > 0 ==> NoMark(nests[0]) && NoMarks(nests[1..])
  }

  predicate NoMark(n: Nest)
    decreases n
  {
    match n
    case Text(b) => b != SLASH && b != STAR
    case Nested(body) => NoMarks(body)
  }

  /** Nested comments of any depth are passed over as one, with the same number of levels left open. */
  lemma {:induction false} NestsPass(src: bytes, pos: nat, depth: nat, nests: seq<Nest>)
    requires NoMarks(nests) && depth > 0 && Has(src, pos, NestsText(nests))
    ensures BlockEnd(src, pos, depth) == BlockEnd(src, pos + |NestsText(nests)|, depth)
    decreases nests, 0
  {
    hide BlockEnd, Has;
    HasEnd(src, pos, NestsText(nests));
    if |nests| > 0 {
      HasSplit(src, pos, NestText(nests[0]), NestsText(nests[1..]));
      NestPasses(src, pos, depth, nests[0]);
      NestsPass(src, pos + |NestText(nests[0])|, depth, nests[1..]);
    }
  }

  lemma {:induction false} NestPasses(src: bytes, pos: nat, depth: nat, n: Nest)
    requires NoMark(n) && depth > 0 && Has(src, pos, NestText(n))
    ensures BlockEnd(src, pos, depth) == BlockEnd(src, pos + |NestText(n)|, depth)
    decreases n
  {
    hide BlockEnd, Has;
    match n
    case Text(b) =>
      BitFirst(src, pos, depth, Other(b));
    case Nested(body) =>
      HasSplit(src, pos, [SLASH, STAR] + NestsText(body), [STAR, SLASH]);
      HasSplit(src, pos, [SLASH, STAR], NestsText(body));
      BitFirst(src, pos, depth, Open);
      NestsPass(src, pos + 2, depth + 1, body);
      BitFirst(src, pos + 2 + |NestsText(body)|, depth + 1, Close);
  }

  /** A balanced block comment ends at its own closing mark. */
  lemma BlockCommentEnds(src: bytes, pos: nat, body: seq<Nest>)
    requires NoMarks(body) && Has(src, pos, NestText(Nested(body)))
    ensures CommentEnd(src, pos) == Some(pos + |NestText(Nested(body))|)
  {
    hide BlockEnd, CommentEnd;
    HasByte(src, pos, NestText(Nested(body)), 0);
    HasByte(src, pos, NestText(Nested(body)), 1);
    hide Has;
    var end := pos + 2 + |NestsText(body)|;
    HasSplit(src, pos, [SLASH, STAR] + NestsText(body), [STAR, SLASH]);
    HasSplit(src, pos, [SLASH, STAR], NestsText(body));
    NestsPass(src, pos + 2, 1, body);
    BitFirst(src, end, 1, Close);
    HasEnd(src, end, [STAR, SLASH]);
    BlockDone(src, end + 2, 0);
    BlockComment(src, pos);
  }

  /** The texts of the comments in it. */
  function GapComments(g: Gap): seq<bytes> {
    if g.Blank? then [] else [TrimEnd(GapText(g))]
  }

  lemma HasText(src: bytes, pos: nat, part: bytes)
    requires Has(src, pos, part)
    ensures pos + |part| <= |src| && src[pos..pos + |part|] == part
  {
  }

  function Texts(cs: seq<Comment>): (r: seq<bytes>)
    ensures |r| == |cs|
  {
    seq(|cs|, i requires 0 <= i < |cs| => cs[i].text)
  }

  /** A gap in front adds its comment to the trivia, and moves nothing else. */
  ghost predicate GapAdds(src: bytes, pos: nat, end: nat, texts: seq<bytes>)
    requires pos <= |src| && end <= |src|
  {
    var (all, rest) := (Trivia(src, pos), Trivia(src, end));
    all.1 == rest.1 && Texts(all.0) == texts + Texts(rest.0)
  }

  lemma CommentFirst(src: bytes, pos: nat, end: nat)
    requires pos < |src| && !Whitespace(src[pos]) && CommentEnd(src, pos) == Some(end)
    ensures GapAdds(src, pos, end, [TrimEnd(src[pos..end])])
  {
    hide CommentEnd, LineCol, TrimEnd;
    var rest := Trivia(src, end).0;
    assert Trivia(src, pos).0 == [CommentOf(src, pos, end)] + rest;
    assert Texts([CommentOf(src, pos, end)] + rest) == [TrimEnd(src[pos..end])] + Texts(rest);
  }

  lemma BlankFirst(src: bytes, pos: nat)
    requires pos < |src| && Whitespace(src[pos])
    ensures GapAdds(src, pos, pos + 1, [])
  {
    hide CommentEnd, LineCol;
    assert Trivia(src, pos) == Trivia(src, pos + 1);
    assert [] + Texts(Trivia(src, pos).0) == Texts(Trivia(src, pos).0);
  }

  lemma GapReads(src: bytes, pos: nat, g: Gap)
    requires GapStands(src, pos, g)
    ensures var end := pos + |GapText(g)|; pos < end <= |src| && GapAdds(src, pos, end, GapComments(g))
  {
    hide CommentEnd, GapAdds, BlockStands;
    HasText(src, pos, GapText(g));
    match g
    case Blank(b) =>
      BlankReads(src, pos, b);
      BlankFirst(src, pos);
    case Line(text) =>
      LineReads(src, pos, text);
      CommentFirst(src, pos, pos + |GapText(g)|);
    case Block(bits) =>
      BlockCommentReads(src, pos, bits);
      CommentFirst(src, pos, pos + |GapText(g)|);
  }

  lemma SlashesHas(src: bytes, pos: nat, end: nat)
    requires Opens(src, pos, SLASH) && pos + 2 <= end <= |src|
    ensures Has(src, pos, [SLASH, SLASH] + src[pos + 2..end])
  {
    assert src[pos..pos + 2] == [SLASH, SLASH];
    HasJoin(src, pos, [SLASH, SLASH], src[pos + 2..end]);
  }

  lemma LineGap(src: bytes, pos: nat)
    requires Opens(src, pos, SLASH)
    ensures GapStands(src, pos, Line(src[pos + 2..LineEnd(src, pos + 2)]))
  {
    hide LineEnd, OneLine, Has;
    LineParses(src, pos + 2);
    SlashesHas(src, pos, LineEnd(src, pos + 2));
  }

  lemma BlockGap(src: bytes, pos: nat) returns (g: Gap)
    requires Opens(src, pos, STAR)
    ensures GapStands(src, pos, g)
  {
    hide BlockStands;
    var bits := BlockParses(src, pos + 2, 1);
    g := Block(bits);
    assert src[pos..pos + 2] == [SLASH, STAR];
    BlockHas(src, pos + 2, bits);
    HasJoin(src, pos, [SLASH, STAR], BitsText(bits));
  }

  lemma GapParses(src: bytes, pos: nat) returns (g: Gap)
    requires pos < |src| && (Whitespace(src[pos]) || CommentEnd(src, pos).Some?)
    ensures GapStands(src, pos, g)
  {
    hide GapStands, BlockEnd, LineEnd;
    if Whitespace(src[pos]) {
      g := Blank(src[pos]);
      BlankGap(src, pos);
    } else if Opens(src, pos, SLASH) {
      g := Line(src[pos + 2..LineEnd(src, pos + 2)]);
      LineGap(src, pos);
    } else {
      g := BlockGap(src, pos);
    }
  }

  lemma BlankGap(src: bytes, pos: nat)
    requires pos < |src| && Whitespace(src[pos])
    ensures GapStands(src, pos, Blank(src[pos]))
  {
    assert src[pos..pos + 1] == [src[pos]];
  }

  lemma BlockHas(src: bytes, pos: nat, bits: seq<Bit>)
    requires BlockStands(src, pos, 1, bits)
    ensures Has(src, pos, BitsText(bits))
  {
    hide Has;
  }
}
