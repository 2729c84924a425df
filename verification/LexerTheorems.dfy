/** Lexing loses nothing: tokens and comments tile the text, and only whitespace is left between them. */
module LexerTheorems {
  import opened WireBasics
  import opened LexerSpec

  predicate Inside(s: Span, lo: nat, hi: nat) {
    lo <= s.start.offset < s.end.offset <= hi
  }

  predicate Before(a: Span, b: Span) {
    a.end.offset <= b.start.offset
  }

  /** Every span lies between `lo` and `hi`, and each ends before the next begins. */
  ghost predicate Ordered(spans: seq<Span>, lo: nat, hi: nat) {
    && (forall i :: 0 <= i < |spans| ==> Inside(spans[i], lo, hi))
    && (forall i, j :: 0 <= i < j < |spans| ==> Before(spans[i], spans[j]))
  }

  ghost predicate Apart(a: seq<Span>, b: seq<Span>) {
    forall i, j :: 0 <= i < |a| && 0 <= j < |b| ==> Before(a[i], b[j]) || Before(b[j], a[i])
  }

  ghost predicate Covers(spans: seq<Span>, k: nat) {
    exists i :: 0 <= i < |spans| && spans[i].start.offset <= k < spans[i].end.offset
  }

  function TokenSpans(ts: seq<Token>): (r: seq<Span>)
    ensures |r| == |ts| && forall i :: 0 <= i < |ts| ==> r[i] == ts[i].span
  {
    seq(|ts|, i requires 0 <= i < |ts| => ts[i].span)
  }

  function CommentSpans(cs: seq<Comment>): (r: seq<Span>)
    ensures |r| == |cs| && forall i :: 0 <= i < |cs| ==> r[i] == cs[i].span
  {
    seq(|cs|, i requires 0 <= i < |cs| => cs[i].span)
  }

  /** The positions in a span are those of its offsets. */
  predicate Located(src: bytes, s: Span) {
    && s.start.offset <= |src| && s.end.offset <= |src|
    && s.start == PosOf(src, s.start.offset) && s.end == PosOf(src, s.end.offset)
  }

  ghost predicate AllLocated(src: bytes, spans: seq<Span>) {
    forall i :: 0 <= i < |spans| ==> Located(src, spans[i])
  }

  /** Between `lo` and `hi` the spans of `a` and `b` are disjoint, in order, and leave out only whitespace. */
  ghost predicate Tiles(src: bytes, a: seq<Span>, b: seq<Span>, lo: nat, hi: nat) {
    && hi <= |src| && Ordered(a, lo, hi) && Ordered(b, lo, hi) && Apart(a, b)
    && (forall k :: lo <= k < hi && !Covers(a, k) && !Covers(b, k) ==> Whitespace(src[k]))
  }

  lemma TilesNothing(src: bytes, pos: nat)
    requires pos <= |src|
    ensures Tiles(src, [], [], pos, pos)
  {
  }

  lemma OrderedJoin(a: seq<Span>, b: seq<Span>, lo: nat, mid: nat, hi: nat)
    requires Ordered(a, lo, mid) && Ordered(b, mid, hi) && lo <= mid <= hi
    ensures Ordered(a + b, lo, hi)
  {
  }

  lemma CoversJoin(a: seq<Span>, b: seq<Span>, k: nat)
    ensures Covers(a + b, k) <==> Covers(a, k) || Covers(b, k)
  {
    var s := a + b;
    if Covers(a, k) {
      var i :| 0 <= i < |a| && a[i].start.offset <= k < a[i].end.offset;
      assert s[i] == a[i];
    }
    if Covers(b, k) {
      var i :| 0 <= i < |b| && b[i].start.offset <= k < b[i].end.offset;
      assert s[|a| + i] == b[i];
    }
  }

  lemma ApartJoin(a: seq<Span>, b: seq<Span>, a': seq<Span>, b': seq<Span>, lo: nat, mid: nat, hi: nat)
    requires Apart(a, b) && Apart(a', b')
    requires Ordered(a, lo, mid) && Ordered(b, lo, mid) && Ordered(a', mid, hi) && Ordered(b', mid, hi)
    ensures Apart(a + a', b + b')
  {
    var (s, t) := (a + a', b + b');
    forall i, j | 0 <= i < |s| && 0 <= j < |t|
      ensures Before(s[i], t[j]) || Before(t[j], s[i])
    {
      if i < |a| && j >= |b| {
        assert Inside(a[i], lo, mid) && Inside(b'[j - |b|], mid, hi);
      } else if i >= |a| && j < |b| {
        assert Inside(a'[i - |a|], mid, hi) && Inside(b[j], lo, mid);
      } else if i < |a| {
        assert Before(a[i], b[j]) || Before(b[j], a[i]);
      } else {
        assert Before(a'[i - |a|], b'[j - |b|]) || Before(b'[j - |b|], a'[i - |a|]);
      }
    }
  }

  lemma TilesJoin(src: bytes, a: seq<Span>, b: seq<Span>, a': seq<Span>, b': seq<Span>, lo: nat, mid: nat, hi: nat)
    requires Tiles(src, a, b, lo, mid) && Tiles(src, a', b', mid, hi) && lo <= mid <= hi
    ensures Tiles(src, a + a', b + b', lo, hi)
  {
    hide Apart, Ordered, Covers;
    OrderedJoin(a, a', lo, mid, hi);
    OrderedJoin(b, b', lo, mid, hi);
    ApartJoin(a, b, a', b', lo, mid, hi);
    forall k | lo <= k < hi && !Covers(a + a', k) && !Covers(b + b', k)
      ensures Whitespace(src[k])
    {
      CoversJoin(a, a', k);
      CoversJoin(b, b', k);
    }
  }

  lemma TilesSpace(src: bytes, pos: nat)
    requires pos < |src| && Whitespace(src[pos])
    ensures Tiles(src, [], [], pos, pos + 1)
  {
  }

  lemma TilesToken(src: bytes, a: nat, b: nat)
    requires a < b <= |src|
    ensures Tiles(src, [SpanOf(src, a, b)], [], a, b) && Tiles(src, [], [SpanOf(src, a, b)], a, b)
  {
    var one := [SpanOf(src, a, b)];
    forall k | a <= k < b
      ensures Covers(one, k)
    {
      assert one[0].start.offset <= k < one[0].end.offset;
    }
  }

  lemma {:induction false} TriviaTiles(src: bytes, pos: nat)
    requires pos <= |src|
    ensures var (comments, next) := Trivia(src, pos);
            Tiles(src, [], CommentSpans(comments), pos, next) && AllLocated(src, CommentSpans(comments))
    decreases |src| - pos
  {
    hide Tiles, CommentEnd;
    var (comments, next) := Trivia(src, pos);
    var none: seq<Span> := [];
    assert none + none == none;
    if pos < |src| && Whitespace(src[pos]) {
      TriviaTiles(src, pos + 1);
      TilesSpace(src, pos);
      TilesJoin(src, none, none, none, CommentSpans(comments), pos, pos + 1, next);
      assert none + CommentSpans(comments) == CommentSpans(comments);
    } else if pos < |src| && CommentEnd(src, pos).Some? {
      var end := CommentEnd(src, pos).value;
      TriviaTiles(src, end);
      var rest := Trivia(src, end).0;
      TilesToken(src, pos, end);
      TilesJoin(src, none, [SpanOf(src, pos, end)], none, CommentSpans(rest), pos, end, next);
      assert [SpanOf(src, pos, end)] + CommentSpans(rest) == CommentSpans(comments);
    } else {
      TilesNothing(src, pos);
      assert CommentSpans(comments) == none;
    }
  }

  lemma {:induction false} LexTiles(src: bytes, pos: nat)
    requires pos <= |src| && Lex(src, pos).Success?
    ensures var (tokens, comments) := Lex(src, pos).value;
            && Tiles(src, TokenSpans(tokens), CommentSpans(comments), pos, |src|)
            && AllLocated(src, TokenSpans(tokens)) && AllLocated(src, CommentSpans(comments))
    decreases |src| - pos
  {
    hide Tiles, KindAt, Trivia, Located;
    var (before, start) := Trivia(src, pos);
    TriviaTiles(src, pos);
    var none: seq<Span> := [];
    var (tokens, comments) := Lex(src, pos).value;
    if start == |src| {
      assert TokenSpans(tokens) == none;
    } else {
      var end := KindAt(src, start).value.1;
      LexTiles(src, end);
      var (tokens', comments') := Lex(src, end).value;
      var one := [SpanOf(src, start, end)];
      TilesToken(src, start, end);
      TilesJoin(src, none, CommentSpans(before), one, none, pos, start, end);
      assert none + one == one && CommentSpans(before) + none == CommentSpans(before);
      TilesJoin(src, one, CommentSpans(before), TokenSpans(tokens'), CommentSpans(comments'), pos, end, |src|);
      assert one + TokenSpans(tokens') == TokenSpans(tokens);
      assert CommentSpans(before) + CommentSpans(comments') == CommentSpans(comments);
      SpanLocated(src, start, end);
    }
  }

  lemma SpanLocated(src: bytes, a: nat, b: nat)
    requires a <= |src| && b <= |src|
    ensures Located(src, SpanOf(src, a, b))
  {
  }

  /** The offset can be told from the line and the column: distinct offsets have distinct positions. */
  lemma {:induction false} PositionsIncrease(src: bytes, a: nat, b: nat)
    requires a < b <= |src|
    ensures var ((l, c), (l', c')) := (LineCol(src, a), LineCol(src, b)); l < l' || (l == l' && c < c')
    decreases b
  {
    if a < b - 1 { PositionsIncrease(src, a, b - 1); }
  }
}
