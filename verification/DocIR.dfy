/** Paragraph blocks and their positions. A text is cut at blank-line separators, each piece is
    stripped, empty pieces are dropped, and every paragraph is then searched for in the text from
    the end of the one before it. */
module DocIR {
  import opened Text

  /** A separator found by the splitting expression: a span of white space. */
  datatype Span = Span(from: nat, to: nat)

  datatype Block = Block(id: nat, text: string, charFrom: nat, charTo: nat)

  ghost predicate Blank(text: string, from: nat, to: nat, ws: char -> bool) {
    forall i :: from <= i < to && i < |text| ==> ws(text[i])
  }

  /** The separators are in order, within the text, and white space only. */
  ghost predicate AreSeparators(text: string, from: nat, spans: seq<Span>, ws: char -> bool)
    decreases spans
  {
    if spans == [] then from <= |text|
    else
      && from <= spans[0].from <= spans[0].to <= |text|
      && Blank(text, spans[0].from, spans[0].to, ws)
      && AreSeparators(text, spans[0].to, spans[1..], ws)
  }

  /** Where the piece text[from..to] lies once stripped. */
  function Stripped(text: string, from: nat, to: nat, ws: char -> bool): (r: Span)
    requires from <= to <= |text|
    ensures from <= r.from <= r.to <= to
  {
    var piece := text[from..to];
    StripIs(piece, ws);
    Span(from + Leading(piece, ws), from + Leading(piece, ws) + |Strip(piece, ws)|)
  }

  lemma StrippedIs(text: string, from: nat, to: nat, ws: char -> bool)
    requires from <= to <= |text|
    ensures
      var r := Stripped(text, from, to, ws);
      && text[r.from..r.to] == Strip(text[from..to], ws)
      && Blank(text, from, r.from, ws) && Blank(text, r.to, to, ws)
      && (r.from < r.to ==> !ws(text[r.from]) && !ws(text[r.to - 1]))
  {
    hide Strip, Leading;
    var piece := text[from..to];
    StripIs(piece, ws);
    assert forall i :: from <= i < to ==> text[i] == piece[i - from];
  }

  /** Where the non-empty stripped pieces lie. */
  function Pieces(text: string, from: nat, spans: seq<Span>, ws: char -> bool): seq<Span>
    requires AreSeparators(text, from, spans, ws)
    decreases spans
  {
    var to := if spans == [] then |text| else spans[0].from;
    var piece := Stripped(text, from, to, ws);
    (if piece.from < piece.to then [piece] else []) +
    if spans == [] then [] else Pieces(text, spans[0].to, spans[1..], ws)
  }

  /** The paragraphs as the splitter sees them: texts without positions. */
  function Texts(text: string, pieces: seq<Span>): (r: seq<string>)
    ensures |r| == |pieces|
  {
    seq(|pieces|, i requires 0 <= i < |pieces| => TextOf(text, pieces[i]))
  }

  function TextOf(text: string, p: Span): string {
    if p.from <= p.to <= |text| then text[p.from..p.to] else ""
  }

  /** Pieces lie in order between `from` and the end, each starts and ends with a character that is
      not white space, and everything between them is white space. */
  ghost predicate Tiles(text: string, from: nat, pieces: seq<Span>, ws: char -> bool)
    decreases pieces
  {
    if pieces == [] then from <= |text| && Blank(text, from, |text|, ws)
    else
      var p := pieces[0];
      && from <= p.from < p.to <= |text|
      && Blank(text, from, p.from, ws)
      && !ws(text[p.from]) && !ws(text[p.to - 1])
      && Tiles(text, p.to, pieces[1..], ws)
  }

  lemma {:induction false} TilesEarlier(text: string, from: nat, later: nat, pieces: seq<Span>, ws: char -> bool)
    requires from <= later && Blank(text, from, later, ws) && Tiles(text, later, pieces, ws)
    ensures Tiles(text, from, pieces, ws)
  {
  }

  /** One stripped piece in front of a tiling. */
  lemma PieceTiles(text: string, from: nat, to: nat, rest: seq<Span>, ws: char -> bool)
    requires from <= to && Tiles(text, to, rest, ws) && to <= |text|
    ensures
      var piece := Stripped(text, from, to, ws);
      Tiles(text, from, (if piece.from < piece.to then [piece] else []) + rest, ws)
  {
    var piece := Stripped(text, from, to, ws);
    StrippedIs(text, from, to, ws);
    TilesEarlier(text, piece.to, to, rest, ws);
    if piece.from < piece.to {
      assert ([piece] + rest)[1..] == rest;
    } else {
      TilesEarlier(text, from, piece.from, rest, ws);
      assert [] + rest == rest;
    }
  }

  lemma {:induction false} PiecesTile(text: string, from: nat, spans: seq<Span>, ws: char -> bool)
    requires AreSeparators(text, from, spans, ws)
    ensures Tiles(text, from, Pieces(text, from, spans, ws), ws)
    decreases spans
  {
    if spans == [] {
      PieceTiles(text, from, |text|, [], ws);
    } else {
      PiecesTile(text, spans[0].to, spans[1..], ws);
      var rest := Pieces(text, spans[0].to, spans[1..], ws);
      TilesEarlier(text, spans[0].from, spans[0].to, rest, ws);
      PieceTiles(text, from, spans[0].from, rest, ws);
    }
  }

  lemma {:induction false} TilesBounds(text: string, from: nat, pieces: seq<Span>, ws: char -> bool)
    requires Tiles(text, from, pieces, ws)
    ensures forall p :: p in pieces ==> from <= p.from < p.to <= |text|
    decreases pieces
  {
    if pieces != [] {
      TilesBounds(text, pieces[0].to, pieces[1..], ws);
    }
  }

  // ----- searching ----------------------------------------------------------

  predicate FoundAt(text: string, pattern: string, i: int) {
    0 <= i && i + |pattern| <= |text| && text[i..i + |pattern|] == pattern
  }

  /** Index of the first occurrence at or after `from`, or -1. */
  function Find(text: string, pattern: string, from: nat): int
    decreases |text| - from
  {
    if from + |pattern| > |text| then -1
    else if FoundAt(text, pattern, from) then from
    else if from >= |text| then -1
    else Find(text, pattern, from + 1)
  }

  lemma {:induction false} FindIs(text: string, pattern: string, from: nat, at: nat)
    requires from <= at && FoundAt(text, pattern, at)
    ensures from <= Find(text, pattern, from) <= at && FoundAt(text, pattern, Find(text, pattern, from))
    decreases |text| - from
  {
    if !FoundAt(text, pattern, from) {
      FindIs(text, pattern, from + 1, at);
    }
  }

  /** A paragraph is found where it was cut from: it cannot occur earlier, because it starts with a
      character that is not white space and only white space lies before it. */
  lemma FindsItsPlace(text: string, offset: nat, p: Span, ws: char -> bool)
    requires offset <= p.from < p.to <= |text| && Blank(text, offset, p.from, ws) && !ws(text[p.from])
    ensures Find(text, text[p.from..p.to], offset) == p.from
  {
    var pattern := text[p.from..p.to];
    FindIs(text, pattern, offset, p.from);
    var r := Find(text, pattern, offset);
    assert text[r] == text[r..r + |pattern|][0] == pattern[0] == text[p.from];
  }

  ghost predicate BlocksAt(text: string, pieces: seq<Span>, blocks: seq<Block>) {
    && |blocks| == |pieces|
    && forall i :: 0 <= i < |blocks| ==> IsBlock(text, pieces[i], i, blocks[i])
  }

  ghost predicate IsBlock(text: string, p: Span, id: nat, b: Block) {
    && b.id == id && b.charFrom == p.from && b.charTo == p.to
    && b.charFrom <= b.charTo <= |text| && b.text == text[b.charFrom..b.charTo]
  }

  lemma BlocksStep(text: string, pieces: seq<Span>, blocks: seq<Block>, b: Block)
    requires |blocks| < |pieces| && BlocksAt(text, pieces[..|blocks|], blocks)
    requires IsBlock(text, pieces[|blocks|], |blocks|, b)
    ensures BlocksAt(text, pieces[..|blocks| + 1], blocks + [b])
  {
  }

  /** Every paragraph becomes a block at its true position; the branch for a failed search is never
      taken. */
  method BuildBlocks(text: string, spans: seq<Span>, ws: char -> bool) returns (blocks: seq<Block>)
    requires AreSeparators(text, 0, spans, ws)
    ensures BlocksAt(text, Pieces(text, 0, spans, ws), blocks)
    ensures Tiles(text, 0, Pieces(text, 0, spans, ws), ws)
  {
    PiecesTile(text, 0, spans, ws);
    blocks := Locate(text, Pieces(text, 0, spans, ws), ws);
  }

  method Locate(text: string, pieces: seq<Span>, ghost ws: char -> bool) returns (blocks: seq<Block>)
    requires Tiles(text, 0, pieces, ws)
    ensures BlocksAt(text, pieces, blocks)
  {
    var paragraphs := Texts(text, pieces);
    blocks := [];
    var offset: nat := 0;
    for ordinal := 0 to |paragraphs|
      invariant offset <= |text| && Tiles(text, offset, pieces[ordinal..], ws)
      invariant |blocks| == ordinal && BlocksAt(text, pieces[..ordinal], blocks)
    {
      ghost var p := pieces[ordinal];
      assert pieces[ordinal..][0] == p && pieces[ordinal..][1..] == pieces[ordinal + 1..];
      FindsItsPlace(text, offset, p, ws);
      var start := Find(text, paragraphs[ordinal], offset);
      if start < 0 {
        start := offset;
      }
      var end := start + |paragraphs[ordinal]|;
      offset := end;
      BlocksStep(text, pieces, blocks, Block(ordinal, paragraphs[ordinal], start, end));
      blocks := blocks + [Block(ordinal, paragraphs[ordinal], start, end)];
    }
    assert pieces[..|paragraphs|] == pieces;
  }

  /** What the tiling says in terms of the blocks: they are disjoint and in order, and every
      character outside all of them is white space. */
  lemma {:induction false} OutsideIsBlank(text: string, from: nat, pieces: seq<Span>, ws: char -> bool, at: nat)
    requires Tiles(text, from, pieces, ws) && from <= at < |text|
    requires forall p :: p in pieces ==> !(p.from <= at < p.to)
    ensures ws(text[at])
    decreases pieces
  {
    if pieces != [] && pieces[0].to <= at {
      OutsideIsBlank(text, pieces[0].to, pieces[1..], ws, at);
    } else if pieces != [] {
      assert pieces[0] in pieces;
    }
  }

  lemma {:induction false} BlocksInOrder(text: string, from: nat, pieces: seq<Span>, ws: char -> bool, i: nat, j: nat)
    requires Tiles(text, from, pieces, ws) && i < j < |pieces|
    ensures pieces[i].to <= pieces[j].from
    decreases pieces
  {
    TilesBounds(text, pieces[0].to, pieces[1..], ws);
    if i == 0 {
      assert pieces[j] == pieces[1..][j - 1] && pieces[j] in pieces[1..];
    } else {
      BlocksInOrder(text, pieces[0].to, pieces[1..], ws, i - 1, j - 1);
    }
  }

  /** Both characters lie in one piece. */
  ghost predicate Together(pieces: seq<Span>, i: nat, j: nat) {
    exists k :: 0 <= k < |pieces| && pieces[k].from <= i < pieces[k].to && pieces[k].from <= j < pieces[k].to
  }

  /** A separator lies between two characters. */
  ghost predicate Separated(spans: seq<Span>, i: nat, j: nat) {
    exists k :: 0 <= k < |spans| && i < spans[k].from && spans[k].to <= j
  }

  /** The text is cut at the separators and nowhere else: two characters that are not white space lie in
      one block exactly when no separator lies between them. */
  lemma {:induction false} TogetherIff(text: string, from: nat, spans: seq<Span>, ws: char -> bool, i: nat, j: nat)
    requires AreSeparators(text, from, spans, ws)
    requires from <= i < j < |text| && !ws(text[i]) && !ws(text[j])
    ensures Together(Pieces(text, from, spans, ws), i, j) <==> !Separated(spans, i, j)
    decreases spans
  {
    hide Stripped;
    if spans == [] || j < spans[0].from {
      TogetherInFirst(text, from, spans, ws, i, j);
    } else if i < spans[0].from {
      assert !ws(text[i]) && i < spans[0].from <= spans[0].to <= j;
      ApartFromFirst(text, from, spans, ws, i, j);
    } else {
      TogetherIff(text, spans[0].to, spans[1..], ws, i, j);
      LaterSeparated(spans, i, j);
      var rest := Pieces(text, spans[0].to, spans[1..], ws);
      LaterTogether(Pieces(text, from, spans, ws), Stripped(text, from, spans[0].from, ws), rest, spans[0].from, i, j);
    }
  }

  lemma FirstHolds(text: string, from: nat, to: nat, ws: char -> bool, i: nat)
    requires from <= i < to <= |text| && !ws(text[i])
    ensures Stripped(text, from, to, ws).from <= i < Stripped(text, from, to, ws).to
  {
    StrippedIs(text, from, to, ws);
  }

  lemma TogetherInFirst(text: string, from: nat, spans: seq<Span>, ws: char -> bool, i: nat, j: nat)
    requires AreSeparators(text, from, spans, ws) && (spans == [] || j < spans[0].from)
    requires from <= i < j < |text| && !ws(text[i]) && !ws(text[j])
    ensures Together(Pieces(text, from, spans, ws), i, j) && !Separated(spans, i, j)
  {
    hide Stripped;
    var to := if spans == [] then |text| else spans[0].from;
    FirstHolds(text, from, to, ws, i);
    FirstHolds(text, from, to, ws, j);
    assert Pieces(text, from, spans, ws)[0] == Stripped(text, from, to, ws);
    if spans != [] {
      LaterSeparators(text, spans[0].to, spans[1..], ws);
      assert forall k :: 0 < k < |spans| ==> spans[k] == spans[1..][k - 1];
    }
  }

  lemma ApartFromFirst(text: string, from: nat, spans: seq<Span>, ws: char -> bool, i: nat, j: nat)
    requires AreSeparators(text, from, spans, ws) && spans != []
    requires from <= i < spans[0].from && spans[0].to <= j < |text|
    ensures !Together(Pieces(text, from, spans, ws), i, j) && Separated(spans, i, j)
  {
    hide Stripped;
    var pieces, rest := Pieces(text, from, spans, ws), Pieces(text, spans[0].to, spans[1..], ws);
    PiecesTile(text, spans[0].to, spans[1..], ws);
    TilesBounds(text, spans[0].to, rest, ws);
    forall k | 0 <= k < |pieces| ensures !(pieces[k].from <= i && j < pieces[k].to) {
      assert pieces[k] == Stripped(text, from, spans[0].from, ws) || pieces[k] in rest;
    }
  }

  lemma {:induction false} LaterSeparators(text: string, from: nat, spans: seq<Span>, ws: char -> bool)
    requires AreSeparators(text, from, spans, ws)
    ensures forall k :: 0 <= k < |spans| ==> from <= spans[k].from <= spans[k].to <= |text|
    decreases spans
  {
    if spans != [] {
      LaterSeparators(text, spans[0].to, spans[1..], ws);
      assert forall k :: 0 < k < |spans| ==> spans[k] == spans[1..][k - 1];
    }
  }

  lemma LaterTogether(pieces: seq<Span>, first: Span, rest: seq<Span>, to: nat, i: nat, j: nat)
    requires first.to <= to <= i < j && pieces == (if first.from < first.to then [first] else []) + rest
    ensures Together(pieces, i, j) <==> Together(rest, i, j)
  {
    var d := |pieces| - |rest|;
    assert forall k :: 0 <= k < |rest| ==> pieces[k + d] == rest[k];
    if k :| 0 <= k < |rest| && rest[k].from <= i < rest[k].to && rest[k].from <= j < rest[k].to {
      assert pieces[k + d] == rest[k];
    }
    if k :| 0 <= k < |pieces| && pieces[k].from <= i < pieces[k].to && pieces[k].from <= j < pieces[k].to {
      assert k >= d && rest[k - d] == pieces[k];
    }
  }

  lemma LaterSeparated(spans: seq<Span>, i: nat, j: nat)
    requires spans != [] && spans[0].from <= i
    ensures Separated(spans, i, j) <==> Separated(spans[1..], i, j)
  {
    if k :| 0 <= k < |spans| && i < spans[k].from && spans[k].to <= j {
      assert spans[1..][k - 1] == spans[k];
    }
    if k :| 0 <= k < |spans[1..]| && i < spans[1..][k].from && spans[1..][k].to <= j {
      assert spans[k + 1] == spans[1..][k];
    }
  }

  /** The fallback that treats the whole text as one paragraph is dead: when splitting leaves no
      paragraph, the text is all white space and there is nothing to fall back on. */
  lemma NoParagraphsMeansBlank(text: string, spans: seq<Span>, ws: char -> bool)
    requires AreSeparators(text, 0, spans, ws)
    ensures Pieces(text, 0, spans, ws) == [] <==> Blank(text, 0, |text|, ws)
  {
    PiecesTile(text, 0, spans, ws);
    var pieces := Pieces(text, 0, spans, ws);
    if pieces != [] {
      assert !ws(text[pieces[0].from]);
    }
  }
}
