/**
 Splitting sprite sheets into parts (game/assets-splitting/src): the emoticon and the skin splitter
 go over the rows of the sheet once and append a piece of every row to the buffer of its part
 (emoticon_split.rs, skin_split.rs), while `single_img` crops one rectangle (game_split.rs).

 Widths and columns are in bytes, four to a pixel.
 */
module SpriteSheets {
  import opened OrderedMaps

  /** `chunks_exact`: what is left after the last whole row is dropped. */
  function Rows<B>(file: seq<B>, pitch: nat): (r: seq<seq<B>>)
    requires pitch > 0
    ensures forall i :: 0 <= i < |r| ==> |r[i]| == pitch
    decreases |file|
  {
    if |file| < pitch then [] else [file[..pitch]] + Rows(file[pitch..], pitch)
  }

  /** `w` bytes of a row from column `x` on. */
  function Cut<B>(row: seq<B>, x: nat, w: nat): seq<B> {
    if x + w <= |row| then row[x..x + w] else []
  }

  datatype Rect = Rect(x: nat, y: nat, w: nat, h: nat)

  function Shorter(r: Rect): Rect
    requires r.h > 0
  {
    Rect(r.x, r.y, r.w, r.h - 1)
  }

  /** A rectangle of a sheet, row after row, as far as the sheet has rows. */
  function Crop<B>(rows: seq<seq<B>>, r: Rect): seq<B>
    decreases r.h
  {
    if r.h == 0 then []
    else Crop(rows, Shorter(r)) + if r.y + r.h - 1 < |rows| then Cut(rows[r.y + r.h - 1], r.x, r.w) else []
  }

  /** A piece of a row and the part it belongs to. */
  datatype Piece = Piece(part: nat, width: nat)

  /** Where piece `k` of a row starts; with the number of pieces, where the last one ends. */
  function Offset(pieces: seq<Piece>, k: nat): nat
    requires k <= |pieces|
  {
    if k == 0 then 0 else pieces[0].width + Offset(pieces[1..], k - 1)
  }

  function Total(pieces: seq<Piece>): nat {
    Offset(pieces, |pieces|)
  }

  lemma {:induction false} OffsetNext(pieces: seq<Piece>, k: nat)
    requires k < |pieces|
    ensures Offset(pieces, k + 1) == Offset(pieces, k) + pieces[k].width
  {
    if k == 0 {
    } else {
      OffsetNext(pieces[1..], k - 1);
    }
  }

  /** All bytes of a row, from a column on, that belong to a part. */
  function Strip<B>(row: seq<B>, from: nat, pieces: seq<Piece>, part: nat): seq<B>
    decreases |pieces|
  {
    if pieces == [] then []
    else (if pieces[0].part == part then Cut(row, from, pieces[0].width) else [])
         + Strip(row, from + pieces[0].width, pieces[1..], part)
  }

  /** Exactly one piece of the row belongs to the part, and it has this place. */
  ghost predicate HasPiece(pieces: seq<Piece>, part: nat, x: nat, w: nat) {
    exists k :: 0 <= k < |pieces| && IsPiece(pieces, k, part, x, w)
  }

  ghost predicate IsPiece(pieces: seq<Piece>, k: nat, part: nat, x: nat, w: nat)
    requires k < |pieces|
  {
    && pieces[k] == Piece(part, w) && Offset(pieces, k) == x
    && forall j :: 0 <= j < |pieces| && j != k ==> pieces[j].part != part
  }

  ghost predicate HasNoPiece(pieces: seq<Piece>, part: nat) {
    forall j :: 0 <= j < |pieces| ==> pieces[j].part != part
  }

  lemma {:induction false} StripOfNone<B>(row: seq<B>, from: nat, pieces: seq<Piece>, part: nat)
    requires HasNoPiece(pieces, part)
    ensures Strip(row, from, pieces, part) == []
    decreases |pieces|
  {
    if pieces == [] {
    } else {
      StripOfNone(row, from + pieces[0].width, pieces[1..], part);
    }
  }

  lemma {:induction false} StripOfPiece<B>(row: seq<B>, from: nat, pieces: seq<Piece>, k: nat, part: nat, x: nat,
                                           w: nat)
    requires k < |pieces| && IsPiece(pieces, k, part, x, w)
    ensures Strip(row, from, pieces, part) == Cut(row, from + x, w)
    decreases |pieces|
  {
    var tl := pieces[1..];
    if k == 0 {
      assert HasNoPiece(tl, part);
      StripOfNone(row, from + pieces[0].width, tl, part);
    } else {
      assert pieces[0].part != part;
      assert tl[k - 1] == pieces[k];
      forall j | 0 <= j < |tl| && j != k - 1 ensures tl[j].part != part { assert tl[j] == pieces[j + 1]; }
      StripOfPiece(row, from + pieces[0].width, tl, k - 1, part, x - pieces[0].width, w);
    }
  }

  // ---------------------------------------------------------------- the streaming splitters

  /** Row `y` has one piece of the part if the rectangle of the part covers the row, and none else. */
  ghost predicate RowFits(pieces: seq<Piece>, part: nat, r: Rect, y: nat) {
    if r.y <= y < r.y + r.h then HasPiece(pieces, part, r.x, r.w) else HasNoPiece(pieces, part)
  }

  ghost predicate AllFit(pieces: seq<Piece>, rects: seq<Rect>, y: nat) {
    && (forall k :: 0 <= k < |pieces| ==> pieces[k].part < |rects|)
    && (forall p :: 0 <= p < |rects| ==> RowFits(pieces, p, rects[p], y))
  }

  /** What one more row of the sheet adds to a crop. */
  lemma {:induction false} CropGrows<B>(rows: seq<seq<B>>, r: Rect, y: nat)
    requires y < |rows|
    ensures Crop(rows[..y + 1], r) == Crop(rows[..y], r) + if r.y <= y < r.y + r.h then Cut(rows[y], r.x, r.w) else []
    decreases r.h
  {
    if r.h == 0 {
    } else {
      var s := Shorter(r);
      CropGrows(rows, s, y);
      if y + 1 < r.y + r.h { CropBeyond(rows[..y + 1], r); }
      if y < r.y + r.h { CropBeyond(rows[..y], r); }
      assert y + 1 <= |rows| && rows[..y + 1][y] == rows[y];
    }
  }

  /** A row that the sheet does not have adds nothing. */
  lemma CropBeyond<B>(rows: seq<seq<B>>, r: Rect)
    requires r.h > 0 && |rows| < r.y + r.h
    ensures Crop(rows, r) == Crop(rows, Shorter(r))
  {
    assert Crop(rows, r) == Crop(rows, Shorter(r)) + [];
  }

  lemma RowCompleted<B>(rows: seq<seq<B>>, pieces: seq<Piece>, part: nat, r: Rect, y: nat)
    requires y < |rows| && RowFits(pieces, part, r, y)
    ensures Crop(rows[..y + 1], r) == Crop(rows[..y], r) + Strip(rows[y], 0, pieces, part)
  {
    CropGrows(rows, r, y);
    hide Crop, Strip;
    if r.y <= y < r.y + r.h {
      var k :| 0 <= k < |pieces| && IsPiece(pieces, k, part, r.x, r.w);
      StripOfPiece(rows[y], 0, pieces, k, part, r.x, r.w);
    } else {
      StripOfNone(rows[y], 0, pieces, part);
    }
  }

  lemma StripNext<B>(buffer: seq<B>, row: seq<B>, from: nat, pieces: seq<Piece>, k: nat, part: nat)
    requires k < |pieces|
    ensures buffer + Strip(row, from, pieces[k..], part)
         == (if pieces[k].part == part then buffer + Cut(row, from, pieces[k].width) else buffer)
            + Strip(row, from + pieces[k].width, pieces[k + 1..], part)
  {
    assert pieces[k..][1..] == pieces[k + 1..];
  }

  /** One row: the pieces are split off from the left and appended to the buffers of their parts. */
  method ExtendParts<B>(parts: seq<seq<B>>, row: seq<B>, pieces: seq<Piece>) returns (r: seq<seq<B>>)
    requires Total(pieces) <= |row| && forall k :: 0 <= k < |pieces| ==> pieces[k].part < |parts|
    ensures |r| == |parts| && forall p :: 0 <= p < |parts| ==> r[p] == parts[p] + Strip(row, 0, pieces, p)
  {
    r := parts;
    var rest, k := row, 0;
    ghost var from := 0;
    assert pieces[0..] == pieces;
    hide Strip;
    while k < |pieces|
      invariant k <= |pieces| && |r| == |parts|
      invariant from == Offset(pieces, k) <= |row| && rest == row[from..]
      invariant forall p :: 0 <= p < |parts| ==>
                  r[p] + Strip(row, from, pieces[k..], p) == parts[p] + Strip(row, 0, pieces, p)
    {
      var i, w := pieces[k].part, pieces[k].width;
      OffsetNext(pieces, k);
      OffsetsGrow(pieces, k + 1);
      assert rest[..w] == Cut(row, from, w);
      forall p | 0 <= p < |parts| { StripNext(r[p], row, from, pieces, k, p); }
      r, rest := r[i := r[i] + rest[..w]], rest[w..];
      from, k := from + w, k + 1;
    }
    forall p | 0 <= p < |parts| { StripOfNone(row, from, pieces[k..], p); }
  }

  lemma {:induction false} OffsetsGrow(pieces: seq<Piece>, k: nat)
    requires k <= |pieces|
    ensures Offset(pieces, k) <= Total(pieces)
    decreases |pieces| - k
  {
    if k < |pieces| {
      OffsetNext(pieces, k);
      OffsetsGrow(pieces, k + 1);
    }
  }

  /** Every part is the crop of its rectangle. */
  method SplitSheet<B>(rows: seq<seq<B>>, piecesOf: nat -> seq<Piece>, n: nat, ghost rects: seq<Rect>)
    returns (parts: seq<seq<B>>)
    requires |rects| == n
    requires forall y :: 0 <= y < |rows| ==> Total(piecesOf(y)) <= |rows[y]| && AllFit(piecesOf(y), rects, y)
    ensures |parts| == |rects| && forall p :: 0 <= p < |rects| ==> parts[p] == Crop(rows, rects[p])
  {
    parts := seq(n, _ => []);
    var y := 0;
    forall p | 0 <= p < |rects| { NothingCropped(rows, rects[p]); }
    hide Crop, Strip, RowFits, Total;
    while y < |rows|
      invariant y <= |rows| && |parts| == |rects|
      invariant forall p :: 0 <= p < |rects| ==> parts[p] == Crop(rows[..y], rects[p])
    {
      var pieces := piecesOf(y);
      parts := ExtendParts(parts, rows[y], pieces);
      forall p | 0 <= p < |rects| { RowCompleted(rows, pieces, p, rects[p], y); }
      y := y + 1;
    }
    assert rows[..y] == rows;
  }

  lemma {:induction false} NothingCropped<B>(rows: seq<seq<B>>, r: Rect)
    ensures Crop(rows[..0], r) == []
    decreases r.h
  {
    if r.h == 0 {
    } else {
      NothingCropped(rows, Shorter(r));
    }
  }

  // ---------------------------------------------------------------- the simple crop

  lemma MulStep(n: nat, m: nat)
    requires n > 0
    ensures n * m == (n - 1) * m + m
  {
  }

  lemma {:induction false} RowsFrom<B>(file: seq<B>, pitch: nat, n: nat)
    requires pitch > 0 && n * pitch <= |file|
    ensures n <= |Rows(file, pitch)| && Rows(file[n * pitch..], pitch) == Rows(file, pitch)[n..]
    decreases n
  {
    if n == 0 {
    } else {
      MulStep(n, pitch);
      MulMonotone(1, n, pitch);
      RowsFrom(file[pitch..], pitch, n - 1);
      assert file[pitch..][(n - 1) * pitch..] == file[n * pitch..];
      assert Rows(file, pitch) == [file[..pitch]] + Rows(file[pitch..], pitch);
    }
  }

  lemma {:induction false} RowsTo<B>(file: seq<B>, pitch: nat, n: nat)
    requires pitch > 0 && n * pitch <= |file|
    ensures n <= |Rows(file, pitch)| && Rows(file[..n * pitch], pitch) == Rows(file, pitch)[..n]
    decreases n
  {
    if n > 0 {
      MulStep(n, pitch);
      MulMonotone(1, n, pitch);
      RowsTo(file[pitch..], pitch, n - 1);
      assert file[..n * pitch][pitch..] == file[pitch..][..(n - 1) * pitch];
      assert file[..n * pitch][..pitch] == file[..pitch];
      assert Rows(file, pitch) == [file[..pitch]] + Rows(file[pitch..], pitch);
    } else {
      assert file[..0] == [];
    }
  }

  lemma {:induction false} LinesOf<B>(file: seq<B>, y: nat, h: nat, pitch: nat)
    requires pitch > 0 && y * pitch + h * pitch <= |file| && y * pitch <= |file|
    ensures y + h <= |Rows(file, pitch)|
    ensures Rows(file[y * pitch..][..h * pitch], pitch) == Rows(file, pitch)[y..y + h]
  {
    RowsFrom(file, pitch, y);
    RowsTo(file[y * pitch..], pitch, h);
  }

  lemma {:induction false} CropNext<B>(rows: seq<seq<B>>, x: nat, y: nat, w: nat, i: nat)
    requires y + i < |rows|
    ensures Crop(rows, Rect(x, y, w, i + 1)) == Crop(rows, Rect(x, y, w, i)) + Cut(rows[y + i], x, w)
  {
    var r := Rect(x, y, w, i + 1);
    assert Shorter(r) == Rect(x, y, w, i);
  }

  lemma CutTwice<B>(row: seq<B>, x: nat, w: nat)
    requires x + w <= |row|
    ensures row[x..][..w] == Cut(row, x, w)
  {
  }

  lemma CropNothing<B>(rows: seq<seq<B>>, x: nat, y: nat, w: nat)
    ensures Crop(rows, Rect(x, y, w, 0)) == []
  {
  }

  /** `single_img`: the lines of the rectangle are split off, then each line is cut. */
  method SingleImg<B>(file: seq<B>, x: nat, y: nat, subWidth: nat, subHeight: nat, pitch: nat) returns (res: seq<B>)
    requires pitch > 0 && y * pitch + subHeight * pitch <= |file|
    requires subHeight > 0 ==> x * 4 + subWidth * 4 <= pitch
    ensures res == Crop(Rows(file, pitch), Rect(x * 4, y, subWidth * 4, subHeight))
  {
    LinesOf(file, y, subHeight, pitch);
    ghost var rows := Rows(file, pitch);
    var chunks := Rows(file[y * pitch..][..subHeight * pitch], pitch);
    res := CutLines(rows, chunks, x, y, subWidth, subHeight, pitch);
  }

  method CutLines<B>(ghost rows: seq<seq<B>>, chunks: seq<seq<B>>, x: nat, y: nat, subWidth: nat, subHeight: nat,
                     pitch: nat)
    returns (res: seq<B>)
    requires y + subHeight <= |rows| && chunks == rows[y..y + subHeight]
    requires forall i :: 0 <= i < |chunks| ==> |chunks[i]| == pitch
    requires subHeight > 0 ==> x * 4 + subWidth * 4 <= pitch
    ensures res == Crop(rows, Rect(x * 4, y, subWidth * 4, subHeight))
  {
    hide Crop, Cut;
    CropNothing(rows, x * 4, y, subWidth * 4);
    res := [];
    var i := 0;
    while i < |chunks|
      invariant i <= |chunks| == subHeight
      invariant res == Crop(rows, Rect(x * 4, y, subWidth * 4, i))
    {
      CropNext(rows, x * 4, y, subWidth * 4, i);
      assert chunks[i] == rows[y + i];
      CutTwice(chunks[i], x * 4, subWidth * 4);
      res := res + chunks[i][x * 4..][..subWidth * 4];
      i := i + 1;
    }
  }

  // ---------------------------------------------------------------- emoticons

  function FourPieces(first: nat, w: nat): seq<Piece> {
    [Piece(first, w), Piece(first + 1, w), Piece(first + 2, w), Piece(first + 3, w)]
  }

  /** Which pieces a row of an emoticon sheet has: four bands of four emoticons. */
  function EmoticonPieces(y: nat, segmentHeight: nat, segmentFullWidth: nat): seq<Piece> {
    if y < segmentHeight then FourPieces(0, segmentFullWidth)
    else if y < segmentHeight * 2 then FourPieces(4, segmentFullWidth)
    else if y < segmentHeight * 3 then FourPieces(8, segmentFullWidth)
    else if y < segmentHeight * 4 then FourPieces(12, segmentFullWidth)
    else []
  }

  /** A grid of four by four. */
  function EmoticonRects(segmentHeight: nat, segmentFullWidth: nat): seq<Rect> {
    seq(16, p requires 0 <= p < 16 =>
      Rect(p % 4 * segmentFullWidth, p / 4 * segmentHeight, segmentFullWidth, segmentHeight))
  }

  lemma FourOffsets(first: nat, w: nat)
    ensures var pieces := FourPieces(first, w);
            && Offset(pieces, 1) == w && Offset(pieces, 2) == 2 * w && Offset(pieces, 3) == 3 * w
            && Total(pieces) == 4 * w
  {
    var pieces := FourPieces(first, w);
    OffsetNext(pieces, 0);
    OffsetNext(pieces, 1);
    OffsetNext(pieces, 2);
    OffsetNext(pieces, 3);
  }

  lemma FourFit(first: nat, w: nat, j: nat)
    requires j < 4
    ensures HasPiece(FourPieces(first, w), first + j, j * w, w)
  {
    FourOffsets(first, w);
    assert IsPiece(FourPieces(first, w), j, first + j, j * w, w);
  }

  lemma BandBounds(q: nat, h: nat, y: nat)
    requires q < 4
    ensures q * h <= y < q * h + h <==>
            if q == 0 then y < h
            else if q == 1 then h <= y < h * 2
            else if q == 2 then h * 2 <= y < h * 3
            else h * 3 <= y < h * 4
  {
  }

  lemma EmoticonFits(y: nat, segmentHeight: nat, segmentFullWidth: nat)
    ensures AllFit(EmoticonPieces(y, segmentHeight, segmentFullWidth),
                   EmoticonRects(segmentHeight, segmentFullWidth), y)
    ensures Total(EmoticonPieces(y, segmentHeight, segmentFullWidth)) <= 4 * segmentFullWidth
    ensures y < segmentHeight * 4 ==> Total(EmoticonPieces(y, segmentHeight, segmentFullWidth)) == 4 * segmentFullWidth
  {
    var h, w := segmentHeight, segmentFullWidth;
    var pieces, rects := EmoticonPieces(y, h, w), EmoticonRects(h, w);
    var band := if y < h then 0 else if y < h * 2 then 1 else if y < h * 3 then 2 else 3;
    FourOffsets(4 * band, w);
    forall p | 0 <= p < 16 ensures RowFits(pieces, p, rects[p], y) {
      var q, j := p / 4, p % 4;
      BandBounds(q, h, y);
      if y < h * 4 { FourFit(4 * band, w, j); }
    }
  }

  datatype Part<+B> = Part(data: seq<B>, width: nat, height: nat)

  /** Refuses a sheet that does not divide by four; width 0 makes rows of no bytes, and panics. */
  method SplitEmoticon<B>(file: seq<B>, width: nat, height: nat) returns (r: Option<seq<Part<B>>>)
    requires width > 0
    ensures r.None? <==> width % 4 != 0 || height % 4 != 0
    ensures r.Some? ==> var rects := EmoticonRects(height / 4, width);
              && |r.value| == 16
              && forall p :: 0 <= p < 16 ==>
                   r.value[p] == Part(Crop(Rows(file, width * 4), rects[p]), width / 4, height / 4)
  {
    if width % 4 != 0 || height % 4 != 0 { return None; }
    var segmentWidth, segmentHeight := width / 4, height / 4;
    var segmentFullWidth := segmentWidth * 4;
    var rows := Rows(file, width * 4);
    forall y | 0 <= y < |rows|
      ensures Total(EmoticonPieces(y, segmentHeight, segmentFullWidth)) <= |rows[y]|
      ensures AllFit(EmoticonPieces(y, segmentHeight, segmentFullWidth),
                   EmoticonRects(segmentHeight, segmentFullWidth), y)
    {
      EmoticonFits(y, segmentHeight, segmentFullWidth);
    }
    hide Crop, Rows, AllFit, Total, EmoticonPieces;
    var parts := SplitSheet(rows, (y: nat) => EmoticonPieces(y, segmentHeight, segmentFullWidth), 16,
                            EmoticonRects(segmentHeight, segmentFullWidth));
    r := Some(seq(16, p requires 0 <= p < |parts| => Part(parts[p], segmentWidth, segmentHeight)));
  }

  // ---------------------------------------------------------------- skins

  function SkinPieces(y: nat, segmentHeight: nat, w: nat): seq<Piece> {
    if y < segmentHeight * 3 then
      [Piece(0, w * 3), Piece(1, w * 3)]
      + (if y < segmentHeight then [Piece(2, w), Piece(3, w)]
         else if y < segmentHeight * 2 then [Piece(4, w * 2)]
         else [Piece(5, w * 2)])
    else
      [Piece(6, w * 2), Piece(7, w), Piece(8, w), Piece(9, w), Piece(10, w), Piece(11, w), Piece(12, w)]
  }

  /** Where the parts lie: body, body outline, hand, hand outline, foot, foot outline, watermark, and the
      eyes normal, angry, in pain, happy, dead and surprised. The last band has all rows that are left. */
  function SkinRects(h: nat, w: nat, last: nat): seq<Rect> {
    [Rect(0, 0, w * 3, h * 3), Rect(w * 3, 0, w * 3, h * 3), Rect(w * 6, 0, w, h), Rect(w * 7, 0, w, h),
     Rect(w * 6, h, w * 2, h), Rect(w * 6, h * 2, w * 2, h), Rect(0, h * 3, w * 2, last),
     Rect(w * 2, h * 3, w, last), Rect(w * 3, h * 3, w, last), Rect(w * 4, h * 3, w, last),
     Rect(w * 5, h * 3, w, last), Rect(w * 6, h * 3, w, last), Rect(w * 7, h * 3, w, last)]
  }

  /** The upper bands have three or four pieces, the lower one has seven. */
  lemma {:induction false} SkinOffsets(y: nat, h: nat, w: nat)
    ensures var pieces := SkinPieces(y, h, w);
            && Total(pieces) == w * 8 && Offset(pieces, 0) == 0
            && (y < h * 3 ==> Offset(pieces, 1) == w * 3 && Offset(pieces, 2) == w * 6
                              && (y < h ==> Offset(pieces, 3) == w * 7))
            && (y >= h * 3 ==> Offset(pieces, 1) == w * 2 && Offset(pieces, 2) == w * 3 && Offset(pieces, 3) == w * 4
                               && Offset(pieces, 4) == w * 5 && Offset(pieces, 5) == w * 6
                               && Offset(pieces, 6) == w * 7)
  {
    var pieces := SkinPieces(y, h, w);
    OffsetNext(pieces, 0);
    OffsetNext(pieces, 1);
    OffsetNext(pieces, 2);
    if y >= h * 3 || y < h { OffsetNext(pieces, 3); }
    if y >= h * 3 {
      OffsetNext(pieces, 4);
      OffsetNext(pieces, 5);
      OffsetNext(pieces, 6);
    }
  }

  lemma PieceAt(pieces: seq<Piece>, k: nat, part: nat, x: nat, w: nat)
    requires k < |pieces| && IsPiece(pieces, k, part, x, w)
    ensures HasPiece(pieces, part, x, w)
  {
  }

  lemma {:induction false} SkinFits(y: nat, h: nat, w: nat, last: nat, p: nat)
    requires y < h * 3 + last && p < 13
    ensures RowFits(SkinPieces(y, h, w), p, SkinRects(h, w, last)[p], y)
  {
    var pieces, rects := SkinPieces(y, h, w), SkinRects(h, w, last);
    SkinOffsets(y, h, w);
    hide Offset;
    if y >= h * 3 {
      if p >= 6 {
        var k: nat := p - 6;
        assert k == 0 || k == 1 || k == 2 || k == 3 || k == 4 || k == 5 || k == 6;
        PieceAt(pieces, k, p, rects[p].x, rects[p].w);
      }
    } else if p < 2 {
      PieceAt(pieces, p, p, rects[p].x, rects[p].w);
    } else if y < h {
      if p < 4 { PieceAt(pieces, p, p, rects[p].x, rects[p].w); }
    } else if y < h * 2 {
      if p == 4 { PieceAt(pieces, 2, 4, rects[4].x, rects[4].w); }
    } else {
      if p == 5 { PieceAt(pieces, 2, 5, rects[5].x, rects[5].w); }
    }
  }

  lemma {:induction false} SkinRowFits(y: nat, h: nat, w: nat, last: nat)
    requires y < h * 3 + last
    ensures AllFit(SkinPieces(y, h, w), SkinRects(h, w, last), y) && Total(SkinPieces(y, h, w)) == w * 8
  {
    SkinOffsets(y, h, w);
    hide RowFits, Offset;
    forall p | 0 <= p < 13 { SkinFits(y, h, w, last, p); }
  }

  /** The rectangles in a sheet with `n` rows. */
  function SheetRects(width: nat, height: nat, n: nat): (r: seq<Rect>)
    ensures |r| == 13
  {
    SkinRects(height / 4, width / 8 * 4, if n < height / 4 * 3 then 0 else n - height / 4 * 3)
  }

  lemma {:induction false} SheetRowFits(width: nat, height: nat, n: nat, y: nat)
    requires width % 8 == 0 && y < n
    ensures AllFit(SkinPieces(y, height / 4, width / 8 * 4), SheetRects(width, height, n), y)
    ensures Total(SkinPieces(y, height / 4, width / 8 * 4)) == width * 4
  {
    SkinRowFits(y, height / 4, width / 8 * 4, if n < height / 4 * 3 then 0 else n - height / 4 * 3);
  }

  /** Refuses a sheet that does not divide; otherwise the parts are the crops of their rectangles,
      those of the last band with all rows that are left. */
  method SplitSkin<B>(file: seq<B>, width: nat, height: nat) returns (r: Option<seq<seq<B>>>)
    requires width > 0
    ensures r.None? <==> width % 8 != 0 || height % 4 != 0
    ensures r.Some? ==> var rows := Rows(file, width * 4); var rects := SheetRects(width, height, |rows|);
              |r.value| == 13 && forall p :: 0 <= p < 13 ==> r.value[p] == Crop(rows, rects[p])
  {
    if width % 8 != 0 || height % 4 != 0 { return None; }
    hide Crop, Rows, AllFit, Total, SkinPieces, SheetRects;
    var segmentFullWidth, segmentHeight := width / 8 * 4, height / 4;
    var rows := Rows(file, width * 4);
    forall y | 0 <= y < |rows|
      ensures Total(SkinPieces(y, segmentHeight, segmentFullWidth)) <= |rows[y]|
      ensures AllFit(SkinPieces(y, segmentHeight, segmentFullWidth), SheetRects(width, height, |rows|), y)
    {
      SheetRowFits(width, height, |rows|, y);
    }
    var parts := SplitSheet(rows, (y: nat) => SkinPieces(y, segmentHeight, segmentFullWidth), 13,
                            SheetRects(width, height, |rows|));
    r := Some(parts);
  }

  // ---------------------------------------------------------------- nothing is lost or repeated

  /** The rectangle lies within the sheet. */
  ghost predicate Within<B>(rows: seq<seq<B>>, r: Rect) {
    r.y + r.h <= |rows| && forall i :: r.y <= i < r.y + r.h ==> r.x + r.w <= |rows[i]|
  }

  lemma {:induction false} CropLength<B>(rows: seq<seq<B>>, r: Rect)
    requires Within(rows, r)
    ensures |Crop(rows, r)| == r.h * r.w
    decreases r.h
  {
    if r.h == 0 {
    } else {
      CropLength(rows, Shorter(r));
      MulStep(r.h, r.w);
    }
  }

  lemma {:induction false} CutPrefix<B>(a: seq<B>, b: seq<B>, x: nat, w: nat)
    ensures x + w <= |a| ==> Cut(a + b, x, w) == Cut(a, x, w)
    ensures x == |a| && w == |b| ==> Cut(a + b, x, w) == b
  {
    if x + w <= |a| { assert (a + b)[x..x + w] == a[x..x + w]; }
  }

  lemma {:induction false} CropLast<B>(rows: seq<seq<B>>, r: Rect)
    requires Within(rows, r) && r.h > 0
    ensures Crop(rows, r) == Crop(rows, Shorter(r)) + Cut(rows[r.y + r.h - 1], r.x, r.w)
    ensures |Crop(rows, Shorter(r))| == (r.h - 1) * r.w && |Cut(rows[r.y + r.h - 1], r.x, r.w)| == r.w
    ensures Within(rows, Shorter(r))
  {
    CropLength(rows, Shorter(r));
  }

  /** Where sheet row `y` starts in the crop of a rectangle. */
  function RowStart(r: Rect, y: nat): nat {
    if y < r.y then 0 else (y - r.y) * r.w
  }

  lemma RowStartIs(r: Rect, i: nat)
    ensures RowStart(r, r.y + i) == i * r.w
  {
  }

  /** Every row of a crop can be found in it again. */
  lemma {:induction false} CropRow<B>(rows: seq<seq<B>>, r: Rect, i: nat)
    requires Within(rows, r) && i < r.h
    ensures Cut(Crop(rows, r), RowStart(r, r.y + i), r.w) == Cut(rows[r.y + i], r.x, r.w)
    decreases r.h
  {
    hide Crop, Cut, RowStart;
    CropLast(rows, r);
    CropRowIndex(i, r.h, r.w);
    RowStartIs(r, i);
    CutPrefix(Crop(rows, Shorter(r)), Cut(rows[r.y + r.h - 1], r.x, r.w), RowStart(r, r.y + i), r.w);
    if i < r.h - 1 {
      CropRow(rows, Shorter(r), i);
      RowStartIs(Shorter(r), i);
    }
  }

  lemma CropRowIndex(i: nat, h: nat, w: nat)
    requires i < h
    ensures if i < h - 1 then i * w + w <= (h - 1) * w else i * w == (h - 1) * w
  {
    MulStep(i + 1, w);
    if i < h - 1 { MulMonotone(i + 1, h - 1, w); }
  }

  // ---------------------------------------------------------------- bytes

  lemma {:induction false} RowsCount<B>(file: seq<B>, pitch: nat)
    requires pitch > 0
    ensures |Rows(file, pitch)| == |file| / pitch
    decreases |file|
  {
    if |file| < pitch {
      SmallQuotient(|file|, pitch);
    } else {
      RowsCount(file[pitch..], pitch);
      NextQuotient(|file| - pitch, pitch);
    }
  }

  /** Where the bytes of a row are in the file. */
  lemma {:induction false} RowByte<B>(file: seq<B>, pitch: nat, y: nat, x: nat, at: nat)
    requires pitch > 0 && y < |Rows(file, pitch)| && x < pitch && at == y * pitch + x
    ensures at < |file| && Rows(file, pitch)[y][x] == file[at]
    decreases y
  {
    if y == 0 {
    } else {
      MulStep(y, pitch);
      RowByte(file[pitch..], pitch, y - 1, x, at - pitch);
    }
  }

  lemma CutByte<B>(row: seq<B>, x: nat, w: nat, j: nat)
    requires x + w <= |row| && j < w
    ensures |Cut(row, x, w)| == w && Cut(row, x, w)[j] == row[x + j]
  {
  }

  lemma InnerIndex(i: nat, j: nat, h: nat, w: nat)
    requires i < h && j < w
    ensures i * w + j < h * w && i * w + w <= h * w
  {
    MulMonotone(i + 1, h, w);
    MulStep(i + 1, w);
  }

  lemma RectWithin<B>(file: seq<B>, pitch: nat, r: Rect)
    requires pitch > 0 && r.x + r.w <= pitch && (r.y + r.h) * pitch <= |file|
    ensures Within(Rows(file, pitch), r)
    ensures r.y + r.h <= |Rows(file, pitch)|
    ensures forall y :: 0 <= y < |Rows(file, pitch)| ==> |Rows(file, pitch)[y]| == pitch
  {
    RowsFrom(file, pitch, r.y + r.h);
    hide Rows;
  }

  /** Byte `j` of row `i` of a crop, and where it is in the file. */
  lemma {:induction false} CropByte<B>(file: seq<B>, pitch: nat, r: Rect, i: nat, j: nat, inner: nat, at: nat)
    requires pitch > 0 && i < r.h && j < r.w && r.x + r.w <= pitch && (r.y + r.h) * pitch <= |file|
    requires inner == i * r.w + j && at == (r.y + i) * pitch + r.x + j
    ensures |Crop(Rows(file, pitch), r)| == r.h * r.w
    ensures inner < |Crop(Rows(file, pitch), r)| && at < |file| && Crop(Rows(file, pitch), r)[inner] == file[at]
  {
    hide *;
    var rows := Rows(file, pitch);
    RectWithin(file, pitch, r);
    CropLength(rows, r);
    CropRow(rows, r, i);
    RowStartIs(r, i);
    InnerIndex(i, j, r.h, r.w);
    RowByte(file, pitch, r.y + i, r.x + j, at);
    CutByte(Crop(rows, r), i * r.w, r.w, j);
    CutByte(rows[r.y + i], r.x, r.w, j);
  }

  /** Byte `j` of row `i` of emoticon `p` of a whole sheet. */
  lemma {:induction false} EmoticonByte<B>(file: seq<B>, width: nat, height: nat, p: nat, i: nat, j: nat, inner: nat,
                                           at: nat)
    requires width > 0 && width % 4 == 0 && height % 4 == 0 && |file| >= height * (width * 4)
    requires p < 16 && i < height / 4 && j < width && inner == i * width + j
    requires at == (p / 4 * (height / 4) + i) * (width * 4) + p % 4 * width + j
    ensures var part := Crop(Rows(file, width * 4), EmoticonRects(height / 4, width)[p]);
            |part| == height / 4 * width && inner < |part| && at < |file| && part[inner] == file[at]
  {
    var r := EmoticonRects(height / 4, width)[p];
    GridFits(p, height / 4, width);
    hide Crop, Rows, EmoticonRects;
    MulMonotone(r.y + r.h, height, width * 4);
    CropByte(file, width * 4, r, i, j, inner, at);
  }

  lemma GridFits(p: nat, h: nat, w: nat)
    requires p < 16
    ensures p / 4 * h + h <= 4 * h && p % 4 * w + w <= 4 * w
  {
    MulMonotone(p / 4 + 1, 4, h);
    MulMonotone(p % 4 + 1, 4, w);
    MulStep(p / 4 + 1, h);
    MulStep(p % 4 + 1, w);
  }

  /** A row of the sheet, put together from the parts its pieces belong to. */
  function Rebuilt<B>(parts: seq<seq<B>>, rects: seq<Rect>, pieces: seq<Piece>, y: nat): seq<B>
    requires |parts| == |rects| && forall k :: 0 <= k < |pieces| ==> pieces[k].part < |rects|
    decreases |pieces|
  {
    if pieces == [] then []
    else
      var p := pieces[0].part;
      Cut(parts[p], RowStart(rects[p], y), rects[p].w) + Rebuilt(parts, rects, pieces[1..], y)
  }

  /** The piece that the rectangle of its part has in this row. */
  lemma {:induction false} PieceIsCropped<B>(rows: seq<seq<B>>, pieces: seq<Piece>, rects: seq<Rect>, y: nat, k: nat)
    requires y < |rows| && k < |pieces| && AllFit(pieces, rects, y) && Within(rows, rects[pieces[k].part])
    ensures var r := rects[pieces[k].part];
            && r.y <= y < r.y + r.h && r.w == pieces[k].width
            && Cut(Crop(rows, r), RowStart(r, y), r.w) == Cut(rows[y], Offset(pieces, k), pieces[k].width)
  {
    var p := pieces[k].part;
    assert RowFits(pieces, p, rects[p], y);
    assert HasPiece(pieces, p, rects[p].x, rects[p].w);
    var j :| 0 <= j < |pieces| && IsPiece(pieces, j, p, rects[p].x, rects[p].w);
    CropRow(rows, rects[p], y - rects[p].y);
  }

  lemma {:induction false} RebuiltFrom<B>(rows: seq<seq<B>>, parts: seq<seq<B>>, rects: seq<Rect>, pieces: seq<Piece>,
                                          y: nat, k: nat)
    requires y < |rows| && k <= |pieces| && |parts| == |rects|
    requires AllFit(pieces, rects, y) && Total(pieces) == |rows[y]|
    requires forall p :: 0 <= p < |rects| ==> Within(rows, rects[p]) && parts[p] == Crop(rows, rects[p])
    ensures Offset(pieces, k) <= |rows[y]| && Rebuilt(parts, rects, pieces[k..], y) == rows[y][Offset(pieces, k)..]
    decreases |pieces| - k
  {
    hide Crop, Offset, RowFits, RowStart, Rebuilt, Cut, Within;
    if k == |pieces| { RebuiltNothing(parts, rects, pieces, y); }
    OffsetsGrow(pieces, k);
    if k < |pieces| {
      RebuiltFrom(rows, parts, rects, pieces, y, k + 1);
      PieceIsCropped(rows, pieces, rects, y, k);
      OffsetNext(pieces, k);
      RebuiltStep(parts, rects, pieces, y, k);
      CutJoin(rows[y], Offset(pieces, k), pieces[k].width);
    }
  }

  lemma {:induction false} RebuiltStep<B>(parts: seq<seq<B>>, rects: seq<Rect>, pieces: seq<Piece>, y: nat, k: nat)
    requires k < |pieces| && |parts| == |rects| && forall k :: 0 <= k < |pieces| ==> pieces[k].part < |rects|
    ensures var p := pieces[k].part;
            Rebuilt(parts, rects, pieces[k..], y)
            == Cut(parts[p], RowStart(rects[p], y), rects[p].w) + Rebuilt(parts, rects, pieces[k + 1..], y)
  {
    assert pieces[k..][1..] == pieces[k + 1..] && pieces[k..][0] == pieces[k];
  }

  lemma RebuiltNothing<B>(parts: seq<seq<B>>, rects: seq<Rect>, pieces: seq<Piece>, y: nat)
    requires |parts| == |rects|
    ensures Rebuilt(parts, rects, pieces[|pieces|..], y) == []
  {
  }

  lemma CutJoin<B>(row: seq<B>, a: nat, w: nat)
    requires a + w <= |row|
    ensures Cut(row, a, w) + row[a + w..] == row[a..]
  {
  }

  /** Splitting loses nothing: every row whose pieces fill it can be put together again. */
  lemma RowIsRebuilt<B>(rows: seq<seq<B>>, parts: seq<seq<B>>, rects: seq<Rect>, pieces: seq<Piece>, y: nat)
    requires y < |rows| && |parts| == |rects| && AllFit(pieces, rects, y) && Total(pieces) == |rows[y]|
    requires forall p :: 0 <= p < |rects| ==> Within(rows, rects[p]) && parts[p] == Crop(rows, rects[p])
    ensures Rebuilt(parts, rects, pieces, y) == rows[y]
  {
    RebuiltFrom(rows, parts, rects, pieces, y, 0);
    assert pieces[0..] == pieces && rows[y][0..] == rows[y];
  }

  lemma EmoticonRectsWithin<B>(rows: seq<seq<B>>, segmentHeight: nat, segmentFullWidth: nat, p: nat)
    requires p < 16 && segmentHeight * 4 <= |rows| && forall i :: 0 <= i < |rows| ==> |rows[i]| == segmentFullWidth * 4
    ensures Within(rows, EmoticonRects(segmentHeight, segmentFullWidth)[p])
  {
    MulMonotone(p % 4 + 1, 4, segmentFullWidth);
    MulMonotone(p / 4 + 1, 4, segmentHeight);
    MulStep(p % 4 + 1, segmentFullWidth);
    MulStep(p / 4 + 1, segmentHeight);
  }

  /** The sixteen emoticons of a whole sheet hold all of it, each byte in one place. */
  lemma EmoticonsRebuild<B>(rows: seq<seq<B>>, parts: seq<seq<B>>, segmentHeight: nat, segmentFullWidth: nat, y: nat)
    requires segmentHeight * 4 <= |rows| && forall i :: 0 <= i < |rows| ==> |rows[i]| == segmentFullWidth * 4
    requires |parts| == 16
    requires forall p :: 0 <= p < 16 ==> parts[p] == Crop(rows, EmoticonRects(segmentHeight, segmentFullWidth)[p])
    requires y < segmentHeight * 4
    ensures var rects := EmoticonRects(segmentHeight, segmentFullWidth);
            var pieces := EmoticonPieces(y, segmentHeight, segmentFullWidth);
            (forall k :: 0 <= k < |pieces| ==> pieces[k].part < 16) && Rebuilt(parts, rects, pieces, y) == rows[y]
  {
    EmoticonFits(y, segmentHeight, segmentFullWidth);
    hide Crop, Total, RowFits;
    forall p | 0 <= p < 16 { EmoticonRectsWithin(rows, segmentHeight, segmentFullWidth, p); }
    RowIsRebuilt(rows, parts, EmoticonRects(segmentHeight, segmentFullWidth), EmoticonPieces(y, segmentHeight,
        segmentFullWidth), y);
  }

  lemma {:induction false} SheetRectsWithin<B>(rows: seq<seq<B>>, width: nat, height: nat, p: nat)
    requires p < 13 && width % 8 == 0 && height / 4 * 3 <= |rows|
    requires forall i :: 0 <= i < |rows| ==> |rows[i]| == width * 4
    ensures Within(rows, SheetRects(width, height, |rows|)[p])
  {
  }

  /** So do the thirteen parts of a skin sheet, whatever rows there are after the first three bands. */
  lemma SkinPartsRebuild<B>(rows: seq<seq<B>>, parts: seq<seq<B>>, width: nat, height: nat, y: nat)
    requires width % 8 == 0 && height / 4 * 3 <= |rows| && forall i :: 0 <= i < |rows| ==> |rows[i]| == width * 4
    requires |parts| == 13 && forall p :: 0 <= p < 13 ==> parts[p] == Crop(rows, SheetRects(width, height, |rows|)[p])
    requires y < |rows|
    ensures var rects, pieces := SheetRects(width, height, |rows|), SkinPieces(y, height / 4, width / 8 * 4);
            (forall k :: 0 <= k < |pieces| ==> pieces[k].part < 13) && Rebuilt(parts, rects, pieces, y) == rows[y]
  {
    SheetRowFits(width, height, |rows|, y);
    hide Crop, Total, RowFits, SheetRects;
    forall p | 0 <= p < 13 { SheetRectsWithin(rows, width, height, p); }
    RowIsRebuilt(rows, parts, SheetRects(width, height, |rows|), SkinPieces(y, height / 4, width / 8 * 4), y);
  }

  /** The size a skin part is declared to have. */
  function DeclaredRect(width: nat, height: nat, p: nat): Rect
    requires p < 13
  {
    SkinRects(height / 4, width / 8 * 4, height / 4)[p]
  }

  lemma MulCancel(a: nat, b: nat, m: nat)
    requires m > 0
    ensures a * m == b * m <==> a == b
  {
    if a < b { MulStep(b, m); MulMonotone(a, b - 1, m); }
    if b < a { MulStep(a, m); MulMonotone(b, a - 1, m); }
  }

  /** The upper six parts always have their declared size; the parts of the last band have it exactly
      if the sheet has the declared number of rows. */
  lemma {:induction false} SkinPartSize<B>(rows: seq<seq<B>>, width: nat, height: nat, p: nat)
    requires width > 0 && width % 8 == 0 && height % 4 == 0 && height / 4 * 3 <= |rows| && p < 13
    requires forall i :: 0 <= i < |rows| ==> |rows[i]| == width * 4
    ensures var declared := DeclaredRect(width, height, p);
            |Crop(rows, SheetRects(width, height, |rows|)[p])| == declared.h * declared.w <==> p < 6 || |rows| == height
  {
    var r, d := SheetRects(width, height, |rows|)[p], DeclaredRect(width, height, p);
    SheetRectsWithin(rows, width, height, p);
    CropLength(rows, r);
    SheetRectIs(width, height, |rows|, p);
    hide *;
    MulCancel(r.h, d.h, d.w);
  }

  lemma {:induction false} SheetRectIs(width: nat, height: nat, n: nat, p: nat)
    requires width > 0 && width % 8 == 0 && height % 4 == 0 && height / 4 * 3 <= n && p < 13
    ensures var r, d := SheetRects(width, height, n)[p], DeclaredRect(width, height, p);
            r.w == d.w > 0 && (r.h == d.h <==> p < 6 || n == height)
  {
  }
}
