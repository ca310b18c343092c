/** Tetromino geometry: the per-kind offset table, the colour table and the
    in-place quarter turn of a piece's four offsets (src/piece.cpp). */
module Tetromino {

  /** One 8-bit colour channel. */
  type Byte = b: int | 0 <= b < 256

  datatype Rgb = Rgb(r: Byte, g: Byte, b: Byte)

  /** A pair of integer coordinates: a block's offset from the piece's pivot,
      the piece's position on the board, or an absolute grid cell. */
  datatype Block = Block(x: int, y: int)

  /** The four offsets of a piece (the source's `Block blocks[4]`). */
  type Shape = s: seq<Block> | |s| == 4
    witness [Block(0, 0), Block(0, 0), Block(0, 0), Block(0, 0)]

  datatype Kind = I | O | T | S | Z | J | L

  datatype ColorName = Red | Green | Blue | Yellow | Purple | Aqua

  datatype Piece = Piece(kind: Kind, color: Rgb, blocks: Shape, position: Block)

  /** The four offsets are pairwise different cells. */
  predicate Distinct(s: Shape) {
    forall i, j :: 0 <= i < j < 4 ==> s[i] != s[j]
  }

  /** Every coordinate of every offset lies in [-2, 2]. */
  predicate InReach(s: Shape) {
    forall i :: 0 <= i < 4 ==> -2 <= s[i].x <= 2 && -2 <= s[i].y <= 2
  }

  /** The canonical offsets of each kind, in the order the source lists them. */
  function ShapeOf(k: Kind): (s: Shape)
    ensures Distinct(s)
    ensures forall i :: 0 <= i < 4 ==> -1 <= s[i].x <= 1 && -1 <= s[i].y <= 2
  {
    match k
    case I => [Block(0, -1), Block(0, 0), Block(0, 1), Block(0, 2)]
    case O => [Block(0, 0), Block(0, 1), Block(1, 0), Block(1, 1)]
    case T => [Block(-1, 0), Block(0, 0), Block(1, 0), Block(0, 1)]
    case S => [Block(-1, 0), Block(0, 0), Block(0, 1), Block(1, 1)]
    case Z => [Block(0, 0), Block(1, 0), Block(-1, 1), Block(0, 1)]
    case J => [Block(-1, 0), Block(0, 0), Block(1, 0), Block(1, 1)]
    case L => [Block(-1, 0), Block(0, 0), Block(1, 0), Block(-1, 1)]
  }

  /** The RGB triple of each colour name. */
  function ColorOf(c: ColorName): (rgb: Rgb)
    ensures rgb.r in {0, 255} && rgb.g in {0, 255} && rgb.b in {0, 255}
    ensures rgb != Rgb(0, 0, 0) && rgb != Rgb(255, 255, 255)
  {
    match c
    case Red => Rgb(255, 0, 0)
    case Green => Rgb(0, 255, 0)
    case Blue => Rgb(0, 0, 255)
    case Yellow => Rgb(255, 255, 0)
    case Purple => Rgb(255, 0, 255)
    case Aqua => Rgb(0, 255, 255)
  }

  /** Different colour names never share a triple. */
  lemma ColorOfInjective(a: ColorName, b: ColorName)
    ensures ColorOf(a) == ColorOf(b) <==> a == b
  {
  }

  /** `setType`: the kind changes and all four offsets are overwritten by the
      table entry, whatever orientation the piece had; colour and position stay. */
  function SetType(p: Piece, k: Kind): (r: Piece)
    ensures r.kind == k && r.blocks == ShapeOf(k)
    ensures r.color == p.color && r.position == p.position
  {
    p.(kind := k, blocks := ShapeOf(k))
  }

  /** `setColor`: only the colour changes. */
  function SetColor(p: Piece, c: ColorName): (r: Piece)
    ensures r.color == ColorOf(c)
    ensures r.kind == p.kind && r.blocks == p.blocks && r.position == p.position
  {
    p.(color := ColorOf(c))
  }

  /** The order in which kind and colour are assigned does not matter, and a
      turn made before `setType` leaves no trace. */
  lemma SetTypeSetColorCommute(p: Piece, k: Kind, c: ColorName)
    ensures SetColor(SetType(p, k), c) == SetType(SetColor(p, c), k)
    ensures SetType(Rotate(p), k) == SetType(p, k)
  {
  }

  /** A quarter turn of one offset. */
  function RotateBlock(b: Block): Block {
    Block(-b.y, b.x)
  }

  /** A quarter turn of all four offsets. */
  function RotateBlocks(s: Shape): (r: Shape)
    ensures forall i :: 0 <= i < 4 ==> r[i] == RotateBlock(s[i])
  {
    [RotateBlock(s[0]), RotateBlock(s[1]), RotateBlock(s[2]), RotateBlock(s[3])]
  }

  /** `rotate`: every offset (dx, dy) becomes (-dy, dx); nothing but the
      offsets changes. */
  function Rotate(p: Piece): (r: Piece)
    ensures forall i :: 0 <= i < 4 ==> r.blocks[i] == Block(-p.blocks[i].y, p.blocks[i].x)
    ensures r.kind == p.kind && r.color == p.color && r.position == p.position
  {
    p.(blocks := RotateBlocks(p.blocks))
  }

  /** `n` successive quarter turns. */
  function RotateN(s: Shape, n: nat): Shape
    decreases n
  {
    if n == 0 then s else RotateBlocks(RotateN(s, n - 1))
  }

  /** Four quarter turns restore the offsets; three undo one. */
  lemma RotateFourTimes(p: Piece)
    ensures Rotate(Rotate(Rotate(Rotate(p)))) == p
    ensures RotateN(p.blocks, 4) == p.blocks
  {
    var s := p.blocks;
    assert RotateN(s, 4) == RotateBlocks(RotateBlocks(RotateBlocks(RotateBlocks(s))));
  }

  /** Rotation has period 4 for any number of turns. */
  lemma {:induction false} RotatePeriod(s: Shape, n: nat)
    ensures RotateN(s, n + 4) == RotateN(s, n)
    decreases n
  {
    if n == 0 {
      RotateFourTimes(Piece(I, Rgb(0, 0, 0), s, Block(0, 0)));
    } else {
      RotatePeriod(s, n - 1);
    }
  }

  /** A turn keeps the four offsets pairwise different and keeps them in
      [-2, 2]. */
  lemma RotatePreservesShape(s: Shape)
    ensures Distinct(s) ==> Distinct(RotateBlocks(s))
    ensures InReach(s) ==> InReach(RotateBlocks(s))
  {
    var r := RotateBlocks(s);
    if Distinct(s) {
      forall i, j | 0 <= i < j < 4 ensures r[i] != r[j] {
        assert s[i] != s[j];
      }
    }
  }

  /** Offsets a live piece may carry: four distinct cells within [-2, 2]. */
  predicate WellShaped(s: Shape) {
    Distinct(s) && InReach(s)
  }

  /** Every table shape, turned any number of times, stays well shaped. */
  lemma {:induction false} TurnedShapes(k: Kind, n: nat)
    ensures WellShaped(RotateN(ShapeOf(k), n))
    decreases n
  {
    if n > 0 {
      TurnedShapes(k, n - 1);
      RotatePreservesShape(RotateN(ShapeOf(k), n - 1));
    }
  }
}
