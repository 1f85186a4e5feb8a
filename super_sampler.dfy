/** The rotation and down-filtering engine: a sampler owns a square buffer of side 16 * ratio,
    fills it with the sprite seen through an inverse rotation (render_at_an_angle), can collapse
    another sampler's buffer back to a 16x16 on/off grid drawn as fat pixels (render_down), and
    expands its buffer into packed RGB24 rows (render_to_RGB24).

    The sampler buffer is a row-major byte array in the source; here it is an array2 whose
    element [y, x] is the source's `super_sampled[y * size1 + x]`. */
module SuperSampling {
  import opened SpriteGrid

  /** The ratio a sampler is built with: the requested one, clamped to [2, 16]. */
  function ClampRatio(r: int): (c: int)
    ensures 2 <= c <= 16
    ensures 2 <= r <= 16 ==> c == r
    ensures r < 2 ==> c == 2
    ensures r > 16 ==> c == 16
  {
    Min(Max(r, 2), 16)
  }

  // ----- Arithmetic on row-major block indices -----

  lemma MulMono(a: int, b: int, c: int)
    requires 0 <= a && b <= c
    ensures a * b <= a * c
  {
    assert a * c - a * b == a * (c - b);
  }

  lemma MulAdd(w: int, a: int, b: int)
    ensures w * (a + b) == w * a + w * b
  {
  }

  /** Offset m inside row (or block) q of width d: quotient q, remainder m. */
  lemma DivModOfRow(d: int, q: int, m: int)
    requires 0 < d && 0 <= m < d
    ensures (q * d + m) / d == q && (q * d + m) % d == m
  {
    var a := q * d + m;
    var t := a / d - q;
    assert d * t == m - a % d;
    if t > 0 {
      MulMono(d, 1, t);
    } else if t < 0 {
      MulMono(d, t, -1);
    }
  }

  /** Index a lies in block q of width d exactly when q * d <= a < q * d + d; its offset in
      the block is then a % d. */
  lemma InBlock(a: int, d: int, q: int)
    requires 0 < d
    ensures a / d == q <==> q * d <= a < q * d + d
    ensures a / d == q ==> a % d == a - q * d
  {
    if q * d <= a < q * d + d {
      DivModOfRow(d, q, a - q * d);
    }
    if a / d == q {
      assert a == d * (a / d) + a % d;
    }
  }

  /** Cell m of block q, blocks of width d, lies before the end of block n - 1. */
  lemma BlockInBounds(q: int, m: int, d: int, n: int)
    requires 0 <= q < n && 0 <= m < d
    ensures 0 <= q * d && q * d + m < n * d
  {
    MulMono(d, 0, q);
    MulMono(d, q, n - 1);
  }

  /** Every index below n * d lies in one of the blocks 0 .. n - 1. */
  lemma DivBelow(a: int, d: int, n: int)
    requires 0 < d && 0 <= a < n * d
    ensures 0 <= a / d < n
  {
    if a / d >= n {
      MulMono(d, n, a / d);
    }
  }

  /** Every index at or past n * d lies in block n or later. */
  lemma DivAtLeast(a: int, d: int, n: int)
    requires 0 < d && 0 <= n && n * d <= a
    ensures n <= a / d
  {
    var q := a / d;
    if q < n {
      MulMono(d, q + 1, n);
    }
  }

  // ----- render_at_an_angle: inverse mapping and nearest-neighbour lookup -----

  /** The sprite value found at sprite coordinates p = (x2, y2): background 0 outside the sprite. */
  function SampleAt(g: seq<byte>, p: (int, int)): byte
    requires |g| == Cells
  {
    if 0 <= p.1 && 0 <= p.0 && p.1 < 16 && p.0 < 16 then g[At(p.0, p.1)] else 0
  }

  /** The mapping from buffer cell (x, y) to sprite coordinates that render_at_an_angle computes
      at angle 0: cosine 1 and sine 0 leave (x, y) unchanged, and the floor of x / ratio is the
      integer quotient since x is not negative. */
  function Upright(ratio: int): (int, int) -> (int, int)
    requires ratio > 0
  {
    (x: int, y: int) => (x / ratio, y / ratio)
  }

  /** At angle 0, buffer cell (x, y) of a sampler of ratio r shows sprite cell (x / r, y / r):
      the sprite upscaled by r, nothing falls outside. */
  lemma UprightSamplesCell(g: seq<byte>, r: int, x: int, y: int)
    requires |g| == Cells && 2 <= r <= 16
    requires 0 <= x < 16 * r && 0 <= y < 16 * r
    ensures 0 <= x / r < 16 && 0 <= y / r < 16
    ensures SampleAt(g, Upright(r)(x, y)) == g[At(x / r, y / r)]
  {
    DivBelow(x, r, 16);
    DivBelow(y, r, 16);
  }

  /** At angle 0, a sprite whose only lit cell is its top-left corner lights exactly the
      top-left r x r square of the buffer. */
  lemma UprightCornerCell(g: seq<byte>, r: int, x: int, y: int)
    requires |g| == Cells && 2 <= r <= 16
    requires g[0] != 0 && forall k :: 0 < k < Cells ==> g[k] == 0
    requires 0 <= x < 16 * r && 0 <= y < 16 * r
    ensures SampleAt(g, Upright(r)(x, y)) != 0 <==> x < r && y < r
  {
    UprightSamplesCell(g, r, x, y);
    if x < r { DivBelow(x, r, 1); } else { DivAtLeast(x, r, 1); }
    if y < r { DivBelow(y, r, 1); } else { DivAtLeast(y, r, 1); }
  }

  // ----- render_down: weighted block sums and thresholds -----

  /** The 5x5 sampling mask of render_down. */
  function Mask(j: int, i: int): (w: int)
    requires 0 <= j < 5 && 0 <= i < 5
    ensures 0 <= w <= 3
  {
    [[0, 0, 1, 0, 0],
     [0, 1, 2, 1, 0],
     [1, 2, 3, 2, 1],
     [0, 1, 2, 1, 0],
     [0, 0, 1, 0, 0]][j][i]
  }

  /** Weighted sum of the first n cells of row j of the block whose top-left buffer cell is
      (left, top): the inner loop of render_down's summation. */
  function RowSum(src: array2<byte>, top: int, left: int, j: int, n: int): int
    reads src
    requires 0 <= j < 5 && 0 <= n <= 5
    requires 0 <= top && top + j < src.Length0 && 0 <= left && left + n <= src.Length1
  {
    if n == 0 then 0
    else RowSum(src, top, left, j, n - 1) + src[top + j, left + n - 1] as int * Mask(j, n - 1)
  }

  /** Weighted sum of the first m rows, R cells each, of the block at (left, top). */
  function BlockSum(src: array2<byte>, top: int, left: int, R: int, m: int): int
    reads src
    requires 0 <= m <= R <= 5
    requires 0 <= top && top + m <= src.Length0 && 0 <= left && left + R <= src.Length1
  {
    if m == 0 then 0 else BlockSum(src, top, left, R, m - 1) + RowSum(src, top, left, m - 1, R)
  }

  /** The threshold a block sum must reach, for a source of ratio R. */
  function Threshold(R: int): int
  {
    if R == 5 then 8 else R * R / 3
  }

  /** The on/off value of a block with weighted sum `sum`, decided as the source does: first
      against R * R / 3, then, when R is 5, once more against the literal 8. */
  function Decide(sum: int, R: int): (v: byte)
    ensures v == 0 || v == 1
    ensures v == 1 <==> sum >= Threshold(R)
  {
    var general: byte := if sum >= R * R / 3 then 1 else 0;
    if R == 5 then (if sum >= 8 then 1 else 0) else general
  }

  /** Logical cell (x, y) of the 16x16 grid that render_down computes from the buffer src of a
      sampler of ratio R: the decision on the R x R block at buffer cell (x * R, y * R). */
  function DownCell(src: array2<byte>, R: int, x: int, y: int): byte
    reads src
    requires 2 <= R <= 5 && src.Length0 == 16 * R && src.Length1 == 16 * R
    requires 0 <= x < 16 && 0 <= y < 16
  {
    Decide(BlockWeight(src, R, x, y), R)
  }

  /** The weighted sum of the R x R block at buffer cell (x * R, y * R). */
  function BlockWeight(src: array2<byte>, R: int, x: int, y: int): int
    reads src
    requires 2 <= R <= 5 && src.Length0 == 16 * R && src.Length1 == 16 * R
    requires 0 <= x < 16 && 0 <= y < 16
  {
    BlockInBounds(y, R - 1, R, 16);
    BlockInBounds(x, R - 1, R, 16);
    BlockSum(src, y * R, x * R, R, R)
  }

  /** Total mask weight of the first n cells of row j. */
  function MaskRowWeight(j: int, n: int): int
    requires 0 <= j < 5 && 0 <= n <= 5
  {
    if n == 0 then 0 else MaskRowWeight(j, n - 1) + Mask(j, n - 1)
  }

  /** Total mask weight of the first m rows, R cells each. */
  function MaskWeight(R: int, m: int): int
    requires 0 <= m <= R <= 5
  {
    if m == 0 then 0 else MaskWeight(R, m - 1) + MaskRowWeight(m - 1, R)
  }

  /** Weights of the mask's five full rows. */
  lemma MaskRowWeights()
    ensures MaskRowWeight(0, 5) == 1 && MaskRowWeight(1, 5) == 4 && MaskRowWeight(2, 5) == 9
    ensures MaskRowWeight(3, 5) == 4 && MaskRowWeight(4, 5) == 1
  {
  }

  /** Weights of the rows of the top-left n x n corners of the mask, for n = 2, 3, 4. */
  lemma MaskCornerRowWeights()
    ensures MaskRowWeight(0, 4) == 1 && MaskRowWeight(1, 4) == 4 && MaskRowWeight(2, 4) == 8
    ensures MaskRowWeight(3, 4) == 4
    ensures MaskRowWeight(0, 3) == 1 && MaskRowWeight(1, 3) == 3 && MaskRowWeight(2, 3) == 6
    ensures MaskRowWeight(0, 2) == 0 && MaskRowWeight(1, 2) == 1
  {
  }

  /** The weights of the whole mask total 19; a ratio-R source uses its top-left R x R part,
      whose weight reaches the threshold for R (1, 3, 5 and 8 for R = 2, 3, 4, 5). */
  lemma MaskWeights()
    ensures MaskWeight(5, 5) == 19
    ensures MaskWeight(4, 4) == 17 && MaskWeight(3, 3) == 10 && MaskWeight(2, 2) == 1
    ensures forall R :: 2 <= R <= 5 ==> 1 <= Threshold(R) <= MaskWeight(R, R)
  {
    MaskRowWeights();
    MaskCornerRowWeights();
  }

  /** A row of a block whose cells all hold v sums to v times the row's mask weight. */
  lemma {:induction false} UniformRowSum(src: array2<byte>, top: int, left: int, R: int, j: int, n: int, v: byte)
    requires 0 <= j < R <= 5 && 0 <= n <= R
    requires 0 <= top && top + R <= src.Length0 && 0 <= left && left + R <= src.Length1
    requires forall yy, xx :: top <= yy < top + R && left <= xx < left + R ==> src[yy, xx] == v
    ensures RowSum(src, top, left, j, n) == v as int * MaskRowWeight(j, n)
  {
    if n > 0 {
      UniformRowSum(src, top, left, R, j, n - 1, v);
      assert src[top + j, left + n - 1] == v;
      MulAdd(v as int, MaskRowWeight(j, n - 1), Mask(j, n - 1));
    }
  }

  /** A block whose cells all hold v sums to v times the mask weight. */
  lemma {:induction false} UniformBlockSum(src: array2<byte>, top: int, left: int, R: int, m: int, v: byte)
    requires 0 <= m <= R <= 5
    requires 0 <= top && top + R <= src.Length0 && 0 <= left && left + R <= src.Length1
    requires forall yy, xx :: top <= yy < top + R && left <= xx < left + R ==> src[yy, xx] == v
    ensures BlockSum(src, top, left, R, m) == v as int * MaskWeight(R, m)
  {
    if m > 0 {
      calc {
        BlockSum(src, top, left, R, m);
        BlockSum(src, top, left, R, m - 1) + RowSum(src, top, left, m - 1, R);
        { UniformBlockSum(src, top, left, R, m - 1, v);
          UniformRowSum(src, top, left, R, m - 1, R, v); }
        v as int * MaskWeight(R, m - 1) + v as int * MaskRowWeight(m - 1, R);
        { MulAdd(v as int, MaskWeight(R, m - 1), MaskRowWeight(m - 1, R)); }
        v as int * (MaskWeight(R, m - 1) + MaskRowWeight(m - 1, R));
        v as int * MaskWeight(R, m);
      }
    }
  }

  /** For every source ratio 2..5, a block that is all background gives an unlit cell and a
      block that is uniformly lit with any non-zero index gives a lit cell. For ratio 5 and an
      all-ones block the sum is 19, which reaches the threshold 8. */
  lemma UniformBlockDecision(src: array2<byte>, R: int, x: int, y: int, v: byte)
    requires 2 <= R <= 5 && src.Length0 == 16 * R && src.Length1 == 16 * R
    requires 0 <= x < 16 && 0 <= y < 16
    requires forall yy, xx :: y * R <= yy < y * R + R && x * R <= xx < x * R + R ==> src[yy, xx] == v
    ensures DownCell(src, R, x, y) == if v == 0 then 0 else 1
  {
    BlockInBounds(y, R - 1, R, 16);
    BlockInBounds(x, R - 1, R, 16);
    UniformBlockSum(src, y * R, x * R, R, R, v);
    MaskWeights();
    if v != 0 {
      assert v as int >= 1;
      MulMono(MaskWeight(R, R), 1, v as int);
    }
  }

  /** Down-filtering the angle-0 rendering of a sprite recovers the sprite: for every source
      ratio 2..5, logical cell (x, y) is lit exactly when sprite cell (x, y) is non-zero. */
  lemma DownfilterRecoversSprite(src: array2<byte>, g: seq<byte>, R: int, x: int, y: int)
    requires |g| == Cells && 2 <= R <= 5 && src.Length0 == 16 * R && src.Length1 == 16 * R
    requires forall yy, xx :: 0 <= yy < 16 * R && 0 <= xx < 16 * R ==>
      src[yy, xx] == SampleAt(g, Upright(R)(xx, yy))
    requires 0 <= x < 16 && 0 <= y < 16
    ensures DownCell(src, R, x, y) == if g[At(x, y)] == 0 then 0 else 1
  {
    BlockInBounds(y, R - 1, R, 16);
    BlockInBounds(x, R - 1, R, 16);
    forall yy, xx | y * R <= yy < y * R + R && x * R <= xx < x * R + R
      ensures src[yy, xx] == g[At(x, y)]
    {
      UprightSamplesCell(g, R, xx, yy);
      DivModOfRow(R, y, yy - y * R);
      DivModOfRow(R, x, xx - x * R);
    }
    UniformBlockDecision(src, R, x, y, g[At(x, y)]);
  }

  /** The upright rendering of a sprite at ratio R (2..5), down-filtered into a buffer of ratio
      r2, shows the sprite upscaled by r2 with every lit cell as 1. */
  lemma PreviewShowsSprite(src: array2<byte>, g: seq<byte>, R: int, dst: array2<byte>, r2: int)
    requires |g| == Cells && 2 <= R <= 5 && src.Length0 == 16 * R && src.Length1 == 16 * R
    requires forall yy, xx :: 0 <= yy < 16 * R && 0 <= xx < 16 * R ==>
      src[yy, xx] == SampleAt(g, Upright(R)(xx, yy))
    requires 2 <= r2 <= 16 && dst.Length0 == 16 * r2 && dst.Length1 == 16 * r2
    requires DownFiltered(dst, r2, src, R)
    ensures forall y, x :: 0 <= y < 16 * r2 && 0 <= x < 16 * r2 ==>
      dst[y, x] == if SampleAt(g, Upright(r2)(x, y)) == 0 then 0 else 1
  {
    forall y, x | 0 <= y < 16 * r2 && 0 <= x < 16 * r2
      ensures dst[y, x] == if SampleAt(g, Upright(r2)(x, y)) == 0 then 0 else 1
    {
      UprightSamplesCell(g, r2, x, y);
      DownfilterRecoversSprite(src, g, R, x / r2, y / r2);
    }
  }

  // ----- render_to_RGB24 -----

  /** Byte c (0 red, 1 green, 2 blue) of the RGB24 pixel for buffer value v: the given colour
      when v is non-zero, dim grey 32 otherwise. */
  function PixelByte(v: byte, r: byte, g: byte, b: byte, c: int): byte
    requires 0 <= c < 3
  {
    if v != 0 then [r, g, b][c] else 32
  }

  /** dst (ratio r2) holds, in every cell, the down-filtered value of the logical cell it
      belongs to, computed from src (ratio R): what render_down leaves behind. */
  ghost predicate DownFiltered(dst: array2<byte>, r2: int, src: array2<byte>, R: int)
    reads dst, src
    requires 2 <= R <= 5 && src.Length0 == 16 * R && src.Length1 == 16 * R
    requires 0 < r2 && dst.Length0 == 16 * r2 && dst.Length1 == 16 * r2
  {
    forall y, x :: 0 <= y < 16 * r2 && 0 <= x < 16 * r2 ==>
      dst[y, x] == DownCell(src, R, x / r2, y / r2)
  }

  /** The buffers of render_down's result are fat pixels: all 0 or 1, constant on r x r blocks. */
  ghost predicate FatPixels(a: array2<byte>, r: int)
    reads a
    requires r > 0
  {
    (forall y, x :: 0 <= y < a.Length0 && 0 <= x < a.Length1 ==> a[y, x] == 0 || a[y, x] == 1) &&
    (forall y1, x1, y2, x2 ::
       (0 <= y1 < a.Length0 && 0 <= x1 < a.Length1 && 0 <= y2 < a.Length0 && 0 <= x2 < a.Length1 &&
        y1 / r == y2 / r && x1 / r == x2 / r) ==> a[y1, x1] == a[y2, x2])
  }

  class SuperSampler {
    /** The supersampling ratio, clamped to [2, 16] at construction. */
    const ratio: int
    /** Side of the buffer, 16 * ratio. */
    const size1: int
    /** Half the side: the centre of the rotation. */
    const size2: int
    /** The owned square buffer, size1 x size1 cells. */
    const buf: array2<byte>

    ghost predicate Valid()
    {
      2 <= ratio <= 16 && size1 == 16 * ratio && size2 == size1 / 2 &&
      buf.Length0 == size1 && buf.Length1 == size1
    }

    constructor (r: int)
      ensures Valid() && fresh(buf)
      ensures ratio == ClampRatio(r) && size1 == 16 * ratio && size2 == size1 / 2
      ensures buf.Length0 == size1 && buf.Length1 == size1
    {
      var clamped := ClampRatio(r);
      ratio := clamped;
      size1 := clamped * 16;
      size2 := clamped * 16 / 2;
      buf := new byte[clamped * 16, clamped * 16];
    }

    /** Fills the buffer: cell (x, y) takes the sprite value at land(x, y), the sprite
        coordinates the rotation maps it to, or background 0 when those fall outside the
        sprite. The rotation itself is the parameter `land`. */
    method RenderAtAnAngle(sprite: array<byte>, land: (int, int) -> (int, int))
      requires Valid() && sprite.Length == Cells
      modifies buf
      ensures forall y, x :: 0 <= y < size1 && 0 <= x < size1 ==>
        buf[y, x] == SampleAt(sprite[..], land(x, y))
    {
      for y := 0 to ratio * 16
        invariant forall yy, xx :: 0 <= yy < y && 0 <= xx < size1 ==>
          buf[yy, xx] == SampleAt(sprite[..], land(xx, yy))
      {
        for x := 0 to ratio * 16
          invariant forall yy, xx :: 0 <= yy < size1 && 0 <= xx < size1 && (yy < y || (yy == y && xx < x)) ==>
            buf[yy, xx] == SampleAt(sprite[..], land(xx, yy))
        {
          var (x2, y2) := land(x, y);
          if y2 >= 0 && x2 >= 0 && y2 < 16 && x2 < 16 {
            buf[y, x] := sprite[y2 * 16 + x2];
          } else {
            buf[y, x] := 0;
          }
        }
      }
    }

    /** The weighted sum of the R x R block at logical cell (x, y) of this sampler's buffer, R
        its ratio: the summation loops of render_down, run on the source sampler. */
    method WeightedBlockSum(x: int, y: int) returns (sum: int)
      requires Valid() && ratio <= 5 && 0 <= x < 16 && 0 <= y < 16
      ensures sum == BlockWeight(buf, ratio, x, y)
    {
      var R := ratio;
      BlockInBounds(y, R - 1, R, 16);
      BlockInBounds(x, R - 1, R, 16);
      sum := 0;
      for j := 0 to R
        invariant sum == BlockSum(buf, y * R, x * R, R, j)
      {
        for i := 0 to R
          invariant sum == BlockSum(buf, y * R, x * R, R, j) + RowSum(buf, y * R, x * R, j, i)
        {
          sum := sum + buf[y * R + j, x * R + i] as int * Mask(j, i);
        }
      }
    }

    /** Draws the fat pixel of logical cell (x, y): the ratio x ratio block of buffer cells
        whose coordinates divided by ratio are (x, y) becomes val; nothing else changes. */
    method DrawFatPixel(x: int, y: int, val: byte)
      requires Valid() && 0 <= x < 16 && 0 <= y < 16
      modifies buf
      ensures forall yy, xx :: 0 <= yy < size1 && 0 <= xx < size1 ==>
        buf[yy, xx] == if yy / ratio == y && xx / ratio == x then val else old(buf[yy, xx])
    {
      BlockInBounds(y, ratio - 1, ratio, 16);
      BlockInBounds(x, ratio - 1, ratio, 16);
      var top, left := y * ratio, x * ratio;
      for j := 0 to ratio
        invariant forall yy, xx :: 0 <= yy < size1 && 0 <= xx < size1 ==>
          buf[yy, xx] == if top <= yy < top + j && left <= xx < left + ratio then val else old(buf[yy, xx])
      {
        for i := 0 to ratio
          invariant forall yy, xx :: 0 <= yy < size1 && 0 <= xx < size1 ==>
            buf[yy, xx] ==
              if (top <= yy < top + j && left <= xx < left + ratio) || (yy == top + j && left <= xx < left + i)
              then val else old(buf[yy, xx])
        {
          buf[top + j, left + i] := val;
        }
      }
      forall yy, xx | 0 <= yy < size1 && 0 <= xx < size1
        ensures buf[yy, xx] == if yy / ratio == y && xx / ratio == x then val else old(buf[yy, xx])
      {
        InBlock(yy, ratio, y);
        InBlock(xx, ratio, x);
      }
    }

    /** Collapses the buffer of sampler src (ratio 2..5) to a 16x16 on/off grid and draws it
        into this buffer as fat pixels: cell (x, y) becomes logical cell (x / ratio, y / ratio)
        of that grid. The whole buffer is overwritten, so the result depends on src alone. */
    method RenderDown(src: SuperSampler)
      requires Valid() && src.Valid() && src.ratio <= 5 && src.buf != buf
      modifies buf
      ensures DownFiltered(buf, ratio, src.buf, src.ratio)
      ensures FatPixels(buf, ratio)
    {
      var R := src.ratio;
      forall a | 0 <= a < size1 ensures 0 <= a / ratio < 16 {
        DivBelow(a, ratio, 16);
      }
      for y := 0 to 16
        invariant forall yy, xx :: 0 <= yy < size1 && 0 <= xx < size1 && yy / ratio < y ==>
          buf[yy, xx] == DownCell(src.buf, R, xx / ratio, yy / ratio)
      {
        for x := 0 to 16
          invariant forall yy, xx ::
            (0 <= yy < size1 && 0 <= xx < size1 && (yy / ratio < y || (yy / ratio == y && xx / ratio < x))) ==>
            buf[yy, xx] == DownCell(src.buf, R, xx / ratio, yy / ratio)
        {
          var sum := src.WeightedBlockSum(x, y);
          var val: byte := if sum >= R * R / 3 then 1 else 0;
          if R == 5 {
            val := if sum >= 8 then 1 else 0;
          }
          assert val == Decide(sum, R) == DownCell(src.buf, R, x, y);
          DrawFatPixel(x, y, val);
        }
      }
      DownCellsAreFatPixels(src);
    }

    /** A buffer holding DownCell of its cell's block is made of fat pixels. */
    lemma DownCellsAreFatPixels(src: SuperSampler)
      requires Valid() && src.Valid() && src.ratio <= 5
      requires DownFiltered(buf, ratio, src.buf, src.ratio)
      ensures FatPixels(buf, ratio)
    {
    }

    /** Whether byte offset o of the target (counted from its start address) is one that
        render_to_RGB24 writes: the first 3 * size1 bytes of each of size1 rows. */
    function InImage(o: int, pitch: int): bool
      requires pitch > 0
    {
      0 <= o && o / pitch < size1 && o % pitch < 3 * size1
    }

    /** The byte render_to_RGB24 writes at offset o of the target. */
    function ImageByte(o: int, pitch: int, r: byte, g: byte, b: byte): byte
      reads buf
      requires Valid() && pitch > 0 && InImage(o, pitch)
    {
      PixelByte(buf[o / pitch, o % pitch / 3], r, g, b, o % pitch % 3)
    }

    /** The target's bytes after render_to_RGB24 has painted this buffer at offset base. */
    function Painted(before: seq<byte>, base: int, pitch: int, r: byte, g: byte, b: byte): (after: seq<byte>)
      reads this, buf
      requires Valid() && pitch > 0
      ensures |after| == |before|
    {
      seq(|before|, k reads this, buf requires 0 <= k < |before| && Valid() =>
        if InImage(k - base, pitch) then ImageByte(k - base, pitch, r, g, b) else before[k])
    }

    /** In the painted target, channel c of pixel (x, y) sits at offset k = base + pitch * y + 3 * x + c
        and is that channel of the cell's colour, or grey 32 for a zero cell. */
    lemma PaintedPixel(before: seq<byte>, base: nat, pitch: int, r: byte, g: byte, b: byte,
                       x: int, y: int, c: int, k: nat)
      requires Valid() && 3 * size1 <= pitch
      requires 0 <= x < size1 && 0 <= y < size1 && 0 <= c < 3
      requires k == base + pitch * y + 3 * x + c && k < |before|
      ensures Painted(before, base, pitch, r, g, b)[k] == PixelByte(buf[y, x], r, g, b, c)
    {
      var o := pitch * y + 3 * x + c;
      DivModOfRow(pitch, y, 3 * x + c);
      assert y * pitch == pitch * y;
      assert (3 * x + c) / 3 == x && (3 * x + c) % 3 == c;
      assert o / pitch == y && o % pitch / 3 == x && o % pitch % 3 == c;
      assert InImage(o, pitch);
      assert k == base + o;
      assert Painted(before, base, pitch, r, g, b)[base + o] == ImageByte(o, pitch, r, g, b);
    }

    /** Whether offset o lies in one of the first y rows of the image. */
    function PaintedBefore(o: int, pitch: int, y: int): bool
      requires pitch > 0
    {
      InImage(o, pitch) && o / pitch < y
    }

    /** Writes row y of the image as 3 * size1 bytes starting at offset d0 of p: the inner
        loop of render_to_RGB24, with its advancing write position d. */
    method PaintRow(p: array<byte>, d0: nat, y: int, r: byte, g: byte, b: byte)
      requires Valid() && 0 <= y < size1 && d0 + 3 * size1 <= p.Length
      modifies p
      ensures forall k :: 0 <= k < p.Length ==>
        p[k] == if d0 <= k < d0 + 3 * size1 then PixelByte(buf[y, (k - d0) / 3], r, g, b, (k - d0) % 3) else old(p[k])
    {
      var d := d0;
      for x := 0 to size1
        invariant d == d0 + 3 * x
        invariant forall k :: 0 <= k < p.Length ==>
          p[k] == if d0 <= k < d then PixelByte(buf[y, (k - d0) / 3], r, g, b, (k - d0) % 3) else old(p[k])
      {
        if buf[y, x] != 0 {
          p[d] := r;
          p[d + 1] := g;
          p[d + 2] := b;
        } else {
          p[d] := 32;
          p[d + 1] := 32;
          p[d + 2] := 32;
        }
        d := d + 3;
      }
    }

    /** The offsets that row y of the image occupies are pitch * y up to pitch * y + 3 * size1;
        painting that row adds exactly them to the painted part. */
    lemma RowOffsets(o: int, pitch: int, y: int)
      requires Valid() && 3 * size1 <= pitch && 0 <= y < size1
      ensures pitch * y <= o < pitch * y + 3 * size1 ==>
        o / pitch == y && o % pitch == o - pitch * y &&
        PaintedBefore(o, pitch, y + 1) && !PaintedBefore(o, pitch, y)
      ensures !(pitch * y <= o < pitch * y + 3 * size1) ==>
        PaintedBefore(o, pitch, y + 1) == PaintedBefore(o, pitch, y)
    {
      InBlock(o, pitch, y);
      assert y * pitch == pitch * y;
    }

    /** s is orig with the first y rows of the image painted at offset base. */
    ghost predicate PaintedRows(s: seq<byte>, orig: seq<byte>, base: int, pitch: int, y: int,
                                r: byte, g: byte, b: byte)
      reads this, buf
      requires Valid() && pitch > 0 && |s| == |orig|
    {
      forall k :: 0 <= k < |s| ==>
        s[k] == if PaintedBefore(k - base, pitch, y) then ImageByte(k - base, pitch, r, g, b) else orig[k]
    }

    /** One pass of render_to_RGB24's outer loop: paints image row y, which starts at byte
        base + pitch * y of p. */
    method PaintImageRow(p: array<byte>, base: nat, pitch: nat, y: int, r: byte, g: byte, b: byte,
                         ghost orig: seq<byte>)
      requires Valid() && 3 * size1 <= pitch && 0 <= y < size1
      requires base + pitch * (size1 - 1) + 3 * size1 <= p.Length && |orig| == p.Length
      requires PaintedRows(p[..], orig, base, pitch, y, r, g, b)
      modifies p
      ensures PaintedRows(p[..], orig, base, pitch, y + 1, r, g, b)
    {
      MulMono(pitch, y, size1 - 1);
      var d := base + pitch * y;
      PaintRow(p, d, y, r, g, b);
      forall k | 0 <= k < p.Length
        ensures p[k] == if PaintedBefore(k - base, pitch, y + 1) then ImageByte(k - base, pitch, r, g, b) else orig[k]
      {
        RowOffsets(k - base, pitch, y);
      }
    }

    /** Expands the buffer into packed RGB24 rows `pitch` bytes apart, starting at offset base of
        p: colour (r, g, b) for non-zero cells, grey (32, 32, 32) otherwise. Bytes of a row past
        its first 3 * size1, and every byte outside the image, keep their value. A null target
        is left alone: nothing else is in the frame. */
    method RenderToRGB24(p: array?<byte>, base: nat, pitch: nat, r: byte, g: byte, b: byte)
      requires Valid()
      requires p != null ==> 3 * size1 <= pitch && base + pitch * (size1 - 1) + 3 * size1 <= p.Length
      modifies p
      ensures p != null ==> p[..] == Painted(old(p[..]), base, pitch, r, g, b)
    {
      if p == null {
        return;
      }
      forall k | 0 <= k < p.Length
        ensures p[k] == if PaintedBefore(k - base, pitch, 0) then ImageByte(k - base, pitch, r, g, b) else old(p[k])
      {
        if k >= base {
          DivAtLeast(k - base, pitch, 0);
        }
      }
      for y := 0 to size1
        invariant PaintedRows(p[..], old(p[..]), base, pitch, y, r, g, b)
      {
        PaintImageRow(p, base, pitch, y, r, g, b, old(p[..]));
      }
      assert forall k | 0 <= k < p.Length :: p[..][k] == Painted(old(p[..]), base, pitch, r, g, b)[k];
    }
  }
}
