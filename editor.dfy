/** The editor's state and the editing cases of its key handler: arrow keys move the cursor
    within the sprite, SPACE toggles the cell under the cursor, S, W, A and D shift the whole
    sprite cyclically, T switches draw mode, in which every cursor move toggles the cell moved
    onto; and the redraw that renders the rotated previews. */
module SpriteEditor {
  import opened SpriteGrid
  import opened SuperSampling

  /** The keys the handler tells apart. Q, E and Zero change the floating-point rotation angle,
      which is not part of this model, so they leave the modelled state alone; R only asks for
      a redraw; Other stands for ESCAPE and every key the handler ignores. */
  datatype Key =
    | Down | Up | Left | Right
    | T
    | Q | E | Zero | R
    | S | W | A | D
    | Space
    | Other

  /** The editor's state: the sprite, the cursor (curx, cury) and the draw-mode flag. */
  datatype State = State(sprite: seq<byte>, curx: int, cury: int, drawToggle: bool)

  /** A whole sprite and a cursor on one of its cells. */
  ghost predicate Good(s: State)
  {
    |s.sprite| == Cells && 0 <= s.curx < 16 && 0 <= s.cury < 16
  }

  /** The key's own case of the handler's switch. */
  function Dispatch(s: State, k: Key): State
    requires Good(s)
  {
    match k
    case Down => s.(cury := Min(s.cury + 1, 15))
    case Up => s.(cury := Max(s.cury - 1, 0))
    case Left => s.(curx := Max(s.curx - 1, 0))
    case Right => s.(curx := Min(s.curx + 1, 15))
    case T => s.(drawToggle := !s.drawToggle)
    case S => s.(sprite := ShiftedDown(s.sprite))
    case W => s.(sprite := ShiftedUp(s.sprite))
    case A => s.(sprite := ShiftedLeft(s.sprite))
    case D => s.(sprite := ShiftedRight(s.sprite))
    case Space => s.(sprite := Flipped(s.sprite, s.curx, s.cury))
    case _ => s
  }

  /** One key press: the key's case, then, when the cursor has moved and draw mode is on, the
      toggle of the cell the cursor is now on. The cursor never leaves the sprite. */
  function Step(s: State, k: Key): (t: State)
    requires Good(s)
    ensures Good(t)
  {
    var t := Dispatch(s, k);
    if (t.cury != s.cury || t.curx != s.curx) && t.drawToggle
    then t.(sprite := Flipped(t.sprite, t.curx, t.cury))
    else t
  }

  /** Which keys move the cursor. */
  predicate IsArrow(k: Key)
  {
    k == Down || k == Up || k == Left || k == Right
  }

  // ----- Properties of a key press -----

  /** Arrow keys move the cursor one cell in their direction unless it is at that edge of the
      sprite, where it stays; no other key moves the cursor. */
  lemma ArrowMovesCursor(s: State, k: Key)
    requires Good(s)
    ensures var t := Step(s, k);
      (k == Down ==> t.curx == s.curx && t.cury == if s.cury < 15 then s.cury + 1 else 15) &&
      (k == Up ==> t.curx == s.curx && t.cury == if s.cury > 0 then s.cury - 1 else 0) &&
      (k == Left ==> t.cury == s.cury && t.curx == if s.curx > 0 then s.curx - 1 else 0) &&
      (k == Right ==> t.cury == s.cury && t.curx == if s.curx < 15 then s.curx + 1 else 15) &&
      (!IsArrow(k) ==> t.curx == s.curx && t.cury == s.cury)
  {
  }

  /** SPACE flips the low bit of the cell under the cursor and changes nothing else. */
  lemma SpaceTogglesCursorCell(s: State)
    requires Good(s)
    ensures var t := Step(s, Space);
      t.curx == s.curx && t.cury == s.cury && t.drawToggle == s.drawToggle &&
      (forall k :: 0 <= k < Cells && k != At(s.curx, s.cury) ==> t.sprite[k] == s.sprite[k]) &&
      t.sprite[At(s.curx, s.cury)] / 2 == s.sprite[At(s.curx, s.cury)] / 2 &&
      t.sprite[At(s.curx, s.cury)] % 2 != s.sprite[At(s.curx, s.cury)] % 2
  {
    FlippedChangesOneCell(s.sprite, s.curx, s.cury);
  }

  /** In draw mode, an arrow key that moves the cursor flips the low bit of the cell moved
      onto and no other cell; one that meets the edge changes nothing. Outside draw mode the
      arrow keys never change the sprite. */
  lemma ArrowDraws(s: State, k: Key)
    requires Good(s) && IsArrow(k)
    ensures var t := Step(s, k);
      t.drawToggle == s.drawToggle &&
      (s.drawToggle && (t.curx, t.cury) != (s.curx, s.cury) ==>
         t.sprite == Flipped(s.sprite, t.curx, t.cury) &&
         (forall c :: 0 <= c < Cells && c != At(t.curx, t.cury) ==> t.sprite[c] == s.sprite[c]) &&
         t.sprite[At(t.curx, t.cury)] % 2 != s.sprite[At(t.curx, t.cury)] % 2) &&
      (!s.drawToggle || (t.curx, t.cury) == (s.curx, s.cury) ==> t.sprite == s.sprite)
  {
    var t := Step(s, k);
    FlippedChangesOneCell(s.sprite, t.curx, t.cury);
  }

  /** T switches draw mode and changes nothing else; pressing it twice restores the state. */
  lemma ToggleDrawMode(s: State)
    requires Good(s)
    ensures var t := Step(s, T);
      t.drawToggle == !s.drawToggle && t.sprite == s.sprite && t.curx == s.curx && t.cury == s.cury
    ensures Step(Step(s, T), T) == s
  {
  }

  /** The angle keys, R and every key the handler ignores leave the modelled state alone. */
  lemma OtherKeysChangeNothing(s: State, k: Key)
    requires Good(s) && (k == Q || k == E || k == Zero || k == R || k == Other)
    ensures Step(s, k) == s
  {
  }

  /** Pressing SPACE twice restores the state. */
  lemma SpaceTwice(s: State)
    requires Good(s)
    ensures Step(Step(s, Space), Space) == s
  {
    FlipTwice(s.sprite, s.curx, s.cury);
  }

  /** S then W, W then S, A then D, and D then A each restore the state. */
  lemma OppositeShiftsUndo(s: State)
    requires Good(s)
    ensures Step(Step(s, S), W) == s && Step(Step(s, W), S) == s
    ensures Step(Step(s, A), D) == s && Step(Step(s, D), A) == s
  {
    ShiftDownThenUp(s.sprite);
    ShiftUpThenDown(s.sprite);
    ShiftLeftThenRight(s.sprite);
    ShiftRightThenLeft(s.sprite);
  }

  /** The shift keys permute the sprite's cells and leave the cursor and draw mode alone. */
  lemma ShiftsPermute(s: State, k: Key)
    requires Good(s) && (k == S || k == W || k == A || k == D)
    ensures var t := Step(s, k);
      multiset(t.sprite) == multiset(s.sprite) &&
      t.curx == s.curx && t.cury == s.cury && t.drawToggle == s.drawToggle
  {
    match k {
      case S => ShiftDownPermutes(s.sprite);
      case W => ShiftUpPermutes(s.sprite);
      case A => ShiftLeftPermutes(s.sprite);
      case D => ShiftRightPermutes(s.sprite);
    }
  }

  // ----- The editor's mutable state -----

  class Editor {
    /** The sprite, row-major, as the global `uint8_t sprite[16][16]` lies in memory. */
    const sprite: array<byte>
    var curx: int
    var cury: int
    var drawToggle: bool

    ghost predicate Valid()
      reads this
    {
      sprite.Length == Cells && 0 <= curx < 16 && 0 <= cury < 16
    }

    /** The editor's state as a value. */
    ghost function Model(): State
      reads this, sprite
    {
      State(sprite[..], curx, cury, drawToggle)
    }

    /** An empty sprite, the cursor on the top-left cell, draw mode off. */
    constructor ()
      ensures Valid() && fresh(sprite)
      ensures Model() == State(seq(Cells, _ => 0), 0, 0, false)
    {
      sprite := new byte[Cells](_ => 0);
      curx, cury, drawToggle := 0, 0, false;
    }

    /** S: save the bottom row, move rows 0..14 down by one, put the saved row on top. */
    method ShiftDown()
      requires Valid()
      modifies sprite
      ensures sprite[..] == ShiftedDown(old(sprite[..]))
    {
      var saved := sprite[240..];
      forall k | 0 <= k < 240 {
        sprite[16 + k] := sprite[k];
      }
      forall k | 0 <= k < 16 {
        sprite[k] := saved[k];
      }
    }

    /** W: save the top row, move rows 1..15 up by one, put the saved row at the bottom. */
    method ShiftUp()
      requires Valid()
      modifies sprite
      ensures sprite[..] == ShiftedUp(old(sprite[..]))
    {
      var saved := sprite[..16];
      forall k | 0 <= k < 240 {
        sprite[k] := sprite[16 + k];
      }
      forall k | 0 <= k < 16 {
        sprite[240 + k] := saved[k];
      }
    }

    /** Rotates the row that starts at cell b one cell left: saves its first cell, moves
        the other 15 (`memmove`), and puts the saved cell last. */
    method RotateLeft(b: int)
      requires Valid() && 0 <= b && b + 16 <= Cells
      modifies sprite
      ensures forall k :: 0 <= k < Cells ==>
        sprite[k] == if b <= k < b + 15 then old(sprite[k + 1])
                     else if k == b + 15 then old(sprite[b])
                     else old(sprite[k])
    {
      var t := sprite[b];
      forall k | 0 <= k < 15 {
        sprite[b + k] := sprite[b + k + 1];
      }
      sprite[b + 15] := t;
    }

    /** A: in each row, save the first cell, move the other 15 left by one, put the saved cell
        last. */
    method ShiftLeft()
      requires Valid()
      modifies sprite
      ensures sprite[..] == ShiftedLeft(old(sprite[..]))
    {
      ghost var g := old(sprite[..]);
      for i := 0 to 16
        invariant forall k :: 0 <= k < 16 * i ==> sprite[k] == ShiftedLeft(g)[k]
        invariant forall k :: 16 * i <= k < Cells ==> sprite[k] == g[k]
      {
        RotateLeft(16 * i);
        forall k | 16 * i <= k < 16 * i + 16 ensures sprite[k] == ShiftedLeft(g)[k] {
          ShiftedRowCell(g, i, k - 16 * i);
        }
      }
    }

    /** Rotates the row that starts at cell b one cell right: saves its last cell, moves
        the other 15 (`memmove`), and puts the saved cell first. */
    method RotateRight(b: int)
      requires Valid() && 0 <= b && b + 16 <= Cells
      modifies sprite
      ensures forall k :: 0 <= k < Cells ==>
        sprite[k] == if b < k < b + 16 then old(sprite[k - 1])
                     else if k == b then old(sprite[b + 15])
                     else old(sprite[k])
    {
      var t := sprite[b + 15];
      forall k | 0 <= k < 15 {
        sprite[b + k + 1] := sprite[b + k];
      }
      sprite[b] := t;
    }

    /** D: in each row, save the last cell, move the other 15 right by one, put the saved cell
        first. */
    method ShiftRight()
      requires Valid()
      modifies sprite
      ensures sprite[..] == ShiftedRight(old(sprite[..]))
    {
      ghost var g := old(sprite[..]);
      for i := 0 to 16
        invariant forall k :: 0 <= k < 16 * i ==> sprite[k] == ShiftedRight(g)[k]
        invariant forall k :: 16 * i <= k < Cells ==> sprite[k] == g[k]
      {
        RotateRight(16 * i);
        forall k | 16 * i <= k < 16 * i + 16 ensures sprite[k] == ShiftedRight(g)[k] {
          ShiftedRowCell(g, i, k - 16 * i);
        }
      }
    }

    /** Flips the low bit of the cell under the cursor. */
    method ToggleCursorCell()
      requires Valid()
      modifies sprite
      ensures sprite[..] == Flipped(old(sprite[..]), curx, cury)
    {
      sprite[At(curx, cury)] := FlipLow(sprite[At(curx, cury)]);
    }

    /** Handles one key press. */
    method HandleKey(k: Key)
      requires Valid()
      modifies this, sprite
      ensures Valid() && Model() == Step(old(Model()), k)
    {
      var oldx, oldy := curx, cury;
      match k {
        case Down => cury := Min(cury + 1, 15);
        case Up => cury := Max(cury - 1, 0);
        case Left => curx := Max(curx - 1, 0);
        case Right => curx := Min(curx + 1, 15);
        case T => drawToggle := !drawToggle;
        case S => ShiftDown();
        case W => ShiftUp();
        case A => ShiftLeft();
        case D => ShiftRight();
        case Space => ToggleCursorCell();
        case _ =>
      }
      if cury != oldy || curx != oldx {
        if drawToggle {
          ToggleCursorCell();
        }
      }
    }
  }

  /** The redraw after R, Q or E when the display texture p could be locked: render the sprite
      through the rotation `land` into `sampler`, down-filter that into `lores`, and expand both
      into p with `pitch` bytes per row, lores in blue at byte 600 (pixel column 200) and the
      supersampled image in green below it. */
  method Redraw(sprite: array<byte>, sampler: SuperSampler, lores: SuperSampler,
                land: (int, int) -> (int, int), p: array?<byte>, pitch: nat)
    requires sprite.Length == Cells && sampler.Valid() && lores.Valid()
    requires sampler.ratio <= 5 && sampler.buf != lores.buf && p != sprite
    requires p != null ==>
      3 * lores.size1 <= pitch && 3 * sampler.size1 <= pitch &&
      600 + pitch * (lores.size1 - 1) + 3 * lores.size1 <= p.Length &&
      600 + pitch * lores.size1 + pitch * (sampler.size1 - 1) + 3 * sampler.size1 <= p.Length
    modifies sampler.buf, lores.buf, p
    // A failed lock renders nothing.
    ensures p == null ==> unchanged(sampler.buf) && unchanged(lores.buf)
    ensures p != null ==> forall y, x :: 0 <= y < sampler.size1 && 0 <= x < sampler.size1 ==>
      sampler.buf[y, x] == SampleAt(sprite[..], land(x, y))
    ensures p != null ==> DownFiltered(lores.buf, lores.ratio, sampler.buf, sampler.ratio)
    ensures p != null ==> p[..] == sampler.Painted(lores.Painted(old(p[..]), 600, pitch, 0, 0, 255),
                                                   600 + pitch * lores.size1, pitch, 0, 250, 0)
    // At angle 0 the lores preview shows exactly which sprite cells are lit.
    ensures p != null && land == Upright(sampler.ratio) ==>
      forall y, x :: 0 <= y < lores.size1 && 0 <= x < lores.size1 ==>
        lores.buf[y, x] == if SampleAt(sprite[..], Upright(lores.ratio)(x, y)) == 0 then 0 else 1
  {
    if p != null {
      sampler.RenderAtAnAngle(sprite, land);
      lores.RenderDown(sampler);
      lores.RenderToRGB24(p, 600, pitch, 0, 0, 255);
      sampler.RenderToRGB24(p, 600 + pitch * lores.size1, pitch, 0, 250, 0);
      if land == Upright(sampler.ratio) {
        PreviewShowsSprite(sampler.buf, sprite[..], sampler.ratio, lores.buf, lores.ratio);
      }
    }
  }
}
