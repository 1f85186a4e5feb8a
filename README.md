# sprite-rotator, modelled in Dafny

sprite-rotator is a small editor for 16x16 sprites. The user moves a cursor over the sprite, toggles cells, and shifts the whole sprite cyclically. The editor also previews the sprite rotated by an angle:

- it renders the sprite into a supersampled buffer (`super_sampler`) through an inverse rotation with nearest-neighbour lookup;
- it down-filters that buffer with a fixed 5x5 mask and a threshold into a 16x16 on/off grid, drawn as "fat pixels";
- it expands both buffers into RGB24 texture rows.

The model covers three modules:

- `SpriteGrid` (`sprite_grid.dfy`): the sprite as a value, 256 cells in row-major order as the C array `uint8_t sprite[16][16]` lies in memory. It defines the four cyclic shifts and the low-bit toggle as functions, with lemmas that they move whole rows and columns, permute the cells and undo each other.
- `SuperSampling` (`super_sampler.dfy`): the class `SuperSampler`, with its `size1 x size1` buffer as an `array2`. Its methods follow the source loop for loop:
  - the constructor;
  - `render_at_an_angle`, with the rotation given as a mapping;
  - `render_down`, with its weighted block sum and its fat-pixel drawing;
  - `render_to_RGB24`, with its advancing write position.

  Each method is proved against specification functions (`SampleAt`, `DownCell`, `Painted`), and lemmas state what those mean: the angle-0 image is the sprite upscaled, a uniform block decides by its value, and the down-filtered upright image recovers the sprite.
- `SpriteEditor` (`editor.dfy`): the key handler's editing cases.
  - `Step` is a pure function that gives the effect of one key press on the editor state.
  - The class `Editor` holds the sprite array, the cursor and the draw flag. It performs the same edits in place with `forall` statements (for `memmove`/`memcpy`) and per-row loops, and `HandleKey` is proved equal to `Step`.
  - `Redraw` models the preview pipeline run after R, Q or E.

## Model

| member | source | states |
|---|---|---|
| SuperSampling.ClampRatio | sprite-rotator/main.cpp:66 | The ratio is clamped into [2, 16]: kept when in range, 2 below, 16 above |
| SuperSampling.SuperSampler.constructor | sprite-rotator/main.cpp:65-70 | ratio is the clamped argument, size1 = 16 * ratio, size2 = size1 / 2, and a fresh size1 x size1 buffer |
| SuperSampling.SuperSampler.RenderAtAnAngle | sprite-rotator/main.cpp:78-99 | Every buffer cell (x, y) holds the sprite cell its mapped point lands on, or background 0 when that point is outside the sprite; the sprite is unchanged |
| SuperSampling.UprightSamplesCell | sprite-rotator/main.cpp:90-94 | At angle 0, cell (x, y) lands inside the sprite, on cell (x / ratio, y / ratio) |
| SuperSampling.UprightCornerCell | sprite-rotator/main.cpp:93-96 | At angle 0, a sprite lit only in its top-left cell lights exactly the top-left ratio x ratio square |
| SuperSampling.MaskRowWeights | sprite-rotator/main.cpp:125-131 | The mask's five rows weigh 1, 4, 9, 4 and 1 |
| SuperSampling.MaskCornerRowWeights | sprite-rotator/main.cpp:125-131 | The rows of the mask's top-left 4 x 4, 3 x 3 and 2 x 2 corners weigh 1, 4, 8, 4; 1, 3, 6; and 0, 1 |
| SuperSampling.MaskWeights | sprite-rotator/main.cpp:125-131 | The mask's weights over the R x R corner total 19, 17, 10 and 1 for R = 5, 4, 3, 2, and every threshold lies between 1 and that total |
| SuperSampling.Decide | sprite-rotator/main.cpp:145-147 | The decision is 0 or 1, and 1 exactly when the sum reaches R*R/3, or 8 when R is 5 |
| SuperSampling.SuperSampler.WeightedBlockSum | sprite-rotator/main.cpp:136-142 | Returns the mask-weighted sum of the R x R block of logical cell (x, y), changing nothing |
| SuperSampling.SuperSampler.DrawFatPixel | sprite-rotator/main.cpp:151-156 | Sets every cell of block (x, y) to the value and leaves every other cell as it was |
| SuperSampling.SuperSampler.RenderDown | sprite-rotator/main.cpp:120-160 | Every cell holds the decision for its logical cell computed from the source alone (so the old contents do not matter), and the buffer consists of uniform 0/1 blocks; only this buffer is written |
| SuperSampling.SuperSampler.DownCellsAreFatPixels | sprite-rotator/main.cpp:151-156 | A down-filtered buffer is all 0/1 and constant on each ratio x ratio block |
| SuperSampling.UniformRowSum | sprite-rotator/main.cpp:139-141 | A row of a uniform block sums to the value times the mask row's weight |
| SuperSampling.UniformBlockSum | sprite-rotator/main.cpp:137-142 | A uniform block sums to the value times the mask's total weight |
| SuperSampling.UniformBlockDecision | sprite-rotator/main.cpp:133-147 | A uniform block decides 0 when its value is 0 and 1 otherwise (for ratio 5 an all-lit block sums to 19, at least 8) |
| SuperSampling.DownfilterRecoversSprite | sprite-rotator/main.cpp:120-160 | Down-filtering the angle-0 image lights logical cell (x, y) exactly when sprite cell (x, y) is non-zero |
| SuperSampling.PreviewShowsSprite | sprite-rotator/main.cpp:345-346 | Down-filtering the angle-0 image into a sampler of any ratio shows the sprite upscaled by that ratio, as 0/1 |
| SuperSampling.SuperSampler.PaintRow | sprite-rotator/main.cpp:105-116 | Writes the 3 * size1 bytes of one row from the write position on, colour or grey 32 per cell, and nothing else |
| SuperSampling.SuperSampler.RowOffsets | sprite-rotator/main.cpp:105 | Row y of the image occupies the 3 * size1 bytes from pitch * y on; painting it adds exactly those bytes to the painted part |
| SuperSampling.SuperSampler.PaintImageRow | sprite-rotator/main.cpp:104-117 | One pass of the outer loop: starting from the first y rows painted over the original target, the first y + 1 rows are painted and every other byte is still original |
| SuperSampling.SuperSampler.RenderToRGB24 | sprite-rotator/main.cpp:101-118 | A null target is left alone; otherwise the target becomes its painted version, with the image bytes set and every other byte (padding past 3 * size1, bytes outside the image) unchanged |
| SuperSampling.SuperSampler.PaintedPixel | sprite-rotator/main.cpp:104-116 | Channel c of pixel (x, y) sits at byte pitch * y + 3 * x + c and is the cell's colour channel, or 32 for a zero cell |
| SpriteGrid.ShiftDownMovesRow | sprite-rotator/main.cpp:291-298 | Shift down moves row y to row (y + 1) mod 16 |
| SpriteGrid.ShiftUpMovesRow | sprite-rotator/main.cpp:299-306 | Shift up moves row y to row (y - 1) mod 16 |
| SpriteGrid.ShiftLeftMovesColumn | sprite-rotator/main.cpp:307-315 | Shift left moves column c to column (c - 1) mod 16 in every row |
| SpriteGrid.ShiftRightMovesColumn | sprite-rotator/main.cpp:316-324 | Shift right moves column c to column (c + 1) mod 16 in every row |
| SpriteGrid.ShiftedRowCell | sprite-rotator/main.cpp:309-322 | Cell c of a row after a left (right) shift is the row's next (previous) cell, wrapping at the ends |
| SpriteGrid.ShiftDownThenUp | sprite-rotator/main.cpp:291-306 | Shift down followed by shift up restores the sprite |
| SpriteGrid.ShiftUpThenDown | sprite-rotator/main.cpp:291-306 | Shift up followed by shift down restores the sprite |
| SpriteGrid.ShiftLeftThenRight | sprite-rotator/main.cpp:307-324 | Shift left followed by shift right restores the sprite |
| SpriteGrid.ShiftRightThenLeft | sprite-rotator/main.cpp:307-324 | Shift right followed by shift left restores the sprite |
| SpriteGrid.ShiftDownPermutes | sprite-rotator/main.cpp:291-298 | Shift down keeps the multiset of cell values |
| SpriteGrid.ShiftUpPermutes | sprite-rotator/main.cpp:299-306 | Shift up keeps the multiset of cell values |
| SpriteGrid.ShiftLeftFirstRow | sprite-rotator/main.cpp:309-313 | Shift left rotates the first row and shifts the remaining rows on their own |
| SpriteGrid.ShiftRightFirstRow | sprite-rotator/main.cpp:318-322 | Shift right rotates the first row and shifts the remaining rows on their own |
| SpriteGrid.ShiftLeftPeelsRow | sprite-rotator/main.cpp:309-313 | Shift left keeps the first row's cells and shifts the remaining rows on their own |
| SpriteGrid.ShiftRightPeelsRow | sprite-rotator/main.cpp:318-322 | Shift right keeps the first row's cells and shifts the remaining rows on their own |
| SpriteGrid.ShiftLeftPermutes | sprite-rotator/main.cpp:307-315 | Shift left keeps the multiset of cell values |
| SpriteGrid.ShiftRightPermutes | sprite-rotator/main.cpp:316-324 | Shift right keeps the multiset of cell values |
| SpriteGrid.FlipChangesLowBitOnly | sprite-rotator/main.cpp:326 | `v ^ 1` keeps the upper seven bits, changes the low bit, and undoes itself |
| SpriteGrid.FlippedChangesOneCell | sprite-rotator/main.cpp:325-327 | Toggling cell (x, y) changes only that cell, and only its low bit |
| SpriteGrid.FlipTwice | sprite-rotator/main.cpp:325-327 | Toggling the same cell twice restores the sprite |
| SpriteEditor.Step | sprite-rotator/main.cpp:281-335 | After any key the cursor is still on the sprite (0..15 in both coordinates) |
| SpriteEditor.ArrowMovesCursor | sprite-rotator/main.cpp:283-286 | Each arrow moves the cursor one cell in its direction, or leaves it at that edge; no other key moves it |
| SpriteEditor.SpaceTogglesCursorCell | sprite-rotator/main.cpp:325-327 | SPACE flips the low bit of the cell under the cursor; every other cell, the cursor and draw mode stay unchanged |
| SpriteEditor.ArrowDraws | sprite-rotator/main.cpp:331-335 | In draw mode a move flips only the cell moved onto; a blocked move or a move outside draw mode leaves the sprite unchanged |
| SpriteEditor.ToggleDrawMode | sprite-rotator/main.cpp:287 | T flips draw mode and changes nothing else; pressing it twice restores the state |
| SpriteEditor.OtherKeysChangeNothing | sprite-rotator/main.cpp:288-330 | Q, E, 0, R, ESCAPE and unhandled keys leave sprite, cursor and draw mode unchanged |
| SpriteEditor.SpaceTwice | sprite-rotator/main.cpp:325-327 | Pressing SPACE twice restores the editor state |
| SpriteEditor.OppositeShiftsUndo | sprite-rotator/main.cpp:291-324 | S then W, W then S, A then D and D then A each restore the editor state |
| SpriteEditor.ShiftsPermute | sprite-rotator/main.cpp:291-324 | The shift keys permute the cells and leave cursor and draw mode alone |
| SpriteEditor.Editor.constructor | sprite-rotator/main.cpp:26-55 | The sprite starts all zero, the cursor at (0, 0), draw mode off |
| SpriteEditor.Editor.ShiftDown | sprite-rotator/main.cpp:291-298 | The sprite becomes its cyclic shift down |
| SpriteEditor.Editor.ShiftUp | sprite-rotator/main.cpp:299-306 | The sprite becomes its cyclic shift up |
| SpriteEditor.Editor.RotateLeft | sprite-rotator/main.cpp:310-312 | The row's first cell moves to its end and the other 15 move one left; the rest of the sprite is unchanged |
| SpriteEditor.Editor.ShiftLeft | sprite-rotator/main.cpp:307-315 | The sprite becomes its cyclic shift left |
| SpriteEditor.Editor.RotateRight | sprite-rotator/main.cpp:319-321 | The row's last cell moves to its start and the other 15 move one right; the rest of the sprite is unchanged |
| SpriteEditor.Editor.ShiftRight | sprite-rotator/main.cpp:316-324 | The sprite becomes its cyclic shift right |
| SpriteEditor.Editor.ToggleCursorCell | sprite-rotator/main.cpp:326 | The cell under the cursor has its low bit flipped |
| SpriteEditor.Editor.HandleKey | sprite-rotator/main.cpp:279-335 | A key press changes the editor exactly as Step says and keeps the cursor on the sprite |
| SpriteEditor.Redraw | sprite-rotator/main.cpp:337-351 | With a failed lock (null texture) the sampler and lores buffers are unchanged. With a locked texture: the sampler holds the mapped sprite, lores holds its down-filtered fat pixels, and the texture holds lores painted in blue at byte 600 with the sampler painted in green below it; at angle 0 lores shows exactly the sprite's lit cells |

## Left out

- The rotation's floating-point arithmetic (`cosf`, `sinf`, `floorf`, main.cpp:81-91) is not modelled. `RenderAtAnAngle` takes the mapping from buffer cell to sprite cell as a parameter. `Upright` is its angle-0 instance, which is exact because cos 0 = 1 and sin 0 = 0. The angle `rot_angle` and its keys Q, E and 0 (lines 288-290) are outside the model; these keys leave the modelled state unchanged.
- SDL is not modelled: the window, renderer, textures, `render_begin`/`render_end`, the palette, the cursor flashing, the event loop, mouse events, the KEYUP path and `SDL_LockTexture`. The locked texture memory and its pitch are parameters of `Redraw`, with null standing for a failed lock. Key codes are abstracted to the `Key` datatype.
- The console output of the cursor position (line 332) is not modelled.
- Sprite file load and save, and the program's `main`, are file and process I/O and are not part of this model.
- The destructor, the hidden copy constructor and the trivial getters (lines 60, 71-76) are not modelled. Dafny arrays need no manual memory management, and the sizes are `const` fields.
- SpriteEditor.Editor.ShiftUp: line 303 copies overlapping memory with `memcpy`, which C leaves undefined. The model performs the intended `memmove`-style shift.
- SuperSampling.SuperSampler.RenderDown requires a source ratio of at most 5. For larger ratios, line 140 reads past the 5x5 mask, and the only source in the program has ratio 5.
- SuperSampling.SuperSampler.RenderDown also requires a source buffer distinct from its own. The program always down-filters another sampler.
- SuperSampling.SuperSampler.RenderToRGB24 requires, for a non-null target, a target long enough for every row; the source writes past the target otherwise. It also requires a pitch of at least 3 * size1 bytes, so the model does not cover a smaller pitch, where the rows overlap and each row overwrites the end of the one before. The program's only target is the 320-pixel-wide RGB24 texture (line 417), whose pitch is at least 960 bytes. That covers 3 * size1 for every size1 up to 256, the largest a sampler can have. The C address `p` is modelled as an array plus a byte offset `base`.
- The supersampled and lores buffers are two-dimensional arrays indexed `[y, x]`. In C they are one flat row-major block `super_sampled[y * size1 + x]`. The sprite stays flat because the shift code moves memory across row boundaries.
- The mask at lines 125-131 totals 19, so an all-ones block at ratio 5 sums to 19, which reaches the threshold 8.
- The comment at lines 121-123 ("more than half are lit") does not match the code's threshold of one third. The model follows the code. For ratio 5 the override to 8 equals 25 / 3, so it changes nothing.
