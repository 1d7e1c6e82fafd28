# Digital rain engine, modelled in Dafny

This project is a verified model of `DynamicMatrixRain`, the terminal "digital rain" engine.
The engine keeps a height x width buffer of cells and one falling drop per column.
Each frame it blanks the buffer and paints every drop's trail with intensities banded by the distance from the head.
It then moves the drops, respawning those that have fallen past the bottom.
Finally it writes the buffer to the terminal as ANSI escape sequences.
Every fiftieth frame it asks the terminal for its size and rebuilds everything when the size changed.

The engine exists in two copies, and both are modelled:

- `MatrixRain.hpp` / `MatrixRain.cpp`: green or rainbow mode; cells carry a palette index.
  Module `MatrixRain`, class `DynamicMatrixRain`.
- `matrix_rain.cpp`: the older green-only copy; cells have no colour field.
  Module `ClassicRain`, class `DynamicMatrixRain`.

Files:

- `wrappers.dfy`: `Option`.
- `sgr.dfy` (module `Sgr`): Select Graphic Rendition (SGR) control sequences as ECMA-48 defines them (section 8.3.117, with the aixterm bright colours 90-97).
  It holds the encoder `Sequence`, the decoder `Decode` and their round trip.
  It also holds the rendition each parameter selects (`Effect`) and `Strip`, which removes control sequences and leaves the characters a terminal displays.
- `rain_model.dfy` (module `RainModel`): the value-level model both classes are proved against.
  - A cell, the glyph alphabet, and the trail-length step function.
  - The colour sequence `setColor` writes.
  - The banding of one trail cell, one column of a tick, and a whole tick (`Tick`).
  - Initialisation, the resize rule (`Resync`), the text of a frame, and the frame loop of `run` (`Frames`).
- `rain_properties.dfy` (module `RainProperties`): what the engine promises, proved about that model.
  - The rendition each colour sequence selects, and the literal green-mode strings.
  - What a tick leaves in each cell and each drop.
  - Both directions of the resize rule.
  - The characters a rendered frame displays.
  - The resize schedule of `run`.
- `dynamic_matrix_rain.dfy`, `classic_matrix_rain.dfy`: the two classes.
  - Fields are updated in place, and loops keep their invariants.
  - Each method is proved to leave exactly the state and the output the model functions give.
  - The green-only class embeds its colourless cells as colour-0 cells, so it is proved against the same definitions in green mode.

Modelling choices:

- The random generator is a stream of draws, `rand: nat -> nat`, with a cursor that counts the draws taken.
  Every `rng()` call takes the next draw, in the order the source makes them.
  The functions write the `%` on the generator's unsigned output as `Mod`; the methods compute `%` and are tied to `Mod` by `RainModel.ModIsRemainder`.
- Standard output is a string field, `out`, that every write appends to.
- The terminal size query is an `Option<(int, int)>` answer, with the 80 x 24 fallback when it fails.
  The sizes `run` sees are a function from frame number to answer.
- Head rows follow the code's arithmetic:
  - A respawned head row is `-(r % (height / 2))`, so it lies in `-(height/2 - 1)..0`.
  - An initial head row is `-(r % height)`, so it lies in `-(height - 1)..0`.
- `render` never passes an invisible cell to `setColor`; `setColor` itself writes black (SGR 30) for one.

## Model

| member | source | states |
|---|---|---|
| Sgr.ValueOfDecimal | MatrixRain.cpp:171-183 | the decimal numeral written for a colour code reads back as that number |
| Sgr.ParseParamsOf | MatrixRain.cpp:158-215 | the parameter list of an SGR sequence parses back to the same list, leaving the text after the final `m` |
| Sgr.DecodeSequence | MatrixRain.cpp:158-220 | decoding an SGR sequence followed by any text yields its parameters, then decodes the rest |
| Sgr.StripSequence | MatrixRain.cpp:324-333 | an SGR sequence displays nothing, whatever follows it |
| Sgr.StripChar | MatrixRain.cpp:327 | a character other than ESC displays as itself |
| RainModel.ModIsRemainder | MatrixRain.cpp:224 | the draw reduction used throughout is the remainder `r % n` |
| RainModel.GlyphInAlphabet | MatrixRain.cpp:222-225 | getRandomChar picks the alphabet's character at the draw's remainder by the alphabet's size, 43 |
| RainModel.Glyph | MatrixRain.cpp:36 | a drawn glyph is never a space, a newline or ESC |
| RainModel.TrailLength | MatrixRain.cpp:75-94 | the trail length is 12, 18, 25 or 30, always between 12 and 30 |
| RainModel.ShadeParams | MatrixRain.cpp:158-209 | the shade ends in 30 (black) exactly at level 0; it has a second parameter exactly at levels other than 0 and 2, prefixed 2 (faint) at level 1 and 1 (bold) above; its colour code is the palette code in rainbow mode, 32 in green mode, plus 60 at the head |
| RainModel.BandLevels | MatrixRain.cpp:255-285 | Band: the level before flicker is 4 at the head, 3, 2 and 1 in the first three quarters, 0 or 1 in the last; only the first half can be bold; the band takes at most one draw |
| RainModel.PaintCell | MatrixRain.cpp:255-300 | the glyph comes from the draw right after the band's, the colour (rainbow mode only) from the next, the bold flag is the band's, the flicker lowers the band's level by at most one, and a cell takes two draws after the band's, three in rainbow mode |
| RainModel.PaintCellBanded | MatrixRain.cpp:255-300 | PaintCell: a painted cell's final intensity is within its band's levels after flicker, its colour is a palette index (0 in green mode), its character a glyph, and painting takes at least one draw |
| RainModel.Trail | MatrixRain.cpp:250-253 | exactly the rows d-n+1..d that lie on the buffer are painted; other rows are clipped without writes |
| RainModel.TrailBanded | MatrixRain.cpp:250-302 | every painted trail cell is banded by its offset from the head |
| RainModel.Painted | MatrixRain.cpp:234-302 | the buffer after a tick is height x width, each cell on its column's trail holds the trail's cell, and every other cell is blank |
| RainModel.Move | MatrixRain.cpp:304-312 | a drop moves by its speed; once past row height + trailLength it respawns at -(height/2 - 1)..0 with speed 1..3, using two draws |
| RainModel.StepColumn | MatrixRain.cpp:247-313 | one column's trail is painted and banded exactly on the clipped trail rows, and its drop moved or respawned |
| RainModel.ColumnsStepped | MatrixRain.cpp:247-313 | Columns: every column of a tick is stepped from its own drop and speed, the draws taken left to right |
| RainModel.BlankGrid | MatrixRain.cpp:105-114 | a height x width grid of blank cells |
| RainModel.SpawnRow | MatrixRain.cpp:125 | an initial head row lies in -(height-1)..0 |
| RainModel.SpawnSpeed | MatrixRain.cpp:126 | an initial speed lies in 1..3 |
| RainModel.Initialize | MatrixRain.cpp:96-138 | a blank buffer of the recorded size; one head row in -(height-1)..0 and one speed in 1..3 per column; two draws per column; size, trail length and mode kept |
| RainModel.Initial | MatrixRain.cpp:30-41 | the constructed engine satisfies the invariant: shape, trail length for the height, speeds 1..3, head rows in range, well-formed cells |
| RainModel.Tick | MatrixRain.cpp:232-314 | update keeps the invariant and leaves size, trail length and mode unchanged |
| RainModel.AdvancedInv | MatrixRain.cpp:232-314 | Advanced: a buffer painted from stepped columns, with their new drops and speeds, satisfies the invariant |
| RainModel.PaintingUntouched | MatrixRain.cpp:250-302 | the trail loop never writes a row above the current offset's row |
| RainModel.PaintingTrail | MatrixRain.cpp:250-302 | the trail loop's in-place writes leave exactly the trail written into column x, and the draw after it |
| RainModel.StepAtColumn | MatrixRain.cpp:247-313 | StepAt: one pass of the column loop leaves the other columns of the buffer, the other drops and speeds, the size and the mode unchanged; drop x moves by its speed or, past row height + trailLength, respawns at -(height/2 - 1)..0 with speed 1..3 |
| RainModel.PartialStart | MatrixRain.cpp:234-244 | before the column loop the state is the old one with a blank buffer |
| RainModel.PartialNext | MatrixRain.cpp:246-313 | one pass of the column loop turns the state after x columns into the state after x + 1 |
| RainModel.PartialEnd | MatrixRain.cpp:232-314 | after the last column the loop state is a full tick |
| RainModel.Resync | MatrixRain.cpp:341-355 | after the size check the invariant holds, the recorded size is the answer (or 80 x 24, the TerminalSize fallback), and the mode is unchanged |
| RainModel.Checkpoint | MatrixRain.cpp:372-375 | the size check of a frame keeps the invariant and leaves at least two rows |
| RainModel.Frame | MatrixRain.cpp:371-379 | one frame keeps the invariant and the mode |
| RainModel.Frames | MatrixRain.cpp:369-380 | any number of frames keeps the invariant, so every cell's intensity stays in 0..4, and the mode never changes |
| RainProperties.PaletteCodes | MatrixRain.cpp:162-163 | the palette codes 31, 33, 32, 36, 34, 35, 37 name red, yellow, green, cyan, blue, magenta, white |
| RainProperties.ShadeLook | MatrixRain.cpp:158-209 | ShadeParams: from the default rendition, the shade parameters select the rendition intended for the level of a cell that is not bold |
| RainProperties.ColorSequenceLook | MatrixRain.cpp:158-215 | ColorSequence, Look: from the default rendition, the sequence setColor writes selects the rendition intended for the level: black, faint, normal or bold, bold, bold bright; in green or the palette colour |
| RainProperties.ColorSequenceHidden | MatrixRain.cpp:158-215 | ColorSequence: the colour sequence setColor writes displays nothing, whatever follows it |
| RainProperties.GreenShades | matrix_rain.cpp:153-175 | the green mode writes exactly ESC[30m, ESC[2;32m, ESC[32m, ESC[1;32m and ESC[1;92m for levels 0 to 4 |
| RainProperties.BoldSuffix | MatrixRain.cpp:211-214 | ESC[1m follows the shade exactly when the cell is bold and brighter than dim |
| RainProperties.GreenIgnoresColor | MatrixRain.cpp:186-209 | in green mode the palette index has no effect on what setColor writes |
| RainProperties.DefaultColorIsGreen | MatrixRain.hpp:33 | with the default palette index 2 the rainbow mode writes the green mode's strings |
| RainProperties.TrailLengthMonotone | MatrixRain.cpp:75-94 | a taller terminal never gets a shorter trail |
| RainProperties.TrailLengthFallback | MatrixRain.cpp:69-80 | the 80 x 24 fallback gets a trail of 12 |
| RainProperties.InitialFallback | MatrixRain.cpp:30-41 | TerminalSize: without a size answer the engine starts at 80 x 24 with trail 12 and a blank buffer, 80 drops with head rows in -23..0 and speeds 1..3, after 160 draws |
| RainProperties.TickCell | MatrixRain.cpp:232-302 | after a tick a cell is banded by its offset when its row lies on its drop's trail, and blank otherwise |
| RainProperties.BandedBounds | MatrixRain.cpp:255-300 | a banded cell has an intensity in 0..4, 3 or 4 at the head, and is never bold and at most dim in the second half |
| RainProperties.TickDrop | MatrixRain.cpp:304-312 | after a tick each drop has moved by its speed, or, past row height + trailLength, respawned at -(height/2 - 1)..0 with speed 1..3 |
| RainProperties.ResyncUnchanged | MatrixRain.cpp:341-355 | ResyncText: the size check changes nothing and writes nothing exactly when the size is unchanged, both directions |
| RainProperties.ResyncResized | MatrixRain.cpp:349-354 | after a resize the engine has the new size, its trail length, a blank buffer of the new size and freshly initialised drops |
| RainProperties.StripCellText | MatrixRain.cpp:324-333 | CellText: a cell's slot displays its glyph when lit and a space otherwise |
| RainProperties.StripRowText | MatrixRain.cpp:322-334 | RowText: a row's slots display the row's shown characters |
| RainProperties.StripRowsText | MatrixRain.cpp:320-336 | RowsText: rows of slots display each row's characters followed by a newline |
| RainProperties.FrameDisplays | MatrixRain.cpp:316-339 | FrameText: a rendered frame displays rows 0..height-2 of the buffer, lit glyphs and spaces, one line per row; the last row is never written |
| RainProperties.CheckedFramesAre | MatrixRain.cpp:369-375 | Checked: the first n frames check the size on frames 0, 50, 100, ..., once per started block of fifty |
| RainProperties.RunChecks | MatrixRain.cpp:369-375 | run checks the size twenty times, the first time on frame 0 |
| RainProperties.FirstFrameChecks | MatrixRain.cpp:372-378 | the first frame resizes before its first update |
| RainProperties.FramesConsultChecked | MatrixRain.cpp:369-380 | run's result depends on the size answers of the checked frames only |
| MatrixRain.DynamicMatrixRain.constructor | MatrixRain.cpp:30-41 | the new engine is the model's initial state for the size answer and the mode, with nothing written |
| MatrixRain.DynamicMatrixRain.GetTerminalSize | MatrixRain.cpp:50-73 | records TerminalSize of the answer, the answered size or 80 x 24, and returns whether the query succeeded |
| MatrixRain.DynamicMatrixRain.Draw | MatrixRain.cpp:224 | returns the next draw and advances the cursor by one |
| MatrixRain.DynamicMatrixRain.GetRandomChar | MatrixRain.cpp:222-225 | returns the glyph of the next draw |
| MatrixRain.DynamicMatrixRain.GetRandomColor | MatrixRain.cpp:227-230 | returns the next draw modulo 7 |
| MatrixRain.DynamicMatrixRain.ClearScreen | MatrixRain.cpp:140-144 | appends ESC[2J ESC[H |
| MatrixRain.DynamicMatrixRain.HideCursor | MatrixRain.cpp:146-150 | appends ESC[?25l |
| MatrixRain.DynamicMatrixRain.ShowCursor | MatrixRain.cpp:152-156 | appends ESC[?25h |
| MatrixRain.DynamicMatrixRain.SetColor | MatrixRain.cpp:158-215 | appends the colour sequence for the level, bold flag, palette index and mode |
| MatrixRain.DynamicMatrixRain.ResetColor | MatrixRain.cpp:217-220 | appends ESC[0m |
| MatrixRain.DynamicMatrixRain.ClearBuffer | MatrixRain.cpp:235-244 | the buffer becomes all blank at its size, whatever it held |
| MatrixRain.DynamicMatrixRain.InitializeScreen | MatrixRain.cpp:96-138 | the state becomes the model's initialisation of the old state |
| MatrixRain.DynamicMatrixRain.SpawnDrops | MatrixRain.cpp:123-127 | the drops, speeds and cursor become those of the initialisation |
| MatrixRain.DynamicMatrixRain.SpawnDrop | MatrixRain.cpp:125-126 | column x gets its head row from one draw and its speed from the next |
| MatrixRain.DynamicMatrixRain.DrawBand | MatrixRain.cpp:256-285 | returns the band's level and bold flag and takes the band's draw |
| MatrixRain.DynamicMatrixRain.PaintCellAt | MatrixRain.cpp:255-300 | writes the painted cell into (y, x) in place; nothing else changes |
| MatrixRain.DynamicMatrixRain.PaintTrail | MatrixRain.cpp:250-302 | the buffer and cursor become the trail loop's result for column x |
| MatrixRain.DynamicMatrixRain.PaintOffset | MatrixRain.cpp:252-301 | one pass of the trail loop advances its result by one offset |
| MatrixRain.DynamicMatrixRain.Update | MatrixRain.cpp:232-314 | the state becomes one tick of the old state |
| MatrixRain.DynamicMatrixRain.AdvanceColumn | MatrixRain.cpp:247-313 | one pass of the column loop: column x's trail painted and its drop moved |
| MatrixRain.DynamicMatrixRain.MoveDrop | MatrixRain.cpp:304-312 | the drop and speed of column x become the model's move, with its draws |
| MatrixRain.DynamicMatrixRain.Render | MatrixRain.cpp:316-339 | appends the frame text of the buffer |
| MatrixRain.DynamicMatrixRain.RenderRows | MatrixRain.cpp:320-336 | appends the text of rows 0..height-2, each followed by a newline |
| MatrixRain.DynamicMatrixRain.RenderRow | MatrixRain.cpp:322-335 | appends row y's slots and a newline |
| MatrixRain.DynamicMatrixRain.RenderCell | MatrixRain.cpp:324-333 | appends the cell's slot |
| MatrixRain.DynamicMatrixRain.UpdateTerminalSize | MatrixRain.cpp:341-355 | the state and the output become the model's size check for the answer |
| MatrixRain.DynamicMatrixRain.Reinitialize | MatrixRain.cpp:349-354 | recomputes the trail length, reinitialises, and appends the clear text |
| MatrixRain.DynamicMatrixRain.Dispose | MatrixRain.cpp:43-48 | appends ESC[?25h ESC[0m |
| MatrixRain.DynamicMatrixRain.Run | MatrixRain.cpp:357-387 | the state becomes that after 1000 frames; the output gains RunText of those frames: clear and hide the cursor, the frames, then show the cursor, reset and clear, in that order |
| MatrixRain.DynamicMatrixRain.Animate | MatrixRain.cpp:369-380 | state and output follow the model's frames after the 1000 iterations |
| MatrixRain.DynamicMatrixRain.RunFrame | MatrixRain.cpp:371-379 | state and output follow one frame of the model |
| MatrixRain.DynamicMatrixRain.CheckSize | MatrixRain.cpp:372-375 | state and output follow the frame's size check, and at least two rows remain |
| MatrixRain.DynamicMatrixRain.GetWidth | MatrixRain.hpp:55 | the width is non-negative and equals the number of drops and speeds |
| MatrixRain.DynamicMatrixRain.GetHeight | MatrixRain.hpp:56 | the height is at least 1 and equals the number of buffer rows |
| MatrixRain.DynamicMatrixRain.GetTrailLength | MatrixRain.hpp:57 | the trail length is the step value for the height |
| MatrixRain.DynamicMatrixRain.IsRainbowMode | MatrixRain.hpp:58 | outside rainbow mode every cell has palette index 0 |
| ClassicRain.EmbedMono | matrix_rain.cpp:23-28 | a colourless cell survives embedding unchanged, and only the blank embeds as the blank |
| ClassicRain.EmbedWrite | matrix_rain.cpp:246-252 | writing a colourless cell in place writes its embedding into the embedded grid |
| ClassicRain.DynamicMatrixRain.constructor | matrix_rain.cpp:39-45 | the new engine is the model's initial state in green mode, with nothing written |
| ClassicRain.DynamicMatrixRain.GetTerminalSize | matrix_rain.cpp:47-70 | records TerminalSize of the answer, the answered size or 80 x 24, and returns whether the query succeeded |
| ClassicRain.DynamicMatrixRain.Draw | matrix_rain.cpp:189 | returns the next draw and advances the cursor by one |
| ClassicRain.DynamicMatrixRain.GetRandomChar | matrix_rain.cpp:187-190 | returns the glyph of the next draw |
| ClassicRain.DynamicMatrixRain.ClearScreen | matrix_rain.cpp:135-139 | appends ESC[2J ESC[H |
| ClassicRain.DynamicMatrixRain.HideCursor | matrix_rain.cpp:141-145 | appends ESC[?25l |
| ClassicRain.DynamicMatrixRain.ShowCursor | matrix_rain.cpp:147-151 | appends ESC[?25h |
| ClassicRain.DynamicMatrixRain.SetColor | matrix_rain.cpp:153-180 | appends the green-mode colour sequence for the level and bold flag |
| ClassicRain.DynamicMatrixRain.ResetColor | matrix_rain.cpp:182-185 | appends ESC[0m |
| ClassicRain.DynamicMatrixRain.ClearBuffer | matrix_rain.cpp:195-203 | the buffer becomes all blank at its size, whatever it held |
| ClassicRain.DynamicMatrixRain.InitializeScreen | matrix_rain.cpp:93-133 | the state becomes the model's initialisation of the old state |
| ClassicRain.DynamicMatrixRain.SpawnDrops | matrix_rain.cpp:119-123 | the drops, speeds and cursor become those of the initialisation |
| ClassicRain.DynamicMatrixRain.SpawnDrop | matrix_rain.cpp:121-122 | column x gets its head row from one draw and its speed from the next |
| ClassicRain.DynamicMatrixRain.DrawBand | matrix_rain.cpp:215-244 | returns the band's level and bold flag and takes the band's draw |
| ClassicRain.DynamicMatrixRain.PaintCellAt | matrix_rain.cpp:214-253 | writes the painted cell, without its colour, into (y, x) in place; nothing else changes |
| ClassicRain.DynamicMatrixRain.PaintTrail | matrix_rain.cpp:209-255 | the embedded buffer and cursor become the trail loop's result for column x |
| ClassicRain.DynamicMatrixRain.PaintOffset | matrix_rain.cpp:211-254 | one pass of the trail loop advances its result by one offset |
| ClassicRain.DynamicMatrixRain.Update | matrix_rain.cpp:192-267 | the state becomes one green-mode tick of the old state |
| ClassicRain.DynamicMatrixRain.AdvanceColumn | matrix_rain.cpp:206-266 | one pass of the column loop: column x's trail painted and its drop moved |
| ClassicRain.DynamicMatrixRain.MoveDrop | matrix_rain.cpp:257-265 | the drop and speed of column x become the model's move, with its draws |
| ClassicRain.DynamicMatrixRain.Render | matrix_rain.cpp:269-292 | appends the frame text of the buffer |
| ClassicRain.DynamicMatrixRain.RenderRows | matrix_rain.cpp:273-289 | appends the text of rows 0..height-2, each followed by a newline |
| ClassicRain.DynamicMatrixRain.RenderRow | matrix_rain.cpp:275-288 | appends row y's slots and a newline |
| ClassicRain.DynamicMatrixRain.RenderSlot | matrix_rain.cpp:277-286 | one pass of the cell loop extends the row's text by cell x |
| ClassicRain.DynamicMatrixRain.RenderCell | matrix_rain.cpp:277-286 | appends the cell's slot |
| ClassicRain.DynamicMatrixRain.UpdateTerminalSize | matrix_rain.cpp:294-308 | the state and the output become the model's size check for the answer |
| ClassicRain.DynamicMatrixRain.Reinitialize | matrix_rain.cpp:302-307 | recomputes the trail length, reinitialises, and appends the clear text |
| ClassicRain.DynamicMatrixRain.Run | matrix_rain.cpp:310-339 | the state becomes that after 1000 frames; the output gains RunText of those frames: clear and hide the cursor, the frames, then show the cursor, reset and clear, in that order |
| ClassicRain.DynamicMatrixRain.Animate | matrix_rain.cpp:321-332 | state and output follow the model's frames after the 1000 iterations |
| ClassicRain.DynamicMatrixRain.RunFrame | matrix_rain.cpp:323-331 | state and output follow one frame of the model |
| ClassicRain.DynamicMatrixRain.CheckSize | matrix_rain.cpp:324-327 | state and output follow the frame's size check, and at least two rows remain |

## Left out

- The signal handler and the process-wide current-instance pointer (`MatrixRain.cpp:17-28`, `33-35`, `45`) are not modelled, because asynchronous signals and process exit lie outside the model.
- The sleeps between frames and after the banner are not modelled, because time is outside the model.
- Flushing of standard output is not modelled: it does not change the text written.
- The seeding of the generator from the clock, and the Mersenne Twister algorithm itself, are not modelled.
  The draws are an arbitrary stream `rand`, so every property holds for every seed and every generator.
- MatrixRain.DynamicMatrixRain.InitializeScreen: the diagnostic lines it prints are not part of `out`, because they are plain progress text with no effect on the state.
  These are the size, the trail length and the mode (`MatrixRain.cpp:129-131`, `matrix_rain.cpp:125-126`).
- ClassicRain.DynamicMatrixRain.InitializeScreen: the same holds for the green-only copy.
- MatrixRain.DynamicMatrixRain.Run: the banner before the frames and the closing message with the final size are not part of `out`, for the same reason (`MatrixRain.cpp:362-365`, `385-386`).
- ClassicRain.DynamicMatrixRain.Run: the same holds for the green-only copy (`matrix_rain.cpp:315-317`, `337-338`).
- Allocation failure in `initializeScreen` (the `try`/`catch` and `exit(1)`) is not modelled: Dafny sequences do not run out of memory.
- The `main` function of `matrix_rain.cpp` and the separate `main.cpp` and `MenuInterface` files are not part of this model.
  The mode they choose is the constructor's `rainbow` parameter.
- MatrixRain.DynamicMatrixRain.Update: it requires at least two rows.
  On a one-row terminal with at least one column, the respawn's `% (height / 2)` divides by zero once a drop passes the bottom, which it does within the first frames; the source does not guard this.
  With no columns there is no drop to move and no division, so the source survives one row. The model excludes that case too, because `Move`, `StepColumn` and `Tick` take the two-row bound whatever the width.
  For the same reasons `run`'s size answers must report at least two rows (`ResizeOk`).
- ClassicRain.DynamicMatrixRain.Update: the same two-row requirement, for the same reasons.
- MatrixRain.DynamicMatrixRain.constructor: it requires the size answer to have at least one row and a non-negative width (`SizeOk`).
  A zero-row answer with at least one column makes `initializeScreen`'s `% height` divide by zero.
  The zero-row answer with no columns, 0 x 0, is what an unsized pseudo-terminal reports. The source survives it: it makes no draw, visits no column, and renders only ESC[H each frame.
  The model excludes that answer as well, because the invariant (`Inv`) and the frame text (`FrameText`) assume at least one row.
- ClassicRain.DynamicMatrixRain.constructor: the same requirement, for the same reasons.
- The destructor is modelled as `Dispose`, an explicit call, because Dafny has no destructors.
- `int` arithmetic is unbounded in the model.
  The source's `int` cannot overflow for terminal-sized values.
  The conversion of the negated unsigned remainder back to `int` is taken as the negative remainder, as two's-complement conversion gives.
- What a terminal does with the escape sequences is modelled only as far as `Strip` goes (which characters are displayed) and `Effect` goes (the rendition an SGR sequence selects).
  Cursor movement and erasing are not interpreted.
