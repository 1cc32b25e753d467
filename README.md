# A verified model of a terminal display engine

This project models the core of a terminal compositor written in
JavaScript. Programs draw on rectangular **buffers** placed on the screen.

Buffers come in two kinds:
- a text buffer (buffer.js) holds a character and two colours per cell;
- a pixel buffer (pixelBuffer.js) holds one colour per cell, and each pair of
  its rows makes one row of half-block "pixels" on screen.

Handing a buffer over means sending one draw request per changed cell to the
screen. The screen is owned by the display engine (main.js) or by the older
buffer manager (manager.js).

Every screen cell keeps a **construction** (construction.js): a list of the
buffers' contributions ordered by z-index. The construction resolves to the
glyph and colours the cell shows, using the colour arithmetic of utils.js.
The screen caches what each cell shows and emits escape sequences only for
cells that change.

The engine also has a **ghost pass**. Buffers apply their contributions
without drawing; the engine remembers the touched cells and later resolves
and emits all of them at once.

Colours are 32-bit codes: an opacity 0..100 in the high byte and an RGB value
below it. tools.js packs such codes.

## How the model is laid out

| module | file | models |
|---|---|---|
| `Wrappers` | wrappers.dfy | an `Option` type |
| `Colors` | colors.dfy | utils.js: packed colours, the 32-bit operators, RGBA layering |
| `Tools` | tools.dfy | tools.js: `hex`, `rgba`, `color`, `colors` |
| `Compositor` | construction.dfy | construction.js: the sorted list, `apply`, `determineOutput` |
| `Screen` | screen.dfy | the screen cache, the ghost and direct passes (main.js, manager.js) |
| `Terminal` | terminal.dfy | brushes, colour modes, the 256-colour quantiser, escape tokens and a terminal that interprets them |
| `Engine` | engine.dfy | main.js: the `DisplayEngine` class |
| `Manager` | manager.dfy | manager.js: the `BufferManager` class |
| `Canvas` | canvas.dfy | what a buffer's `write` and `draw` do to its canvas |
| `TextSurface` | textbuffer.dfy | buffer.js: the `TextBuffer` class |
| `PixelSurface` | pixelbuffer.dfy | pixelBuffer.js: the `PixelBuffer` class |

Code that works on values is written as functions and lemmas:
- the colour arithmetic;
- the quantiser;
- the resolution of a construction.

Code that updates state in place is written as classes with `modifies`
frames:
- the construction's linked list, as a class whose `entries` field the
  methods splice;
- the engine and the manager, with their typed-array caches as an
  `array<Cell>`;
- the two buffers, with their canvases as arrays.

The loops of the source are methods with invariants. Each of these methods
is proved against a specification function, for example:
- `Compositor.Inserted` and `Compositor.Resolve`;
- `Screen.GhostPass` and `Screen.DirectPass`;
- `TextSurface.TextBuffer.Sends` and `PixelSurface.AllSends`.

The lemmas then state what those functions promise.

The two screen owners have different invariants:
- For the engine, every cell not waiting for the ghost pass is cached as what
  its construction resolves to (`Screen.Cached`).
- For the manager, every cell is cached that way.

A separate terminal model (`Terminal.Interpret`) gives the emitted tokens a
meaning. With it, the model proves that the tokens for a cell put that glyph
in those colours at that position, and that the engine's record of the
terminal stays in sync.

## Model

| member | source | states |
|---|---|---|
| `Colors.ToInt32` | utils.js:5 | the 32-bit two's-complement value used by `>>` and `<<`: in range, and the identity on every value already in the signed 32-bit range |
| `Colors.ToUint32` | buffer.js:26-30 | what a `Uint32Array` stores: in 0..2^32, and the identity on values already in range |
| `Colors.ToUint16` | buffer.js:25 | what a `Uint16Array` stores: in 0..2^16, and the identity on values already in range |
| `Colors.ShiftLeft` | utils.js:14 | `x << k` is a signed 32-bit value; `Colors.ShiftLeftExact` adds that it is exactly `x * 2^k` whenever that product fits |
| `Colors.GetHex` | utils.js:4 | `c & 0xffffff` is a 24-bit RGB value |
| `Colors.GetOpacity` | utils.js:5 | `c >> 24` lies in -128..127, and on a non-negative 31-bit code it is the high byte |
| `Colors.CheckOpacity` | utils.js:6-10 | the result lies in 0..100: below 0 gives 0, above 100 gives 100, and anything between is kept |
| `Colors.CheckOpacityIdempotent` | utils.js:6-10 | clamping twice is clamping once |
| `Colors.ShiftLeft24` | utils.js:14 | `n << 24` has no low bits, and for a signed byte it is exactly `n * 2^24` |
| `Colors.PackUnpack` | utils.js:4-5 | a code packed from an RGB value and an opacity in -128..127 unpacks to both again |
| `Colors.CodeSplits` | utils.js:4-5 | every non-negative 32-bit code below 2^31 is its opacity times 2^24 plus its RGB value |
| `Colors.FadeColor` | utils.js:12-15 | fading keeps the RGB value; for a valid percentage the new opacity lies between 0 and the old one |
| `Colors.FadeKeepsHex` | utils.js:14 | adding a shifted opacity to an RGB value leaves the RGB value intact |
| `Colors.FadeBounds` | utils.js:13 | `floor(o * p / 100)` lies between 0 and `o` for `o >= 0` and `0 <= p <= 100` |
| `Colors.FadedLevel` | utils.js:13 | the floor of `o * p / 100` lies between 0 and `o` for `o >= 0` and a percentage `p` in 0..100 |
| `Colors.Decode` | utils.js:20-25 | `new RGBA(code)` has finite channels in 0..255, and its alpha is the code's opacity |
| `Colors.Round` | utils.js:34-37 | `Math.round(x)` is the integer `n` with `n <= x + 0.5 < n + 1` |
| `Colors.RoundShift` | utils.js:33-36 | `Math.round(x) << k` is a signed 32-bit value, and 0 for NaN |
| `Colors.ToCode` | utils.js:33-37 | `toCode` is NaN exactly when the blue channel is NaN |
| `Colors.DecodeToCode` | utils.js:19-37 | decoding a code with opacity 0..100 and calling `toCode` gives the code back |
| `Colors.Blend` | utils.js:44 | `calcValue` is NaN exactly when one of its channels is; at opacity 100 it is the top channel, at opacity 0 the bottom one |
| `Colors.Layered` | utils.js:40-51 | an invisible top gives the bottom, and a top with opacity above 99 replaces the bottom |
| `Colors.BlendBetween` | utils.js:44 | `calcValue` lies between the two channel values it blends |
| `Colors.LayeredBlends` | utils.js:40-51 | a translucent top over a finite bottom gives opacity 100, with every channel between the two layers' channels |
| `Colors.LayeredInRange` | utils.js:40-51 | layering two colours with channels in 0..255 gives channels in 0..255 |
| `Tools.Hex` | tools.js:29 | `hex(h, o)` carries the RGB value `h` and the opacity clamped to 0..100 |
| `Tools.PackRgba` | tools.js:30 | for channels in 0..255 the packed code is a non-negative 31-bit value whose RGB part is `r * 2^16 + g * 2^8 + b` and whose opacity is the clamped `a` |
| `Tools.PackRgbaDecodes` | tools.js:30 | `rgba(r, g, b, a)` decodes to the same channels and the clamped opacity |
| `Tools.Color` | tools.js:45 | `color(name)` is defined exactly for the preset names; it carries the preset's RGB value, and any opacity in -128..127 unchanged |
| `Tools.PresetColors` | tools.js:46-48 | `colors` has exactly the preset names |
| `Tools.PresetColorsOpaque` | tools.js:46-48 | every entry of `colors` is its preset RGB value at opacity 100 |
| `Tools.ColorDoesNotClamp` | tools.js:45 | `color` keeps an opacity of 120, where `hex` clamps it to 100 |
| `Compositor.IndexOf` | construction.js:38-47 | the first index with the id, and the length exactly when the id is absent |
| `Compositor.InsertPos` | construction.js:25-33 | the first index whose z-index exceeds `z`; every entry before it has z-index at most `z` |
| `Compositor.Inserted` | construction.js:15-36 | `addSorted` makes the list at most one entry longer and never shorter |
| `Compositor.Replaces` | construction.js:19-23 | the walk only replaces when the id is in the list |
| `Compositor.Deleted` | construction.js:38-48 | `deleteById` never makes the list longer |
| `Compositor.InsertedPrefix` | construction.js:17-32 | the runner passes entries with another id and a z-index not above the new one, and keeps them |
| `Compositor.DeletedPrefix` | construction.js:39-47 | the runner passes entries with another id and keeps them |
| `Compositor.DeletedRemovesFirst` | construction.js:38-48 | `deleteById` unlinks the first entry with the id, and changes nothing when there is none |
| `Compositor.Applied` | construction.js:59-62 | `apply` with data puts exactly that entry in the list; without data and with an absent id it changes nothing |
| `Compositor.InsertedAbsentAt` | construction.js:15-36 | a new id is linked in after every entry with z-index not above its own |
| `Compositor.InsertedAbsentSorted` | construction.js:15-36 | inserting a new id keeps the list sorted by z-index and makes it one longer |
| `Compositor.InsertedReplacesInPlace` | construction.js:19-23 | an id met before any larger z-index is replaced in place |
| `Compositor.AbsentNotReplaced` | construction.js:19-23 | an absent id is never taken for a replacement |
| `Compositor.RemovalKeeps` | construction.js:42 | unlinking one entry keeps the list sorted, ids unique and z-indices per id, and removes its id |
| `Compositor.ReplacementKeeps` | construction.js:19-23 | a replacement at the buffer's fixed z-index keeps sortedness, unique ids and the id set |
| `Compositor.InsertionKeeps` | construction.js:25-35 | inserting a new id keeps sortedness, unique ids and fixed z-indices, and adds the id |
| `Compositor.AppliedFixedZ` | construction.js:59-62 | `apply` with each buffer's fixed z-index keeps the list sorted with unique ids, and adds or removes the id |
| `Compositor.AddedIdsTrack` | construction.js:12-43 | the `addedIDs` updates of `addSorted` and `deleteById` keep that set equal to the ids in the list |
| `Compositor.ApplyAllFixedZ` | construction.js:59-62 | any sequence of applies keeps the list sorted, with unique ids and fixed z-indices |
| `Compositor.SmallerZDuplicates` | construction.js:19-25 | an id re-added with a smaller z-index is inserted before its old entry, which stays |
| `Compositor.Start` | construction.js:67-71 | the walk starts from a space with colours 0, every layer set to the start colour |
| `Compositor.Step` | construction.js:133-139 | one contribution keeps the code, resets it to a space, or sets it to that point's own glyph |
| `Compositor.FoldCode` | construction.js:135-139 | after the walk the code is the start code, a space, or the glyph of some point in the list |
| `Compositor.ProcessPoint` | construction.js:90-114 | a point sets the code when its glyph is not a space and its foreground is visible; an opaque background resets it to a space; otherwise the code is kept |
| `Compositor.ProcessPixel` | construction.js:117-131 | a visible half turns the cell back into a space, and otherwise the code is kept |
| `Compositor.Finish` | construction.js:141-164 | a glyph keeps its colours; otherwise two halves that differ give the upper half-block (visible top) or the lower one (visible bottom), and two equal halves give a space on that colour |
| `Compositor.ResolveShown` | construction.js:66-166 | both `determineOutput` variants show a space, a half block, or the glyph of some point in the list |
| `Compositor.ResolveEmpty` | construction.js:66-166 | an empty construction resolves to a space on colour 0 |
| `Compositor.RemovalBlanks` | construction.js:59-62 | withdrawing the only contribution blanks the cell |
| `Compositor.Unpacks` | utils.js:19-37 | a colour with opacity 0..100 survives the round trip through `RGBA` and `toCode` |
| `Compositor.ZOrderExample` | construction.js:15-36 | a point with a higher z-index sorts after a lower one, and its glyph and colour win |
| `Compositor.HalfBlockExample` | construction.js:141-157 | one opaque pixel with different halves shows the upper half-block in those colours |
| `Compositor.TranslucentPixelLostAsWritten` | construction.js:65 | with `emptyRGBA` as written, a half-transparent pixel over nothing resolves to a blank cell |
| `Compositor.TranslucentPixelDrawn` | construction.js:65 | with a transparent-black start, the same pixel shows its blended colour |
| `Compositor.PixelFoldFinite` | construction.js:117-131 | folding pixels keeps both halves finite and the code a space |
| `Compositor.PixelsResolve` | construction.js:141-158 | a cell made only of pixels shows a half-block exactly when its halves differ, and otherwise a space on the common colour |
| `Compositor.Construction.constructor` | construction.js:10-13 | a new construction is empty |
| `Compositor.Construction.AddSorted` | construction.js:15-36 | the list becomes `Inserted` of the old one, and the id set grows unless an entry was replaced |
| `Compositor.Construction.DeleteById` | construction.js:38-48 | the list becomes `Deleted` of the old one, and the id leaves the set if it was there |
| `Compositor.Construction.Apply` | construction.js:59-62 | a contribution is added or replaced, and a missing one deletes the id |
| `Compositor.Construction.DetermineOutput` | construction.js:66-166 | the loop over the list computes `Resolve` of the list |
| `Screen.ScreenIndex` | main.js:49-53 | an index exists exactly on screen, and it gives back the column and the row |
| `Screen.ScreenIndexInRange` | manager.js:45-49 | an on-screen position's index lies inside the screen and gives back its column and row |
| `Screen.ScreenIndexOfPosition` | main.js:243-244 | the column and row that the ghost pass derives from a cell index give that index back |
| `Screen.NumToUint32` | main.js:210-212 | what a `Uint32Array` keeps of a resolved colour: in 0..2^32, 0 for NaN, and the integer itself when it is already in range |
| `Screen.Store` | main.js:210-212 | storing an output puts values in the typed arrays' ranges |
| `Screen.Differs` | main.js:190-194 | a NaN colour always differs from the cache; a cell that does not differ has the cached glyph |
| `Screen.OpaquePixelRedrawnAsWritten` | construction.js:65 | with `emptyRGBA` as written, an opaque green pixel over a transparent bottom resolves to a NaN background, which differs from every cached cell |
| `Screen.OpaquePixelSettles` | main.js:190-194 | with a transparent-black start the same pixel resolves to background 0, and once stored it no longer differs |
| `Screen.SameNeedsNoStore` | main.js:190-194 | a cell that does not differ from the cache needs no store |
| `Screen.BlankIsEmpty` | main.js:33-36 | the start-up cache (code 32, colours 0) is what an empty construction resolves to |
| `Screen.NewConstructions` | main.js:37-42 | one fresh, empty and distinct construction per cell |
| `Screen.NewCache` | main.js:33-36 | a fresh cache of the screen's size, every cell a space with colours 0 |
| `Screen.EntriesOf` | main.js:27 | the lists of all constructions, in screen order |
| `Screen.ResolveAll` | main.js:242 | what every cell resolves to |
| `Screen.ApplyRequest` | main.js:216-220 | a request changes only its own cell, and there it applies its contribution; off screen it changes nothing |
| `Screen.ApplyRequests` | main.js:216-220 | a run of requests keeps the screen's size |
| `Screen.ApplyRequestsAppend` | main.js:216-220 | applying two runs of requests one after the other is applying their concatenation |
| `Screen.AddPending` | main.js:225-232 | the waiting set gains exactly the request's on-screen cell, keeps its order, and stays duplicate-free |
| `Screen.AddAllPending` | main.js:225-232 | a run of ghost requests only adds on-screen cells to the waiting set |
| `Screen.AddAllPendingAppend` | main.js:225-232 | adding two runs one after the other is adding their concatenation |
| `Screen.StoreNextCached` | main.js:240-246 | storing the next waiting cell keeps the cache invariant with one cell fewer waiting |
| `Screen.BlankCached` | main.js:29-43 | the start-up screen satisfies the cache invariant with nothing waiting |
| `Screen.GhostRequestCached` | main.js:226-232 | a ghost draw keeps the cache invariant, because the cell it changes waits |
| `Screen.DrawRequestCached` | main.js:216-223 | a direct draw keeps the cache invariant once its cell is stored |
| `Screen.Draw` | main.js:187-213 | drawing a cell keeps the cache's size |
| `Screen.DrawStores` | main.js:187-213 | after `addToCurrentRender` the cell is cached as its output, and no other cell changes |
| `Screen.Extend` | main.js:240-246 | drawing one more waiting cell keeps the cache's size |
| `Screen.GhostPass` | main.js:239-249 | the ghost pass keeps the cache's size |
| `Screen.GhostPassStores` | main.js:239-249 | after the ghost pass every waiting cell is cached as what it resolves to, and every other cell is untouched |
| `Screen.GhostPassCached` | main.js:239-249 | after the ghost pass nothing needs to wait: the whole cache shows what the screen resolves to |
| `Screen.GhostPassSynced` | main.js:239-249 | the ghost pass's tokens, run on a synced terminal, draw each waiting cell at its own column and row and keep the terminal in sync |
| `Screen.DirectStep` | manager.js:212-219 | a direct request keeps the cache's size |
| `Screen.DirectPass` | manager.js:212-219 | a run of direct requests produces the screen after them and only appends tokens |
| `Screen.DirectPassCached` | manager.js:195-219 | direct requests keep every cell cached as what the screen after them resolves to |
| `Terminal.EngineBrush` | main.js:72-80 | a missing colour takes the default; a buffer opacity below 100 fades both colours, and otherwise they are kept |
| `Terminal.ManagerBrush` | manager.js:62-70 | a falsy colour takes the default; a buffer opacity below 100 fades both colours, and otherwise they are kept |
| `Terminal.BrushesDifferOnZero` | manager.js:62-70 | at any buffer opacity an explicit colour 0 survives in main.js (fading 0 gives 0) but takes the default foreground's RGB value in manager.js; at full opacity manager.js gives exactly the defaults |
| `Terminal.SetColorMode` | main.js:169-175 | a known name selects its mode, and an unknown name changes nothing |
| `Terminal.GreyOptions` | main.js:92-93 | the grey ramp holds 24 levels, 8 + 10i |
| `Terminal.Closest` | main.js:99-105 | the walk of `findClosest` returns an index of the options |
| `Terminal.FindClosestAsWritten` | main.js:96-106 | `findClosest` as written returns an index of the options |
| `Terminal.Nearest` | main.js:96-106 | the corrected `findClosest` returns an index of the options |
| `Terminal.ClosestIsNearest` | main.js:99-105 | on ascending options the walk stops at a nearest option and returns its distance |
| `Terminal.NearestIsNearest` | main.js:96-106 | the corrected `findClosest` returns a nearest option and its distance |
| `Terminal.FindClosest` | main.js:96-106 | the do-while loop, started as written from `lastDelta = num`, computes `FindClosestAsWritten`; with a first option 0 and `num >= 0` it is `Nearest`, and on ascending options its index is a nearest option |
| `Terminal.Pick` | main.js:96-106 | either variant returns an index of the options |
| `Terminal.CubeCode` | main.js:107 | `colorIndexToCode` of three levels in 0..5 lies in 16..231 |
| `Terminal.QuantizeWith` | main.js:109-120 | `hexTo256Color` returns a code in 16..255 |
| `Terminal.HexTo256AsWritten` | main.js:95-121 | `hexTo256Color` exactly as written returns a code in 16..255 |
| `Terminal.HexTo256` | main.js:95-121 | the corrected quantiser returns a code in 16..255 |
| `Terminal.CubeCellOfCode` | main.js:107 | `colorIndexToCode` lands in 16..231 and gives its cube cell back |
| `Terminal.OptionsAscending` | main.js:91-93 | both option lists ascend |
| `Terminal.ColoredNearest` | main.js:110-114 | a coloured value maps each channel to a nearest cube level |
| `Terminal.GreyNearest` | main.js:115-120 | a grey value takes the nearest ramp entry when it is strictly nearer than the cube, and otherwise the nearest cube grey |
| `Terminal.QuantizeNearest` | main.js:109-120 | every channel triple gets the nearest palette entry, as the two lemmas above state |
| `Terminal.HexTo256Nearest` | main.js:95-121 | for every 24-bit value the corrected `hexTo256Color` picks a nearest level of the 256-colour palette |
| `Terminal.GreyStartAsWritten` | main.js:97 | as written, grey 0x050505 maps to cube black 16; corrected, it maps to ramp entry 232 |
| `Terminal.ColoredAsWrittenAgrees` | main.js:110-114 | for a value whose channels are not all equal, the as-written and the corrected quantiser agree |
| `Terminal.Ansi` | main.js:163-165 | the escape of a colour mode: a 256-colour index in 16..255 exactly in 8-bit mode, and otherwise the hex value itself, as an RGB escape exactly in 24-bit mode |
| `Terminal.NumOpacity` | main.js:199 | `getOpacity` of a resolved colour lies in -128..127, and NaN gives 0 |
| `Terminal.NumHex` | main.js:201-203 | `getHex` of a resolved colour is a 24-bit value, and NaN gives 0 |
| `Terminal.ColorTokens` | main.js:196-204 | no escape when both colours are unchanged; a reset exactly when a colour changed and the background is transparent; at most two escapes |
| `Terminal.Emit` | main.js:196-208 | the tokens of a cell end with its glyph, and the terminal data becomes its position and colours |
| `Terminal.NeedsMove` | main.js:206 | a cursor move is emitted exactly when the cell is not just right of the last glyph on its row |
| `Terminal.RunAppend` | main.js:234-236 | running two token runs one after the other is running their concatenation |
| `Terminal.InitialSynced` | main.js:179-183 | the start-up terminal data agrees with a fresh terminal |
| `Terminal.ColorTokensSync` | main.js:196-204 | the colour escapes leave the terminal's active colours as the cell's colours |
| `Terminal.EmitShows` | main.js:196-208 | the tokens put the glyph at (x, y) in the cell's colours, change no other cell, and keep the terminal data in sync |
| `Terminal.EmitAllSynced` | main.js:240-246 | emitting cells one after another keeps the terminal data in sync |
| `Terminal.AdjacentNoMove` | main.js:206 | a cell just right of the last glyph needs no cursor move |
| `Engine.ExtendTokens` | main.js:186 | drawing after tokens already collected appends to them |
| `Engine.GroupRequests` | main.js:253-254 | only non-persistent buffers issue requests, so a group of persistent buffers issues none |
| `Engine.QueueRequests` | main.js:275 | every request comes from the callback of some queued buffer |
| `Engine.DisplayEngine.constructor` | main.js:29-44 | a blank screen with empty constructions, satisfying the cache invariant; defaults white on transparent, 24-bit mode, nothing waiting |
| `Engine.DisplayEngine.SetFg` | main.js:57 | sets the default foreground |
| `Engine.DisplayEngine.SetBg` | main.js:58 | sets the default background |
| `Engine.DisplayEngine.SetColor` | main.js:59-62 | sets both defaults |
| `Engine.DisplayEngine.ResetColor` | main.js:63 | the defaults are white at opacity 100 on transparent |
| `Engine.DisplayEngine.SetColorMode` | main.js:169-175 | the mode is that of `Terminal.SetColorMode` |
| `Engine.DisplayEngine.Sample` | main.js:66-70 | the cached colours of an on-screen cell, and zeros off screen |
| `Engine.DisplayEngine.SampleResolved` | main.js:66-70 | a sampled cell that is not waiting shows the colours its construction resolves to |
| `Engine.DisplayEngine.PushColors` | main.js:196-204 | appends exactly `Terminal.ColorTokens` |
| `Engine.DisplayEngine.AddToCurrentRender` | main.js:187-213 | the tokens and cache of `Screen.Draw`: an unchanged cell is skipped, and any other is emitted and stored |
| `Engine.DisplayEngine.ApplyAt` | main.js:219-220 | one construction applies the contribution, and `screen` follows it |
| `Engine.DisplayEngine.RequestDraw` | main.js:216-223 | keeps the invariant; the screen is `ApplyRequest`, and tokens, cache and terminal data are those of `Screen.DirectStep` |
| `Engine.DisplayEngine.RequestGhostDraw` | main.js:226-232 | keeps the invariant; the screen is `ApplyRequest` and the waiting set is `AddPending` |
| `Engine.DisplayEngine.ExecuteRender` | main.js:234-237 | the collected tokens are written out and the collection is emptied |
| `Engine.DisplayEngine.IssueDraws` | main.js:216-223 | a run of direct requests computes `Screen.DirectPass` and keeps the invariant and the waiting set |
| `Engine.DisplayEngine.Present` | main.js:216-237 | a buffer's direct requests followed by `executeRender` |
| `Engine.DisplayEngine.DrawWaiting` | main.js:241-245 | one waiting cell drawn: `Screen.Extend`, with the cell cached as what it resolves to |
| `Engine.DisplayEngine.DrawNext` | main.js:240-246 | one turn of the ghost loop advances the pass by one waiting cell |
| `Engine.DisplayEngine.DrawPending` | main.js:240-246 | the loop computes `Screen.GhostPass`, and afterwards every cell is cached |
| `Engine.DisplayEngine.ExecuteGhostRender` | main.js:239-249 | the ghost pass is written out, the waiting set is emptied, and the whole cache shows what the screen resolves to |
| `Engine.DisplayEngine.IssueGhost` | main.js:226-232 | a buffer's ghost requests give `ApplyRequests` and `AddAllPending`, keeping the invariant |
| `Engine.DisplayEngine.CallOne` | main.js:253-254 | a buffer's callback, skipped when it is persistent |
| `Engine.DisplayEngine.IssueBuffers` | main.js:253-254 | the callbacks of every non-persistent buffer, in order |
| `Engine.DisplayEngine.CallBuffers` | main.js:251-256 | when paused nothing changes; otherwise the group's ghost requests are applied and the ghost pass runs |
| `Engine.DisplayEngine.AddToQueue` | main.js:269-272 | appends the buffer and its method to the queue |
| `Engine.DisplayEngine.IssueQueue` | main.js:275 | each queued callback in order, persistent or not |
| `Engine.DisplayEngine.ExecuteQueue` | main.js:273-278 | when paused nothing changes and the queue is kept; otherwise the queued requests are applied, the ghost pass runs and the queue is emptied |
| `Manager.BufferManager.constructor` | manager.js:25-40 | a blank screen with empty constructions and every cell cached; defaults white on transparent, 24-bit mode |
| `Manager.BufferManager.SetFg` | manager.js:53 | sets the default foreground |
| `Manager.BufferManager.SetBg` | manager.js:54 | sets the default background |
| `Manager.BufferManager.SetColor` | manager.js:55-58 | sets both defaults |
| `Manager.BufferManager.ResetColor` | manager.js:59 | the defaults are white at opacity 100 on transparent |
| `Manager.BufferManager.SetColorMode` | manager.js:159-165 | the mode is that of `Terminal.SetColorMode` |
| `Manager.BufferManager.PushColors` | manager.js:180-188 | appends exactly `Terminal.ColorTokens` |
| `Manager.BufferManager.AddToCurrentRender` | manager.js:177-193 | appends the tokens of `Terminal.Emit`, and the terminal data becomes the cell's |
| `Manager.BufferManager.RequestRender` | manager.js:195-209 | emits the cell only if it differs from the cache, and stores it either way |
| `Manager.BufferManager.ApplyAt` | manager.js:215-216 | one construction applies the contribution, and `screen` follows it |
| `Manager.BufferManager.RequestDraw` | manager.js:212-219 | keeps every cell cached; the screen is `ApplyRequest`, and the rest is `Screen.DirectStep` |
| `Manager.BufferManager.IssueDraws` | manager.js:212-219 | a run of requests computes `Screen.DirectPass` and keeps every cell cached |
| `Manager.BufferManager.ExecuteRender` | manager.js:221-225 | the collected tokens are written out and the collection is emptied |
| `Manager.BufferManager.Present` | manager.js:212-225 | a buffer's requests and `executeRender`; afterwards the whole cache shows what the screen resolves to |
| `Canvas.Span` | buffer.js:71-76 | a do-while loop runs at least once, and `amount` times when `amount` is positive |
| `Canvas.JsRem` | pixelBuffer.js:72 | JavaScript's `%`: the remainder has the dividend's sign, lies strictly within the modulus, and differs from the dividend by a multiple of it |
| `Canvas.RowEnd` | buffer.js:69 | the cursor's row ends inside the buffer |
| `Canvas.Spread` | buffer.js:71-76 | a write keeps the canvas's length |
| `Canvas.SpreadStep` | buffer.js:72-75 | one loop turn of `write` stores the next value at its index, or nowhere outside the array |
| `Canvas.SpreadShows` | buffer.js:71-76 | the values written are read back from the cells they went to, and the cells before and after are unchanged |
| `Canvas.OnRow` | buffer.js:84-90 | a draw keeps the canvas's length |
| `Canvas.OnRowStep` | buffer.js:86-89 | one loop turn of `draw` stores at its coordinate index, or nowhere off the buffer |
| `Canvas.OnRowShows` | buffer.js:81-92 | every drawn value that lands on the buffer is read back at its coordinate index, and no other row changes |
| `TextSurface.CodeAt` | buffer.js:74 | `charCodeAt(i)` as stored: the i-th code unit, and 0 past the end, always a Uint16 value |
| `TextSurface.TextCell` | buffer.js:59-63 | a stored cell fits the Uint16/Uint32 arrays |
| `TextSurface.TextRun` | buffer.js:72-76 | the i-th stored cell is the i-th code unit with the brush |
| `TextSurface.WriteAmount` | buffer.js:67-69 | the amount never exceeds the string or the buffer, stays on the cursor's row without wrapping, and is positive for a non-empty string |
| `TextSurface.WriteStaysOnRow` | buffer.js:67-76 | without wrapping every cell a `write` stores lies on the cursor's row |
| `TextSurface.Next` | buffer.js:139-145 | when painting, a code from a non-empty canvas cell replaces the current code unless it is 0 |
| `TextSurface.NextAll` | buffer.js:152-157 | `current` after a pass, cell by cell |
| `TextSurface.RenderTakesCanvas` | buffer.js:125-136 | a render puts the canvas into `current` as it is |
| `TextSurface.PaintEmptyKeeps` | buffer.js:139-150 | painting an empty canvas keeps `current` exactly |
| `TextSurface.TextBuffer.constructor` | buffer.js:1-30 | the buffer's position, size and id; both arrays empty; cursor 0, no wrapping, opacity 100 |
| `TextSurface.TextBuffer.AssignId` | buffer.js:21 | sets the id |
| `TextSurface.TextBuffer.ClearCurrent` | buffer.js:33-38 | `current` is emptied |
| `TextSurface.TextBuffer.CursorTo` | buffer.js:46-51 | the cursor moves to an in-buffer cell, and stays put off the buffer |
| `TextSurface.TextBuffer.CenterWidth` | buffer.js:53 | the column that centres width `w`: `floor((width - w) / 2)` |
| `TextSurface.TextBuffer.CenterHeight` | buffer.js:54 | the row that centres height `h`: `floor((height - h) / 2)` |
| `TextSurface.TextBuffer.Write` | buffer.js:65-79 | the string's cells are spread from the cursor over `WriteAmount` cells (at least one), and the cursor moves past them modulo the size |
| `TextSurface.TextBuffer.Draw` | buffer.js:81-92 | the string's cells are stored along row `y` from column `x`, clipped to the buffer |
| `TextSurface.TextBuffer.DrawAbsolute` | buffer.js:94-99 | `draw` at the screen position less the buffer's position |
| `TextSurface.TextBuffer.Fill` | buffer.js:101-107 | every cell becomes a space with foreground 0 on the brush's background |
| `TextSurface.TextBuffer.PointRequest` | buffer.js:118-123 | the request carries the buffer's id and z-index and the cell's screen position; it withdraws exactly for code 0 |
| `TextSurface.TextBuffer.Sends` | buffer.js:134-135 | a pass over k cells sends at most k requests |
| `TextSurface.TextBuffer.SendsExactly` | buffer.js:134-135 | a pass sends a request for a cell exactly when its value changes, and nothing else |
| `TextSurface.TextBuffer.TransferToCurrent` | buffer.js:110-115 | the canvas cell is emptied and `current` takes the value |
| `TextSurface.TextBuffer.RenderAt` | buffer.js:125-150 | one cell moves into `current` and is sent only if it changed |
| `TextSurface.TextBuffer.HandleRender` | buffer.js:152-157 | the canvas ends empty, `current` is `NextAll`, and the requests are those of the cells that changed, in index order |
| `TextSurface.TextBuffer.Render` | buffer.js:161 | `current` takes the canvas, and the manager receives the changed cells and writes them out |
| `TextSurface.TextBuffer.Paint` | buffer.js:162 | `current` keeps its cells wherever the canvas is empty, and the manager receives the changed cells |
| `PixelSurface.InkRun` | pixelBuffer.js:59-66 | the i-th stored colour is the brushed i-th input colour as a Uint32 |
| `PixelSurface.Ink` | pixelBuffer.js:59-66 | the brushed colour keeps the input's RGB value (the default foreground past the end of a list), and is the input itself at buffer opacity 100 |
| `PixelSurface.Limit` | pixelBuffer.js:55-57 | with wrapping the limit reaches exactly the buffer's end; without it, it is 1..width and reaches exactly the row's end |
| `PixelSurface.WriteAmount` | pixelBuffer.js:62-65 | `Math.min(count, limit)`: at most both, and equal to one of them |
| `PixelSurface.WriteFits` | pixelBuffer.js:55-57 | a write stays inside the buffer, and on the cursor's row without wrapping |
| `PixelSurface.KeptAll` | pixelBuffer.js:132-154 | `current` after a pass, cell by cell |
| `PixelSurface.RenderKeepsCanvas` | pixelBuffer.js:132-142 | a render puts the canvas into `current` as it is |
| `PixelSurface.PaintKeeps` | pixelBuffer.js:144-150 | painting keeps `current` wherever the canvas is 0 |
| `PixelSurface.PaintHalf` | pixelBuffer.js:146-149 | `(canvas || current) | 0`: a non-zero 31-bit canvas value wins, and a zero canvas value falls back to a 31-bit current value |
| `PixelSurface.Half` | pixelBuffer.js:134-149 | when painting, a zero canvas cell gives the value `Was` reads; a cell outside both arrays is 0 |
| `PixelSurface.Was` | pixelBuffer.js:136-147 | the current value a half is compared with: 32-bit when painting, and 0 outside the array |
| `PixelSurface.FirstRow` | pixelBuffer.js:170 | the loop starts at 0 or one row above the buffer, and above it exactly when the buffer starts on an odd half-row |
| `PixelSurface.PairRequest` | pixelBuffer.js:123-130 | the pixel carries the buffer's id, z-index and the pair's halves, at column `x + t % width` and half-row `(y + t / width) / 2` |
| `PixelSurface.AllSends` | pixelBuffer.js:168-178 | every request of a pass carries the buffer's id and z-index and a pixel |
| `PixelSurface.SentOwned` | pixelBuffer.js:168-178 | the requests sent before any point of the loop carry the buffer's id and z-index and a pixel |
| `PixelSurface.Stop` | pixelBuffer.js:170-178 | the row-pair loop stops at or after the buffer's end |
| `PixelSurface.NextRowPair` | pixelBuffer.js:177 | moving to the next row pair keeps the requests so far and the end of the loop |
| `PixelSurface.RowPairStarts` | pixelBuffer.js:170 | the loop starts at a pair whose top row is on an even screen half-row, and keeps stepping by pairs |
| `PixelSurface.RowPairGap` | pixelBuffer.js:177 | two distinct pair starts lie at least two rows apart |
| `PixelSurface.TopHalfRow` | pixelBuffer.js:170-178 | every top-half cell lies in a row pair the loop visits |
| `PixelSurface.PairPosition` | pixelBuffer.js:123-130 | a pixel sent for a top cell lands at that cell's column and half-row |
| `PixelSurface.SentFromPairs` | pixelBuffer.js:168-178 | every request sent so far comes from a changed pair visited so far |
| `PixelSurface.ChangedAreSent` | pixelBuffer.js:168-178 | every changed pair visited so far has been sent |
| `PixelSurface.PassSendsChangedPairs` | pixelBuffer.js:132-178 | a pass sends one pixel for every pair with a changed half, carrying the new halves, and nothing else |
| `PixelSurface.StopRowPair` | pixelBuffer.js:170-178 | the loop's end is a row-pair start |
| `PixelSurface.QuietSendsNothing` | pixelBuffer.js:140-141 | a stretch without changes sends nothing |
| `PixelSurface.SameSendsNothing` | pixelBuffer.js:140-141 | rendering a canvas equal to `current` sends nothing |
| `PixelSurface.PaintEmptySendsNothing` | pixelBuffer.js:144-154 | painting an empty canvas sends nothing |
| `PixelSurface.PairAgrees` | pixelBuffer.js:132-154 | a pair's request and new values depend only on that pair's cells |
| `PixelSurface.PixelBuffer.constructor` | pixelBuffer.js:3-29 | the buffer's position, size and id; both arrays zero; cursor 0, no wrapping, opacity 100, not paused |
| `PixelSurface.PixelBuffer.AssignId` | pixelBuffer.js:21 | sets the id |
| `PixelSurface.PixelBuffer.ClearCurrent` | pixelBuffer.js:32 | `current` is zeroed |
| `PixelSurface.PixelBuffer.CursorTo` | pixelBuffer.js:40-45 | the cursor moves to an in-buffer cell, and stays put off the buffer |
| `PixelSurface.PixelBuffer.CenterWidth` | pixelBuffer.js:47 | the column that centres width `w`: `floor((width - w) / 2)` |
| `PixelSurface.PixelBuffer.CenterHeight` | pixelBuffer.js:48 | the row that centres height `h`: `floor((height - h) / 2)` |
| `PixelSurface.PixelBuffer.InkOf` | pixelBuffer.js:59-66 | one brushed colour per loop turn |
| `PixelSurface.PixelBuffer.Write` | pixelBuffer.js:53-74 | the colours are spread from the cursor (at least one), and the cursor moves on by JavaScript's remainder |
| `PixelSurface.PixelBuffer.Draw` | pixelBuffer.js:79-101 | the colours are stored along row `y` from column `x`, clipped to the buffer |
| `PixelSurface.PixelBuffer.DrawAbsolute` | pixelBuffer.js:103-108 | `draw` at the screen position less the buffer's position |
| `PixelSurface.PixelBuffer.Fill` | pixelBuffer.js:110-114 | every cell becomes the faded foreground of `processBrush(color, color)` |
| `PixelSurface.PixelBuffer.Place` | pixelBuffer.js:5-10 | the buffer's geometry |
| `PixelSurface.PixelBuffer.TransferToCurrent` | pixelBuffer.js:117-121 | both canvas halves become 0 and `current` takes both halves |
| `PixelSurface.PixelBuffer.PairAt` | pixelBuffer.js:132-154 | one pair moves into `current`, and is sent only if a half changed |
| `PixelSurface.PixelBuffer.PairInRow` | pixelBuffer.js:173-176 | one turn of the inner loop handles one more pair of the row |
| `PixelSurface.PixelBuffer.RowPairs` | pixelBuffer.js:172-176 | the inner loop handles a whole row pair and sends what `SentBefore` gives |
| `PixelSurface.PixelBuffer.RowPairsFrom` | pixelBuffer.js:171-178 | the outer loop runs to `Stop`, and the canvas and `current` are updated up to it |
| `PixelSurface.PixelBuffer.HandleRender` | pixelBuffer.js:170-178 | the canvas ends zero, `current` is `KeptAll`, and the requests are `AllSends` |
| `PixelSurface.PixelBuffer.Pass` | pixelBuffer.js:168-180 | a whole pass, with its requests handed to the engine and written out |
| `PixelSurface.PixelBuffer.GhostPass` | pixelBuffer.js:156-184 | a whole pass whose requests are handed to the engine as ghost draws |
| `PixelSurface.PixelBuffer.Render` | pixelBuffer.js:182 | when paused nothing changes; otherwise `current` takes the canvas and the engine receives the changed pairs |
| `PixelSurface.PixelBuffer.Paint` | pixelBuffer.js:183 | when paused nothing changes; otherwise `current` keeps its cells where the canvas is 0, and the engine receives the changed pairs |
| `PixelSurface.PixelBuffer.GhostRender` | pixelBuffer.js:184 | when paused nothing changes; otherwise the changed pairs become ghost draws and the cells wait for the ghost pass |

## Left out

- Terminal I/O is not modelled as I/O:
  - `process.stdout.write` becomes appending to the `written` token list;
  - the screen size read from `process.stdout` becomes constructor arguments;
  - `init` and `exit` only write fixed strings and are not modelled.
- Escape strings are not produced as text. Tokens stand for them, and `Terminal.Interpret` gives them their meaning.
- 8-colour mode (`hexToHSV`, `hexTo8Color`) works in floating point. Its escape is kept as an opaque token carrying the hex value.
- `linearGradient` and `rainbow` in tools.js are not modelled. They are floating-point interpolations with no contract in the source.
- `hexDebugString`, the `debug` helper of construction.js and the commented-out code are diagnostics only. They are not modelled.
- The `createdBuffers` registry and `createTextBuffer`/`createPixelBuffer` are not modelled:
  - buffers receive their id in their constructor;
  - the engine sees the buffers it calls as `Engine.Surface` values that carry their `persistent` flag and the requests their ghost callbacks issue;
  - `massRender` and `massPaint` are `callBuffers` over such a list.
- `blurRGBA` is imported from utils.js but not defined there, and neither is `Pixel`.
  - The blend is a function parameter of the resolution.
  - `Pixel(top, bottom)` is the construction's pixel contribution.
- `charOnPixelSolution` is fixed to `'blur'` in construction.js. The 'top' and 'bottom' variants are not modelled.
- The pixel buffer has no `ghostPaint`, although `massPaint`, `groupPaint` and the queue call it. A surface's `ghostPaint` requests are therefore a free parameter.
- `Colors.FadeColor` does not model the floating-point product `getOpacity(c) * (opacity / 100)`. Only its bounds are stated, together with the exact RGB value.
- Text is modelled as `TextSurface.JsString`: a sequence of UTF-16 code units, which is what `length` and `charCodeAt` see. Turning text into code units (surrogate pairs) is not modelled. `charCodeAt` past the end is NaN, which the typed array stores as 0.
- Buffers and the screen are assumed at least one cell wide and high. A zero-size typed array makes the source's do-while loops write past the end, and that case is not modelled.
- `inConstruction = false` in buffer.js's `clearCurrent` assigns an undeclared global with no effect on the model. It is left out.
- `bufferY & 1` is modelled as `y % 2`. The two agree for every y that fits in 32 bits.
- A pixel-buffer read outside the array yields `undefined`. The model reads it as 0, which is what the later comparisons and `| 0` make of it.
- Typed-array element types are modelled by what a store keeps (`ToUint16`, `ToUint32`). Float colours coming back from `toCode` are `Colors.Num`, with NaN.
- A callback passed to `callBuffers` or `executeQueue` is modelled by the requests it issues. The buffer-side state changes of those callbacks (its canvas moving into `current`) are proved in `PixelSurface.PixelBuffer.GhostRender`, not replayed inside the engine's methods.
- `Engine.DisplayEngine.ExecuteQueue`: the queue is emptied after the pass, as in the source. A callback that queues again during the pass is not modelled.
- `Engine.DisplayEngine.constructor`: every construction of the engine resolves with the corrected transparent-black start (`Compositor.Resolve`), not with the undefined `emptyRGBA` of construction.js:65 (`Compositor.ResolveAsWritten`). On the engine's path, then, a translucent pixel over nothing is drawn, and an opaque pixel over a transparent bottom gets background 0 instead of NaN. The as-written behaviour is stated in the two Findings rows below.
- `Manager.BufferManager.constructor`: the same corrected start as the engine.
- `Compositor.Construction.DetermineOutput`: it computes `Compositor.Resolve`, the corrected start, and not `Compositor.ResolveAsWritten`.
- `Terminal.Ansi`: in 8-bit mode the escape carries the corrected `Terminal.HexTo256`, not `Terminal.HexTo256AsWritten`. The two differ only on some greys (`Terminal.ColoredAsWrittenAgrees`, `Terminal.GreyStartAsWritten`).
- Each buffer kind is modelled with one screen owner only. Text buffers go with `Manager.BufferManager` and pixel buffers with `Engine.DisplayEngine`:
  - buffer.js:121 calls `manager.point`, which manager.js:239 defines and main.js does not;
  - a text buffer has no `ghostRender`, `ghostPaint` or `persistent`, which main.js:253-262 and main.js:267 call.
- `Compositor.Fold`, `Compositor.Resolve` and `Compositor.ResolveAsWritten` have no contract of their own, so they have no row above. What they promise is stated in lemmas:
  - `Compositor.Fold`: `Compositor.FoldCode`;
  - `Compositor.Resolve`: `Compositor.ResolveShown`, `Compositor.ResolveEmpty`, `Compositor.PixelsResolve` and `Compositor.TranslucentPixelDrawn`;
  - `Compositor.ResolveAsWritten`, which is `determineOutput` exactly as written (construction.js:65-166): `Compositor.ResolveShown`, `Compositor.ResolveEmpty`, `Compositor.TranslucentPixelLostAsWritten` and `Screen.OpaquePixelRedrawnAsWritten`.
- `Terminal.NumOpacity` and `Terminal.NumHex` state ranges and the NaN case, but not the exact value for a finite colour.
- `Terminal.QuantizeWith`, `Terminal.HexTo256` and `Terminal.FindClosest` state their nearest-option property only on ascending option lists. The source's lists are ascending, and `Terminal.OptionsAscending` proves it.
- `Screen.Draw`, `Screen.Extend`, `Screen.GhostPass`, `Screen.DirectStep`, `Screen.DirectPass`, `Canvas.Spread` and `Canvas.OnRow` only promise sizes in their own contracts. What they compute is stated by the lemmas beside them (`Screen.DrawStores`, `Screen.GhostPassStores`, `Screen.GhostPassCached`, `Screen.DirectPassCached`, `Canvas.SpreadShows`, `Canvas.OnRowShows`).

## Findings

| source | as written | input that shows it | evidently intended | confidence | as-written member | corrected member |
|---|---|---|---|---|---|---|
| construction.js:65 | `emptyRGBA = new RGBA()` is called with no argument, so `arguments.length` is 0 and every channel is `undefined`. Layering a translucent colour over it gives NaN channels, and the transparent bottom keeps `emptyRGBA` itself, so `toCode` is NaN for both halves. `NaN != NaN` holds but neither half is truthy (construction.js:148-157), so the code stays a space and `outputBg` stays 0 | one pixel `Pixel(0x32ff0000, 0)` (red at opacity 50 over a transparent bottom) in an otherwise empty cell resolves to a blank cell | a transparent black start (the parameter's default is 0), so the half-transparent red pixel is drawn blended | not executed | `Compositor.TranslucentPixelLostAsWritten` | `Compositor.TranslucentPixelDrawn` |
| construction.js:65, main.js:190-194 | with the same undefined `emptyRGBA`, the bottom half of an opaque pixel over a transparent bottom resolves to NaN, and the upper half block gets background NaN; `screenBGs[i] != NaN` always holds, so the cell counts as changed whenever it is resolved and compared again | `Pixel(0x6400ff00, 0)` (opaque green over a transparent bottom) resolves to an upper half block on background NaN, and is emitted again whenever a later request or ghost pass resolves that cell | a transparent black start, so the background is 0 and a stored cell is not emitted again | not executed | `Screen.OpaquePixelRedrawnAsWritten` | `Screen.OpaquePixelSettles` |
| main.js:96-106 | `findClosest` starts the walk with `lastDelta = num` instead of the first option's distance; this is right only when the first option is 0, which the grey ramp's is not | grey 0x050505 maps to cube black 16, although ramp entry 232 (level 8, distance 3) is nearer than black (distance 5); manager.js:86-96 has the same code | start from `abs(num - options[0])`, so that the nearest option is returned | not executed | `Terminal.GreyStartAsWritten` | `Terminal.HexTo256Nearest` |
