# light-rs render cache, compositor and fuzzy matcher, in Dafny

This project models three pieces of light-rs, the Rust port of the lite text
editor, and proves properties of them.

- **The damage-tracking render cache** (`src/rencache.rs`), in `rencache.dfy`.
  During a frame, the editor's draw calls are appended to a bounded command
  log. `rencache_end_frame` then does five things in turn:
  1. It folds a 32-bit FNV-1a hash of every command into each 96-pixel grid
     cell that the command's clipped rectangle touches.
  2. It diffs this grid against the previous frame's grid and coalesces the
     dirty cells into rectangles.
  3. It replays the log once per dirty rectangle.
  4. It frees the fonts whose release was deferred. As written, it does
     this only in a frame that has at least one dirty rectangle. The model's
     `EndFrame` frees them in every frame; this is the correction of the
     first finding below, and `FrameCallsAsWritten` keeps the code as written.
  5. It swaps the grids and rewinds the log.

  The global state is the class `RenCache.Cache`:
  - the two cell grids are `array<bv32>`;
  - the rectangle buffer is an `array<RenRect>`;
  - the log is a sequence of `Command` records with the byte cursor kept
    beside it.

  The renderer calls that `end_frame` makes come back as a trace of
  `RenderCall` values.
- **The software compositor and the glyph cache** (`src/renderer.rs`), in
  `renderer.dfy`. It covers:
  - the integer alpha blends;
  - the clip rectangle and the clipped rectangle fill and image blit into a
    caller-supplied `w × h` pixel array (class `Surface`);
  - image allocation and the in-place coverage-to-RGBA conversion;
  - the lazily filled 256-page glyph cache of a font (class `RenFont`);
  - the atlas retry loop that doubles its size;
  - the tab/newline patch, the tab width, and text width as a sum of
    integer advances.

  The font rasteriser (stb_truetype) is an oracle, given as a function
  parameter. It either bakes a page into an atlas of a given side or reports
  that the atlas is too small.
- **The scoring loop of `fuzzy_match`** (`src/api/system.rs`), in
  `fuzzy.dfy`. It scores a string against a pattern position by position,
  after trimming leading white space.

Two shared modules:
- `bytes.dfy` holds the byte-level helpers: little-endian layout, and UTF-8
  lengths and encoding.
- `arith.dfy` holds the elementary multiplication facts that the pixel-offset
  and blending proofs use.

## Model

| member | source | states |
|---|---|---|
| Renderer.WeightedSumBounds | src/renderer.rs:310-316 | The weighted sum `s*a + d*(255-a)` of `blend_pixel` lies between 255·min(s,d) and 255·max(s,d). |
| Renderer.BlendChannel | src/renderer.rs:312-314 | One channel of `blend_pixel` lies between min(src,dst)−1 and max(src,dst). So the `as u8` cast never wraps. |
| Renderer.BlendPixel | src/renderer.rs:310-316 | `blend_pixel` keeps the destination alpha. Every colour channel stays between the two inputs' channels, less one for rounding. |
| Renderer.BlendHalfRedOverBlack | src/renderer.rs:310-316 | Red at alpha 128 over opaque black gives red 127 at alpha 255. |
| Renderer.TintedSumBound | src/renderer.rs:326-331 | The two shifted terms of `blend_pixel2` are non-negative. Their sum is at most max(colour, dst). |
| Renderer.TintChannel | src/renderer.rs:326-331 | One channel of `blend_pixel2` never exceeds the brighter of the tint and the background, so it fits a byte. |
| Renderer.ScaledAlpha | src/renderer.rs:324 | `(src.a*color.a) >> 8` is below 255 and at most either input. It is 0 when either input is 0. |
| Renderer.BlendPixel2 | src/renderer.rs:319-333 | `blend_pixel2` keeps the destination alpha. Each channel is at most max(colour channel, destination channel). |
| Renderer.Image.constructor | src/renderer.rs:141-151 | `ren_new_image` needs a positive size. It returns a fresh, zeroed buffer of width·height pixels. |
| Renderer.ExpandCoverage | src/renderer.rs:211-219 | The reverse in-place loop leaves pixel i equal to (255,255,255, original coverage byte i) for every i < n. Bytes past the n pixels are untouched. |
| Renderer.ClampToClip | src/renderer.rs:340-349 | The box `ren_draw_rect` fills holds exactly the pixels that are in both the rectangle and the clip. |
| Renderer.RectPixelStaysInClip | src/renderer.rs:336-376 | Under a rectangle fill, a pixel outside the clip is unchanged. Nothing changes when alpha is 0. With alpha 255, a pixel in rect ∩ clip becomes exactly the colour. |
| Renderer.Surface.constructor | src/renderer.rs:103-113 | A surface starts with the clip covering all of it, as `ren_init` sets it. |
| Renderer.Surface.SetClipRect | src/renderer.rs:126-131 | `ren_set_clip_rect` stores the clip as left x, top y, right x+width, bottom y+height. |
| Renderer.RectPixel | src/renderer.rs:336-376 | The new value of one pixel under `ren_draw_rect`: the old value, the colour or `blend_pixel(old, colour)`. The destination alpha is kept unless the colour is written outright. |
| Renderer.Surface.DrawRect | src/renderer.rs:336-376 | Every surface pixel becomes `RectPixel` of its old value: unchanged outside rect ∩ clip or when alpha is 0; else the colour (alpha 255) or `blend_pixel(old, colour)`. |
| Renderer.Surface.PaintRow | src/renderer.rs:359-375 | One row of the fill: the pixels x1..x2−1 of row y are painted. Every other pixel is unchanged, and the cursor advances by x2−x1. |
| Renderer.ClipSub | src/renderer.rs:389-408 | After the four-side adjustment of `sub` and x,y, a non-empty block lies inside the clip and inside the original `sub`. The source offset moves with the destination. |
| Renderer.Surface.DrawImage | src/renderer.rs:379-433 | Returns the adjusted `sub`, unchanged when alpha is 0. Every pixel equals `BlitPixel`: `blend_pixel2` of the matching atlas pixel inside the adjusted block, otherwise its old value. |
| Renderer.BlitPixel | src/renderer.rs:379-433 | The new value of one pixel under `ren_draw_image`: `blend_pixel2` of the matching atlas pixel inside the adjusted block, otherwise the old value. The destination alpha never changes. |
| Renderer.BlitPixelStaysInClip | src/renderer.rs:379-433 | A pixel outside the clip is never changed by an image blit. |
| Renderer.Surface.BlitBlock | src/renderer.rs:420-432 | The nested blit loops: exactly the destination block is blended with the matching source pixels. |
| Renderer.Surface.BlitRow | src/renderer.rs:425-429 | One blit row: n pixels of row y are blended with source row sy. Both cursors advance by n. |
| Renderer.Surface.DrawText | src/renderer.rs:436-462 | `ren_draw_text` returns x plus the text's width, loads the pages it uses, and changes no pixel outside the clip. |
| Renderer.AtlasSide | src/renderer.rs:163-164 | An atlas side of the doubling sequence is never below 128. |
| Renderer.Page | src/renderer.rs:225 | The page of a codepoint, `(codepoint >> 8) % 256`, is one of the 256 slots. |
| Renderer.GlyphIndex | src/renderer.rs:298 | The glyph index, `codepoint & 0xff`, is one of the 256 glyphs of a page. |
| Renderer.AstralCodepointAliases | src/renderer.rs:225 | Because of `% 256`, U+1F600 and U+F600 share a page and a glyph slot. |
| Renderer.TextWidth | src/renderer.rs:293-302 | The width `ren_get_font_width` measures: the sum of the characters' integer advances. It is non-negative when every advance is. |
| Renderer.TextWidthAppend | src/renderer.rs:293-302 | The width of a concatenation is the sum of the widths. |
| Renderer.TextWidthStable | src/renderer.rs:293-302 | Loading more pages never changes the width of a text whose pages were already loaded. |
| Renderer.PatchTabNewline | src/renderer.rs:262-264 | The '\t' and '\n' glyphs get x1 = x0 and keep everything else. The other 254 glyphs are unchanged. |
| Renderer.BakeToFit | src/renderer.rs:174-195 | The atlas starts at 128×128 and doubles until the bake fits. It ends at the first fitting side 128·2^k of the sequence, with a fresh image of that size. |
| Renderer.LowerGlyphs | src/renderer.rs:207-210 | Every glyph is lowered by the scaled ascent. Nothing else changes. |
| Renderer.RenFont.constructor | src/renderer.rs:245-260 | A new font has its rasteriser, ascent and height, and all 256 pages are empty. |
| Renderer.RenFont.LoadGlyphSet | src/renderer.rs:162-222 | `load_glyphset` bakes at the first fitting atlas and lowers the glyphs by the ascent. Every atlas pixel i becomes (255,255,255, coverage i), and the set is well formed. |
| Renderer.RenFont.GetGlyphSet | src/renderer.rs:224-231 | Page `Page(c)` is filled only if it was empty, and then with a freshly baked set. Afterwards it holds the returned set. A loaded page is returned without reloading and nothing changes. |
| Renderer.RenFont.SetTabWidth | src/renderer.rs:287-290 | Page 0 is loaded if needed, and only the '\t' glyph's advance becomes n. Every other page and glyph is unchanged. |
| Renderer.RenFont.GetFontWidth | src/renderer.rs:293-302 | Returns the sum of the advances of the text's glyphs (0 for the empty text). Afterwards every page it needs is loaded. |
| Renderer.LoadFont | src/renderer.rs:234-268 | Null exactly when the file cannot be read or is not a font. Otherwise the font has only page 0 loaded, with '\t' and '\n' patched. |
| RenCache.RectsOverlapSymmetric | src/rencache.rs:99-104 | `rects_overlap` is symmetric. |
| RenCache.RectsOverlapCases | src/rencache.rs:99-104 | Rectangles sharing a pixel overlap. Rectangles touching only at an edge or a corner also count as overlapping, and so can an empty one. |
| RenCache.IntersectRects | src/rencache.rs:106-120 | The result has non-negative width and height. It holds exactly the pixels in both inputs, and when non-empty it lies inside both. |
| RenCache.MergeRects | src/rencache.rs:122-136 | The result contains every pixel of both inputs. Each of its edges is an edge of one of them. |
| RenCache.MergeWithin | src/rencache.rs:122-136 | Merging two rectangles that lie within a box stays within it. |
| RenCache.FnvAppend | src/rencache.rs:75-91 | Hashing a concatenation equals hashing the second part, starting from the first part's hash. |
| RenCache.Hash | src/rencache.rs:75-91 | `hash` folds `h := (h xor b)·16777619 mod 2^32` over the bytes. Hashing no bytes leaves h unchanged. |
| RenCache.KindCode | src/rencache.rs:27-33 | The command type codes are FREE_FONT 0, SET_CLIP 1, DRAW_TEXT 2 and DRAW_RECT 3. |
| RenCache.Serialize | src/rencache.rs:18-25 | A command's bytes are as many as its `size` field: the 40-byte header, plus the text and its NUL for a text command. |
| RenCache.WalkEndsAtCursor | src/rencache.rs:157-164 | Walking the log by `size` fields ends exactly at `command_buf_idx`, after the last command and never before. |
| RenCache.CellIdxInjective | src/rencache.rs:94-96 | `x + y*80` is within the 4000-cell grid for every grid cell, and distinct cells get distinct indices. |
| RenCache.CellAfter | src/rencache.rs:308-321 | Defines the value of one cell after the hash loop: each command whose clipped rectangle is non-empty and touches the cell folds in its hash, in log order. Its properties are the lemmas `EmptyDamageContributesNothing`, `FreeOnlyLogKeepsCells` and `NothingRedrawn`, and `HashPass` is proved equal to it. |
| RenCache.FreeOnlyLogKeepsCells | src/rencache.rs:172-181 | A log holding only FREE_FONT commands leaves every cell unchanged, because their rectangles are all zero. So such a frame has no dirty rectangle. |
| RenCache.EmptyDamageContributesNothing | src/rencache.rs:314-317 | A command whose clipped rectangle is empty leaves every cell unchanged. That includes a FREE_FONT, whose rectangle is zero. |
| RenCache.DamageInGrid | src/rencache.rs:270-289 | A non-empty clipped command rectangle lies within the grid, so `update_overlapping_cells` only touches grid cells. |
| RenCache.LastOverlap | src/rencache.rs:291-300 | The backward search finds the highest-index buffered rectangle that overlaps r, or −1 when none does. |
| RenCache.PushRectSpec | src/rencache.rs:291-304 | The rectangle buffer after `push_rect(r)`: it grows by at most one, and every entry is an old entry, an old entry merged with r, or r itself. |
| RenCache.PushRectCovers | src/rencache.rs:291-304 | `push_rect` grows the count by at most one and the buffered rectangles then cover r. Nothing covered before is lost, and it keeps every rectangle non-empty and inside any box holding them all. |
| RenCache.Cache.PushRect | src/rencache.rs:291-304 | Either the highest-index rectangle touching r becomes its merge with r and the count is unchanged, or r is appended at index count. |
| RenCache.Scan | src/rencache.rs:322-348 | Defines the rectangles the diff loop pushes, scanning cells row by row up to position (x, y). `ScanProperties` and `ScanClean` state what they are, and `DiffPass` is proved equal to it. |
| RenCache.ScanProperties | src/rencache.rs:322-348 | The diff scan yields at most one rectangle per scanned cell. Each lies within the scanned box and is non-empty, and every scanned cell that differs is covered. |
| RenCache.ScanClean | src/rencache.rs:322-348 | When no scanned cell differs, the scan yields no rectangle. |
| RenCache.DamageCovered | src/rencache.rs:322-358 | Every on-screen pixel of a dirty cell is covered by a final, scaled and clipped rectangle. |
| RenCache.FinalizeWithin | src/rencache.rs:349-358 | Scaling a cell rectangle ×96 and clipping it to the screen keeps it within the screen. |
| RenCache.FinalRectsWithinScreen | src/rencache.rs:322-358 | Every final dirty rectangle lies within `screen_rect`. |
| RenCache.NothingRedrawn | src/rencache.rs:307-348 | If the grid starts at the seed and the previous grid holds the previous frame's hashes of the same log, no cell is dirty. |
| RenCache.CommandCalls | src/rencache.rs:365-386 | Replaying one command makes at most one call, and never a font free, a screen update or a debug outline. |
| RenCache.LogCallsStayInRect | src/rencache.rs:365-387 | In one replay, every clip that is set lies within the dirty rectangle being replayed. No font is freed. |
| RenCache.PassCallsFreeNothing | src/rencache.rs:361-401 | The replay passes never free a font and never update the screen. |
| RenCache.FreeCallsExact | src/rencache.rs:405-412 | The free loop frees exactly the fonts of the log's FREE_FONT commands, and it frees something exactly when the log holds a FREE_FONT. |
| RenCache.FrameCalls | src/rencache.rs:359-412 | The calls of one `end_frame` with every recorded free carried out (the correction of the first finding below). A frame with no dirty rectangle makes exactly the free calls of its log. |
| RenCache.FrameCallsAsWritten | src/rencache.rs:359-412 | The calls of `end_frame` as written: the frees run only when some rectangle is dirty, so a frame with no dirty rectangle makes no call at all, not even a recorded free. |
| RenCache.FrameFreesExactly | src/rencache.rs:359-412 | In a frame, a font is freed exactly when the log recorded its FREE_FONT. |
| RenCache.FrameFreesLast | src/rencache.rs:402-412 | Font frees come after every replay pass and after the screen update. |
| RenCache.FrameUpdatesOnce | src/rencache.rs:402-404 | `ren_update_rects` is called at most once, with the dirty rectangles, right after the passes, and only when there is at least one rectangle. |
| RenCache.QuietFrameLeaksFont | src/rencache.rs:359-369 | As written, a frame with no dirty rectangle whose log holds `FREE_FONT(f)` never frees f. The corrected frame does free it. |
| RenCache.FrameCallsAgreeWhenDamaged | src/rencache.rs:359-412 | With at least one dirty rectangle, the corrected frame makes the same calls as the code as written. |
| RenCache.Cache.constructor | src/rencache.rs:37-63 | The startup state: both grids zeroed, an empty log, a 0×0 screen, debug off. |
| RenCache.Cache.PushCommand | src/rencache.rs:138-155 | It succeeds exactly when cursor + size ≤ 524288, and then appends the command and advances the cursor by its size. On failure the log and cursor are unchanged. Nothing but the log changes. |
| RenCache.Cache.ShowDebug | src/rencache.rs:167-169 | Only the debug flag changes. |
| RenCache.Cache.RecordFreeFont | src/rencache.rs:172-181 | Appends a zeroed FREE_FONT command carrying the font, if it fits. |
| RenCache.Cache.RecordSetClip | src/rencache.rs:184-192 | Appends SET_CLIP with the rectangle pre-intersected with the screen, if it fits. |
| RenCache.Cache.RecordDrawRect | src/rencache.rs:195-207 | Appends DRAW_RECT only when the rectangle overlaps the screen and the command fits. |
| RenCache.Cache.RecordDrawText | src/rencache.rs:210-247 | Returns x plus the measured width, whether or not anything was recorded. It appends DRAW_TEXT, sized 40 + UTF-8 length + 1, only when the text's box overlaps the screen and the command fits. |
| RenCache.Cache.Invalidate | src/rencache.rs:250-256 | Every previous-grid cell becomes 0xFFFFFFFF. |
| RenCache.Cache.BeginFrameAsWritten | src/rencache.rs:259-268 | The screen becomes w×h. The previous grid is invalidated exactly when the size changed; otherwise nothing changes. |
| RenCache.Cache.BeginFrame | src/rencache.rs:259-268 | As `begin_frame`, and on a size change the current grid is also set to the seed. Either way the cache is primed afterwards. |
| RenCache.Cache.HashRow | src/rencache.rs:279-287 | Cells x1..x2 of row y absorb the command hash. Every other cell is unchanged. |
| RenCache.Cache.UpdateOverlappingCells | src/rencache.rs:270-289 | Exactly the cells the rectangle touches absorb the hash (its 4 bytes are FNV-folded into the cell). Every other cell is unchanged. |
| RenCache.Cache.HashCommand | src/rencache.rs:311-320 | One step of the hash loop: the command's clipped rectangle is hashed into its cells, unless it is empty. |
| RenCache.Cache.HashNext | src/rencache.rs:311-320 | One iteration of the hash loop: command i is hashed into the cells under the tracked clip, and the clip left for the next command is returned (its own rectangle after a SET_CLIP). |
| RenCache.Cache.HashPass | src/rencache.rs:308-321 | Every cell ends as `CellAfter` (its start value with the log's hashes folded in), tracking the clip. It also reports whether the log holds a FREE_FONT. The source's hash loop computes no such flag: the flag is part of the correction of the first finding below. |
| RenCache.Cache.DiffCell | src/rencache.rs:329-344 | One cell of the diff: a rectangle is pushed if the cell differs, and its previous value is reset to the seed. |
| RenCache.Cache.DiffRow | src/rencache.rs:326-348 | One row of the diff: the scan advances to the end of the row, and the row's previous cells are reset. |
| RenCache.Cache.DiffPass | src/rencache.rs:322-348 | The buffer holds `Scan` of the grid against the old previous grid. Every previous cell of the (w/96+1)×(h/96+1) region, and no other, is reset to 2166136261. |
| RenCache.Cache.ScaleRects | src/rencache.rs:349-358 | Every buffered rectangle is scaled ×96 and clipped to the screen. |
| RenCache.Cache.ReplayLog | src/rencache.rs:365-387 | One replay emits the log's calls in recording order, with SET_CLIP narrowed to `intersect(cmd.rect, dirty)`. |
| RenCache.Cache.Replay | src/rencache.rs:361-401 | One pass per dirty rectangle in buffer order: set the clip, replay, then outline when debugging. |
| RenCache.Cache.FreePass | src/rencache.rs:405-412 | The deferred frees, in log order. |
| RenCache.Cache.Damage | src/rencache.rs:307-358 | The first three loops: hashed grid, reset previous region, and final rectangles. No rectangle comes out when a settled cache replays the previous log. |
| RenCache.Cache.FrameCallsOf | src/rencache.rs:359-412 | The calls of the replay, update and free loops, with the frees decided by the log rather than by the replay. |
| RenCache.Cache.EndFrame | src/rencache.rs:307-417 | The grids are swapped and the log rewound. It returns the dirty rectangles (at most 2000, within the screen) and the frame's calls. Afterwards the cache is primed, and settled if it was primed. An unchanged frame on a settled cache has no dirty rectangle. The calls are `FrameCalls`, which frees every recorded font: this is the correction of the first finding below. The source makes the calls of `FrameCallsAsWritten`, and the two agree whenever a rectangle is dirty (`FrameCallsAgreeWhenDamaged`). |
| RenCache.StartupScenarioAsWritten | src/rencache.rs:37-43 | From startup, two frames at 800×600 with empty logs: as written, the second frame still reports dirty rectangles. |
| RenCache.StartupScenario | src/rencache.rs:259-268 | The same two frames with the corrected `begin_frame`: the second frame has no dirty rectangle. |
| FuzzyMatch.TrimStart | src/api/system.rs:340-341 | `trim_start` returns a suffix of its input, and that suffix is empty or starts with a non-white-space character. |
| FuzzyMatch.TrimStartRemovesWhitespace | src/api/system.rs:340-341 | Everything `trim_start` removes is white space. |
| FuzzyMatch.TrimStartSkips | src/api/system.rs:340-341 | Any amount of leading white space is removed. |
| FuzzyMatch.Step | src/api/system.rs:346-353 | One loop iteration: a character that matches the same-position pattern character ignoring case extends the run by one; a miss, or a pattern that has run out, resets the run to 0. |
| FuzzyMatch.Tallied | src/api/system.rs:343-354 | The score and run after the loop has consumed the whole string. Against an empty pattern every character costs 10 and the run stays 0. |
| FuzzyMatch.Score | src/api/system.rs:332-362 | The value `fuzzy_match` returns: none exactly when the trimmed pattern has more characters than the trimmed string. |
| FuzzyMatch.TalliedStep | src/api/system.rs:344-354 | Each string character is one step against the pattern character at the same position, so one pattern character is consumed per string character. |
| FuzzyMatch.MatchTrimmed | src/api/system.rs:343-360 | The loop's result is `TrimmedScore`: none when the pattern is longer, else the tally less the string's byte length. |
| FuzzyMatch.FuzzyMatch | src/api/system.rs:332-362 | The result is the score of the trimmed arguments. No score comes back exactly when the trimmed pattern has more characters than the trimmed string. |
| FuzzyMatch.LeadingWhitespaceIgnored | src/api/system.rs:340-341 | Leading white space on the string or on the pattern does not change the score. |
| FuzzyMatch.TalliedSelf | src/api/system.rs:346-350 | A string against itself matches at every position. The run grows by one per character and the tally is 5n(n−1). |
| FuzzyMatch.TalliedBounds | src/api/system.rs:344-354 | After n characters the run is between 0 and n, and the tally lies between −10n and 5n(n−1). |
| FuzzyMatch.PerfectMatch | src/api/system.rs:332-362 | A string scored against itself gets 5n(n−1) less its byte length. |
| FuzzyMatch.ExactMatchIsBest | src/api/system.rs:332-362 | No pattern scores better against a string than the string itself. |
| FuzzyMatch.PositionalMiss | src/api/system.rs:343-353 | Matching is positional: the pattern "q" scores −20 against "cq" when c and q differ ignoring case (lower(c) ≠ lower(q)), less the bytes. |
| FuzzyMatch.SingleCharacter | src/api/system.rs:346-360 | One character against one scores 0 for an exact match, −1 for a case-only difference and −10 for a miss, less its UTF-8 length. |
| Bytes.EncodeLength | src/rencache.rs:228 | The UTF-8 encoding has `ByteLength` bytes, between 1 and 4 per character; this is `strlen` / `str.len()`. |
| Bytes.ByteLengthAppend | src/api/system.rs:360 | Byte lengths add up over concatenation. |

## Left out

- SDL windows and surfaces (`ren_init`, `ren_get_size`, `ren_update_rects`): the surface is a caller-supplied pixel array, the size is a parameter of `BeginFrame`, and the screen update is the trace event `UpdateRectsCall`.
- stb_truetype: font parsing, baking and vertical metrics are not modelled. The rasteriser is a function parameter, `Rasterizer`. `RasterizerOk` requires every bake to be well formed and every page to fit some atlas of the doubling sequence. With unbounded integers the retry loop would otherwise not end. In the source, the `c_int` sides overflow instead: `width * height` in `ren_new_image` overflows at side 65536, and `width *= 2` at 2^31. A page that never fits therefore ends in a panic or a wrong-sized buffer, and the model does not capture that.
- File reading in `ren_load_font`: the file is given as `FontFile` (unreadable, malformed, or a font).
- Floating point: line height, scaled ascent, glyph `xoff`/`yoff` placement and the `floor` of advances are not modelled. Advances and offsets are integers.
- Renderer.Surface.DrawText: states the returned x, the loaded pages and that nothing outside the clip changes, but not which pixels each glyph paints, because glyph placement uses the float offsets left out above.
- Renderer.LowerGlyphs: does not floor the advances (`xadvance.floor()`), because advances are already integers here.
- Renderer.BlendPixel2: gives upper bounds and the alpha, not a lower bound on each channel.
- The `show_debug` outline colour comes from `libc::rand`; the outline is the trace event `DebugRectCall(r)` without a colour.
- The warning `push_command` prints to standard error when the command buffer is exhausted (`eprintln!`): the model keeps the failed push, which records nothing, but not the message.
- Memory: `ren_free_font`, `ren_free_image` and the boxes behind them are not modelled. A free is the trace event `FreeFontCall`.
- The double-length slice hack in `ren_draw_rect` and `ren_draw_image`: for a non-empty clip on the surface, the model states exact index preconditions instead.
- Renderer.Surface.DrawRect: on an empty clip, the model writes nothing and promises an unchanged surface. Such a clip is one whose right is at most its left or whose bottom is at most its top. In the source, `ren_draw_rect` first slices its destination at x1 + y1·w, before its loops run, so a clip whose top lies at or below twice the surface height panics. The render cache can set such a clip: a SET_CLIP rectangle far below the screen, narrowed to a dirty rectangle. The cursor step `d[dr..]` can also run past the slice when x2 < x1. Neither panic is modelled.
- RenCache.Serialize: the bytes of a command stand for its in-memory layout (fields, zeroed padding, the font's address as `RenFont.id`, the text and its NUL). The layout is not injective, and no property of the cache depends on that. So the hash pass is proved to detect no change when nothing changed. The converse, that every change is detected, is not claimed, since FNV-1a has collisions.
- The hash covers the font's address, not its glyphs. A font whose glyphs change behind the same address is not seen as damage, in the model as in the source.
- Unchecked bounds: the source never checks the 80-wide, 4000-cell grid. `GridFits(w, h)` requires w/96+1 ≤ 80 and h/96+1 ≤ 50. It is a precondition of `BeginFrame`/`BeginFrameAsWritten` and an invariant of `Cache.Valid`.
- RenCache.Cache.BeginFrame, RenCache.Cache.BeginFrameAsWritten: `GridFits` also requires a region of at most 2000 cells (w/96+1 times h/96+1), one rectangle-buffer entry per cell. This is stronger than the source needs. `push_rect` appends a cell only when it touches no buffered rectangle, edges and corners included, and buffered rectangles only grow. So appended cells are pairwise non-adjacent, and the 2000-entry buffer never holds more than 40·25 = 1000 of them. The model does not prove that bound. It therefore excludes screens whose region exceeds 2000 cells, such as 6016×3384 (63×36 = 2268 cells), although the source serves them.
- 32-bit `c_int` arithmetic: overflow of the cursor, of text widths, of pixel offsets, of atlas sides and of the fuzzy score is not modelled. Integers are unbounded apart from the FNV hash, which is `bv32`.
- FuzzyMatch.FuzzyMatch: the Unicode `to_lowercase` tables are not modelled. The case map is a parameter that never yields an empty sequence (`CaseMapOk`); `AsciiLower` is an instance. A string that is not valid UTF-8 (the `unwrap` panics) and the Lua argument handling are left out. The result is `Option<int>`: `None` where the source returns no value to Lua.
- Renderer.RenFont.GetFontWidth, Renderer.Surface.DrawText, RenCache.Cache.RecordDrawText: text is modelled as a sequence of characters, so it is always valid UTF-8. The panic on text that is not valid UTF-8 is not modelled: `.expect("Invalid utf-8")` in `ren_get_font_width`, which `rencache_draw_text` reaches when it measures the text, and `.unwrap()` in `ren_draw_text`.
- `ren_get_font_height` is the `height` field of `RenFont`.
- The Lua bindings (`src/api/*.rs` apart from the fuzzy scorer), `src/main.rs`, `src/window.rs` and `build.rs` are not part of this model.

## Findings

| source | as written | input that shows it | evidently intended | confidence | as-written member | corrected member |
|---|---|---|---|---|---|---|
| src/rencache.rs:359-369, 405-412 | `has_free_commands` is set only while the log is replayed under a dirty rectangle. The deferred `FREE_FONT` commands of a frame with no dirty rectangle are therefore skipped, and then discarded when the log is rewound. | A frame whose log is just `FREE_FONT(f)`: its rectangle is empty, so no cell changes and no rectangle is replayed. `ren_free_font(f)` is never called. | Every font whose release was recorded is freed at the end of that frame. | high; not executed | RenCache.FrameCallsAsWritten, RenCache.QuietFrameLeaksFont | RenCache.FrameCalls, RenCache.FrameFreesExactly, RenCache.Cache.EndFrame |
| src/rencache.rs:37-43, 259-268 | Both grids start at 0. `rencache_begin_frame` resets only the previous grid, to 0xFFFFFFFF, on a size change. So the first frame hashes into a grid at 0 instead of the seed 2166136261 that later grids start from. | From startup, two frames at 800×600 with empty logs: the second frame compares the seed against 0. Every cell of its 9×7 region is dirty and it reports rectangles. | An unchanged frame after the first one redraws nothing. The grid a frame hashes into starts at the seed. | medium; not executed | RenCache.Cache.BeginFrameAsWritten, RenCache.StartupScenarioAsWritten | RenCache.Cache.BeginFrame, RenCache.StartupScenario |
