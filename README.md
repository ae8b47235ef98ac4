# ssd1306: a Dafny model of the font tools, the nano engine geometry and canvases, the menu and the small converters

This project models the behaviour of the parts of the ssd1306 display
library (lexus2k/ssd1306) that compute something, and proves their
properties.

- **Font tools** (`tools/modules`).
  - `FontContainer` holds the glyphs of a font in groups of consecutive
    characters, derives the common frame of the font and pads or trims
    every glyph to it (module `FontContainers`).
  - `Generator` serialises the container into the two byte layouts the
    library reads: the legacy fixed-cell layout and the grouped layout with
    jump tables (module `FontGenerator`).
- **Nano engine geometry**: `NanoPoint` and `NanoRect`, as value functions
  plus classes for the members that change a point or rectangle in place
  (modules `Points`, `Rects`).
- **Canvases**: `NanoCanvas1`, a bit-per-pixel buffer in pages of eight
  rows, and `NanoCanvas8`, a byte-per-pixel buffer, both drawing into the
  caller's byte array (module `Canvas`).
- **Tiler**: the refresh flags of `NanoEngineTiler`, one 16-bit word per
  row of tiles, and the tiles `displayBuffer` redraws (module `Tiler`).
- **Menu**: the `SAppMenu` selection and scroll state machine, with the
  drawing calls recorded as a log (module `Menu`).
- **UART framing**: the octet stuffing of the built-in UART interface, the
  framing of section 4.2 of RFC 1662 (module `UartFraming`).
- **utoa** of the Linux platform layer (module `Utoa`).
- **Command line tool**: `hex2int`, `atoi_b` and `get_args_list` of
  `oled_cli` (module `OledCli`).
- **Integer helpers**: C's shifts, truncating division and `uint8_t`
  stores, shared by all of the above (module `Arith`).

Every operation that changes state in the source is a method of a class
with a `modifies` clause. Each such method is proved against a
specification function of the old state, and the properties the source
promises are proved as lemmas about those functions. Loops that change
state or build output are loops here, with their invariants; the read-only
searches `get_group_chars` and `_find_char_data` are recursive functions
(`GroupChars`, `FindChar`).

## Model

| member | source | states |
|---|---|---|
| Arith.CDivSpec | src/nano_engine/point.h:148-152 | C's `/` truncates towards zero: the remainder is smaller than the divisor in magnitude and has the sign of the dividend |
| Arith.ShiftRightLeft | src/nano_engine/point.h:128-142 | shifting left and then right by the same amount gives back the value, and a left shift leaves the low bits clear |
| Arith.ShiftLeftAligned | src/nano_engine/point.h:128-142 | a value whose low bits are clear is its right shift shifted back left |
| Points.Plus | src/nano_engine/point.h:157-160 | the free operator+ adds component-wise; subtracting q from the result gives p back |
| Points.Minus | src/nano_engine/point.h:162-165 | the free operator- is the inverse of operator+ |
| Points.Shr | src/nano_engine/point.h:128-132 | operator>> shifts both coordinates by the same amount, with an arithmetic shift |
| Points.Shl | src/nano_engine/point.h:138-142 | operator<< is undone by operator>>, and the low `bits` bits of both coordinates are clear |
| Points.ShlUnique | src/nano_engine/point.h:138-142 | those two properties fix the result: any point that has both is p << bits |
| Points.Div | src/nano_engine/point.h:148-152 | operator/ divides both coordinates with C truncation |
| Points.Equal | src/nano_engine/point.h:167-170 | operator== holds exactly when the points are the same |
| Points.NotEqual | src/nano_engine/point.h:172-175 | operator!= holds exactly when the points differ |
| Points.NanoPoint.constructor | src/nano_engine/point.h:40-45 | a point is built from its two coordinates |
| Points.NanoPoint.SetPoint | src/nano_engine/point.h:58 | setPoint stores both coordinates and nothing else |
| Points.NanoPoint.ShrAssign | src/nano_engine/point.h:64-69 | operator>>= leaves the value operator>> computes |
| Points.NanoPoint.ShlAssign | src/nano_engine/point.h:75-80 | operator<<= leaves the value operator<< computes |
| Points.NanoPoint.AddAssign | src/nano_engine/point.h:86-91 | operator+= leaves the sum of the old point and p |
| Points.NanoPoint.SubAssign | src/nano_engine/point.h:97-102 | operator-= leaves the difference of the old point and p |
| Rects.Width | src/nano_engine/rect.h:51-54 | width counts both border columns |
| Rects.Height | src/nano_engine/rect.h:63-66 | height counts both border rows |
| Rects.Size | src/nano_engine/rect.h:57-60 | size is the point (width, height) |
| Rects.CollisionX | src/nano_engine/rect.h:128-131 | collisionX holds exactly for an x between the borders, both included |
| Rects.CollisionY | src/nano_engine/rect.h:137 | collisionY holds exactly for a y between the borders, both included |
| Rects.Contains | src/nano_engine/rect.h:143-156 | collision(p) and contains(p) hold exactly for a point on or inside the borders |
| Rects.ContainsRect | src/nano_engine/rect.h:163-166 | contains(r) holds exactly when both corners are inside, and then every point of r is inside |
| Rects.ContainsPartOf | src/nano_engine/rect.h:173-176 | containsPartOf holds exactly when a corner is inside, and contains(r) implies it |
| Rects.Above | src/nano_engine/rect.h:182 | above compares only y with the top border, and a point above is not contained |
| Rects.Below | src/nano_engine/rect.h:188 | below compares only y with the bottom border, and a point below is not contained |
| Rects.MinusPoint | src/nano_engine/rect.h:194-198 | operator-(p) keeps width and height and moves every contained point back by p |
| Rects.PlusPoint | src/nano_engine/rect.h:204-208 | operator+(p) keeps width and height, moves every contained point by p, and is undone by operator- |
| Rects.ShrRect | src/nano_engine/rect.h:227-230 | operator>> shifts both corners by the same amount |
| Rects.ShlRect | src/nano_engine/rect.h:236-239 | operator<< of a rectangle is undone by operator>>, and the low `bits` bits of all four corner coordinates are clear |
| Rects.Cropped | src/nano_engine/rect.h:116-122 | the cropped rectangle lies inside the bound, borders already inside are unchanged, and it contains exactly the points of both |
| Rects.CropIdempotent | src/nano_engine/rect.h:116-122 | cropping twice to the same bound changes nothing more |
| Rects.CropInside | src/nano_engine/rect.h:116-122 | a rectangle inside the bound is not changed by crop |
| Rects.NanoRect.constructor | src/nano_engine/rect.h:42-48 | a rectangle is built from its two corners |
| Rects.NanoRect.Move | src/nano_engine/rect.h:73-77 | move shifts both corners by (dx, dy) and keeps width and height |
| Rects.NanoRect.AddH | src/nano_engine/rect.h:83-86 | addH changes only the x coordinates and keeps the width |
| Rects.NanoRect.AddV | src/nano_engine/rect.h:92-96 | addV changes only the y coordinates and keeps the height |
| Rects.NanoRect.SetRect | src/nano_engine/rect.h:105-109 | setRect stores exactly the four coordinates |
| Rects.NanoRect.Crop | src/nano_engine/rect.h:116-122 | crop leaves the cropped rectangle |
| Rects.NanoRect.AddAssign | src/nano_engine/rect.h:214-221 | operator+= with a point that is not one of the rectangle's own corners leaves the rectangle operator+ computes |
| Rects.NanoRect.AddAssignOwnP1 | src/nano_engine/rect.h:214-221 | `r += r.p1`: p1 doubles and p2 moves by twice the old p1, because p2's updates read the already-moved p1; this differs from operator+ whenever p1 is not the origin |
| Menu.MaxScreenItems | src/ssd1306_menu.c:36-39 | the item rows between the frame lines, as a byte: height/8 - 2, or 254 and more for a display lower than 16 pixels |
| Menu.ScrollPosition | src/ssd1306_menu.c:50-61 | the new first item keeps the selection inside the window of max rows, and the window does not move when the selection is already inside it |
| Menu.Down | src/ssd1306_menu.c:112-122 | the selection after menuDown stays below the count |
| Menu.Up | src/ssd1306_menu.c:124-134 | the selection after menuUp stays below the count and wraps to 255 on an empty menu |
| Menu.UpDownInverse | src/ssd1306_menu.c:112-134 | on a non-empty menu menuUp undoes menuDown and menuDown undoes menuUp |
| Menu.ItemRunAt | src/ssd1306_menu.c:63-75 | item i of a redraw is drawn inverted exactly when it is the selection |
| Menu.SAppMenu.constructor | src/ssd1306_menu.c:41-48 | createMenu stores the items and the count and zeroes the selection, the old selection and the scroll position |
| Menu.SAppMenu.MenuSelection | src/ssd1306_menu.c:107-110 | menuSelection returns the selection |
| Menu.SAppMenu.MenuDown | src/ssd1306_menu.c:112-122 | menuDown moves the selection to the next item, or to the first after the last, and changes nothing else |
| Menu.SAppMenu.MenuUp | src/ssd1306_menu.c:124-134 | menuUp moves the selection to the previous item, or to the last before the first, and changes nothing else |
| Menu.SAppMenu.ShowMenu | src/ssd1306_menu.c:77-86 | showMenu draws the frame, then the existing items of the scrolled window in order, and records the redraw |
| Menu.SAppMenu.UpdateMenu | src/ssd1306_menu.c:88-105 | updateMenu does nothing when the selection has not moved, does a full redraw when the window scrolls, and otherwise redraws the old and new items; afterwards the old selection equals the selection |
| Menu.SelectionShown | src/ssd1306_menu.c:77-86 | after a redraw of a non-empty menu the selected item is among those drawn, inverted |
| UartFraming.Stuff | src/intf/uart/ssd1306_uart_builtin.c:44-52 | 0x7E and 0x7D go out as 0x7D and the byte XOR 0x20, any other byte unchanged, and never a flag byte |
| UartFraming.StuffAll | src/intf/uart/ssd1306_uart_builtin.c:54-61 | a stuffed payload holds no flag byte and at most twice the bytes |
| UartFraming.StuffAllAppend | src/intf/uart/ssd1306_uart_builtin.c:54-61 | stuffing two buffers one after the other is stuffing their concatenation |
| UartFraming.UnstuffStuffAll | src/intf/uart/ssd1306_uart_builtin.c:44-61 | an independent receiver un-stuffs the payload back exactly |
| UartFraming.FrameRoundTrip | src/intf/uart/ssd1306_uart_builtin.c:35-61 | a transfer of start, payload and stop delivers exactly the payload |
| UartFraming.UartLine.constructor | src/intf/uart/ssd1306_uart_builtin.c:35-37 | the line starts empty |
| UartFraming.UartLine.Start | src/intf/uart/ssd1306_uart_builtin.c:35-37 | start sends nothing |
| UartFraming.UartLine.Stop | src/intf/uart/ssd1306_uart_builtin.c:39-42 | stop sends the single frame delimiter 0x7E |
| UartFraming.UartLine.SendByte | src/intf/uart/ssd1306_uart_builtin.c:44-52 | sendByte appends the stuffed byte to the line |
| UartFraming.UartLine.SendBytes | src/intf/uart/ssd1306_uart_builtin.c:54-61 | sendBytes appends the stuffed buffer, byte after byte |
| Utoa.DigitChar | src/ssd1306_hal/linux/io.h:130-134 | a digit below 10 is '0'..'9', one from 10 on is 'A' onwards |
| Utoa.CharValueDigitChar | src/ssd1306_hal/linux/io.h:130-134 | every digit character reads back as its digit value |
| Utoa.LsbStep | src/ssd1306_hal/linux/io.h:129-136 | one round of the do-while emits the lowest digit and goes on with the quotient until it is zero |
| Utoa.UtoaStringValue | src/ssd1306_hal/linux/io.h:120-148 | the text utoa writes reads back, most significant digit first, as the number |
| Utoa.UtoaStringShape | src/ssd1306_hal/linux/io.h:129-144 | the text has at least one digit, is "0" exactly for zero, has no leading zero, and every digit is below the radix |
| Utoa.LsbDigits | src/ssd1306_hal/linux/io.h:122-136 | the do-while writes the digits least significant first into a scratch buffer, for a number with no more digits than the buffer holds |
| Utoa.CopyReversed | src/ssd1306_hal/linux/io.h:138-145 | the second loop copies the scratch digits back to front into the caller's buffer and ends them with a NUL, leaving the bytes after it alone |
| Utoa.Utoa | src/ssd1306_hal/linux/io.h:120-148 | utoa writes the digits most significant first, then a NUL, leaves the rest of the buffer alone and returns the buffer, for every number of at most 17 digits |
| Utoa.LsbStringWidth | src/ssd1306_hal/linux/io.h:129-136 | a number below 2^k has at most k digits in any radix from 2 on |
| Utoa.UtoaScratchOverflow | src/ssd1306_hal/linux/io.h:122 | 2^17, a valid unsigned int, has 18 binary digits, one more than the 17-character scratch buffer holds |
| Utoa.WideScratchFits | src/ssd1306_hal/linux/io.h:120-122 | every unsigned int below 2^32 has at most 32 digits in any radix |
| Utoa.UtoaWide | src/ssd1306_hal/linux/io.h:120-148 | utoa with a 32-character scratch buffer writes every unsigned int out, most significant digit first, then a NUL |
| OledCli.HexChar | tools/oled_cli/main.cpp:102-111 | the digit character of a nibble is a hex digit |
| OledCli.Hex2Int | tools/oled_cli/main.cpp:102-111 | hex2int is -1 exactly for a character that is not a hex digit, and otherwise the value whose upper- or lower-case digit it is |
| OledCli.Hex2IntHexChar | tools/oled_cli/main.cpp:102-111 | hex2int reads every written digit back in either case |
| OledCli.PairByteValue | tools/oled_cli/main.cpp:113-128 | two hex digits make 16*hi + lo; a bad low digit gives 0xFF and a bad high digit the high nibble 0xF |
| OledCli.HexBytes | tools/oled_cli/main.cpp:113-128 | atoi_b makes one byte per pair of characters |
| OledCli.HexBytesHexString | tools/oled_cli/main.cpp:113-128 | bytes written as hex digit pairs are read back by atoi_b |
| OledCli.HexBytesOdd | tools/oled_cli/main.cpp:117-126 | an unpaired last character is dropped |
| OledCli.HexDecoder.constructor | tools/oled_cli/main.cpp:115 | the static buffer of 4096 bytes starts zeroed |
| OledCli.HexDecoder.AtoiB | tools/oled_cli/main.cpp:113-128 | atoi_b writes the bytes of the string to the front of the static buffer, keeps the rest and returns the buffer |
| OledCli.HexDecoder.StoreByte | tools/oled_cli/main.cpp:123-124 | the byte is stored right after the bytes already written, and the bytes after it are kept |
| OledCli.RunEnd | tools/oled_cli/main.cpp:74-79 | the do-while stops at the first character after the run that is not a space |
| OledCli.ScanArgsShape | tools/oled_cli/main.cpp:62-90 | the line keeps its length, the part scanned is not touched again, and the argument starts increase |
| OledCli.ScanArgsDefined | tools/oled_cli/main.cpp:71-87 | a line that does not end in a space or a comma is scanned without running past its terminator |
| OledCli.GetArgsDefined | tools/oled_cli/main.cpp:62-90 | such a line gives at least one argument, the first at the start of the line |
| OledCli.GetArgsWords | tools/oled_cli/main.cpp:62-90 | a line of words with delimiters between them and a newline at the end splits into exactly those words |
| OledCli.GetArgsList | tools/oled_cli/main.cpp:62-90 | get_args_list blanks the line in place and writes the argument starts to argv, returning their number |
| OledCli.BlankRun | tools/oled_cli/main.cpp:73-79 | the do-while turns a run of separators into NULs and returns the index after it |
| Canvas.Apply | src/nano_engine/canvas.cpp:347-354 | drawing sets the bits of the mask in a non-zero colour, clears them in colour zero, and keeps every other bit |
| Canvas.BankMaskBit | src/nano_engine/canvas.cpp:460-472 | row j of a page is in fillRect's mask exactly when that row lies between y1 and y2 |
| Canvas.ClipHLine | src/nano_engine/canvas.cpp:362-371 | the clipped span of drawHLine lies on the canvas and holds exactly the canvas pixels of the world line |
| Canvas.ClipRect | src/nano_engine/canvas.cpp:442-455 | the clipped box of fillRect lies on the canvas and holds exactly the canvas pixels of the world rectangle |
| Canvas.MpAsWrittenAliases | src/nano_engine/canvas.h:576-577 | with the stride computed as written, two pixels of a 12x16 canvas share a bit |
| Canvas.AddrUnique | src/nano_engine/canvas.cpp:338 | with a stride that holds a row, distinct pixels have distinct bits |
| Canvas.MpAsWrittenOnPowers | src/nano_engine/canvas.h:576-577 | for a width that is a power of two from 8 on, the loop as written gives a page stride equal to the width |
| Canvas.Addr1Bound | src/nano_engine/canvas.cpp:338 | every pixel lies inside the bytes clear() zeroes |
| Canvas.NanoCanvas1.constructor | src/nano_engine/canvas.h:566-579 | begin stores the size and the buffer, no offset, white, and clears the w*h/8 bytes of the pages |
| Canvas.NanoCanvas1.SetOffset | src/nano_engine/canvas.h:587 | setOffset stores the offset and nothing else |
| Canvas.NanoCanvas1.SetColor | src/nano_engine/canvas.h:736 | setColor stores the colour and nothing else |
| Canvas.NanoCanvas1.Clear | src/nano_engine/canvas.cpp:492-495 | clear zeroes exactly the w*h/8 bytes of the pages and no byte after them |
| Canvas.NanoCanvas1.PutPixel | src/nano_engine/canvas.cpp:341-355 | putPixel ignores a pixel off the canvas and otherwise sets or clears its bit, leaving every other bit |
| Canvas.NanoCanvas1.DrawHLine | src/nano_engine/canvas.cpp:362-382 | drawHLine applies the row's bit to exactly the bytes of the clipped span |
| Canvas.NanoCanvas1.FillRect | src/nano_engine/canvas.cpp:442-485 | fillRect applies each page's row mask to the clipped columns of the pages the box touches, and to no other byte |
| Canvas.NanoCanvas1.FillPage | src/nano_engine/canvas.cpp:473-483 | the column loop applies the mask to columns xa..xb of one page |
| Canvas.PutPixelPixels | src/nano_engine/canvas.cpp:341-355 | putPixel changes the pixel it is given to the drawing colour and no other pixel |
| Canvas.DrawHLinePixels | src/nano_engine/canvas.cpp:362-382 | drawHLine changes exactly the canvas pixels on the world line to the drawing colour |
| Canvas.FillRectPixels | src/nano_engine/canvas.cpp:442-485 | fillRect changes exactly the canvas pixels inside the world rectangle to the drawing colour |
| Canvas.NanoCanvas8.constructor | src/nano_engine/canvas.h:316-330 | begin stores the size and the buffer, no offset, white, and clears the bytes clear() zeroes |
| Canvas.NanoCanvas8.SetOffset | src/nano_engine/canvas.h:337 | setOffset stores the offset and nothing else |
| Canvas.NanoCanvas8.SetColor | src/nano_engine/canvas.h:483 | setColor stores the colour and nothing else |
| Canvas.NanoCanvas8.Cleared | src/nano_engine/canvas.cpp:43 | YADDR8(h) casts the height to 16 bits: every one of the w*h pixel bytes for a height below 0x10000, none for a height of 0x10000 |
| Canvas.NanoCanvas8.Clear | src/nano_engine/canvas.cpp:316-319 | clear zeroes exactly the YADDR8(h) bytes and no byte after them |
| Canvas.NanoCanvas8.PutPixel | src/nano_engine/canvas.cpp:45-53 | putPixel stores the colour at y*w + x for a pixel on the canvas, and nothing otherwise |
| Canvas.NanoCanvas8.DrawHLine | src/nano_engine/canvas.cpp:82-101 | drawHLine stores the colour for exactly the canvas pixels on the world line |
| Canvas.NanoCanvas8.FillRect | src/nano_engine/canvas.cpp:116-146 | fillRect stores the colour for exactly the canvas pixels inside the world rectangle |
| Canvas.NanoCanvas8.FillRow | src/nano_engine/canvas.cpp:139-144 | the inner loop of fillRect fills columns xa..xb of one row and moves the address past them |
| Tiler.MaxTiles | src/nano_engine/tiler.h:97 | NE_MAX_TILES_NUM is between 1 and 64 |
| Tiler.MaxTilesSpan | src/nano_engine/tiler.h:97 | whatever the tile size, the flag words cover 512 rows of pixels |
| Tiler.RefreshedBits | src/nano_engine/tiler.h:134-148 | refresh(x1, y1, x2, y2) sets exactly the bits of the clamped columns in the clamped rows, and clears none |
| Tiler.RefreshedPointBits | src/nano_engine/tiler.h:124-128 | refresh(point) sets exactly the point's tile bit when its row has a word, and clears none |
| Tiler.RefreshesGrow | src/nano_engine/tiler.h:124-148 | neither refresh clears a bit |
| Tiler.PointIsUnitRect | src/nano_engine/tiler.h:124-148 | refresh(point) is the refresh of the one-pixel rectangle at the point |
| Tiler.RefreshCoversRect | src/nano_engine/tiler.h:134-148 | every pixel of a refreshed rectangle on the tiled area gets the bit of its tile |
| Tiler.RefreshedPixelRedrawn | src/nano_engine/tiler.h:301-326 | with square tiles of 2^B pixels, a refreshed pixel lies in a tile the next displayBuffer hands to the draw callback |
| Tiler.Tile32x32MonoMisses | src/nano_engine/tiler.h:52 | with the 32x32 tile configuration as written, the refresh of pixel (16, 0) redraws the tile at x = 32 and not the tile holding the pixel |
| Tiler.NanoEngineTiler.constructor | src/nano_engine/tiler.h:84-87 | the constructor marks every tile for redrawing |
| Tiler.NanoEngineTiler.RefreshAll | src/nano_engine/tiler.h:105-108 | refresh() sets every flag word to all ones |
| Tiler.NanoEngineTiler.RefreshPoint | src/nano_engine/tiler.h:124-128 | refresh(point) leaves the words of RefreshedPoint |
| Tiler.NanoEngineTiler.Refresh | src/nano_engine/tiler.h:134-148 | refresh(x1, y1, x2, y2) leaves the words of Refreshed |
| Tiler.NanoEngineTiler.RefreshRows | src/nano_engine/tiler.h:141-148 | the outer loop ORs the bits of the column range into every word of the row range and changes no other word |
| Tiler.NanoEngineTiler.RefreshRow | src/nano_engine/tiler.h:143-146 | the inner loop ORs the bits of the column range into one word and changes no other |
| Tiler.NanoEngineTiler.RefreshRect | src/nano_engine/tiler.h:115-118 | refresh(rect) is the refresh of its corners |
| Tiler.NanoEngineTiler.RefreshWorld | src/nano_engine/tiler.h:165-168 | refreshWorld refreshes the rectangle moved by minus the offset |
| Tiler.NanoEngineTiler.RefreshWorldPoint | src/nano_engine/tiler.h:174-177 | refreshWorld(point) refreshes the point moved by minus the offset |
| Tiler.NanoEngineTiler.DisplayBuffer | src/nano_engine/tiler.h:301-326 | with a draw callback, every row of tiles on the display is read and cleared and each tile whose bit was set is drawn, row by row and left to right; without one no flag changes |
| Tiler.NanoEngineTiler.TakeWord | src/nano_engine/tiler.h:310-311 | returns the row's flag word and leaves it 0, keeping every other word |
| Tiler.NanoEngineTiler.ScanRow | src/nano_engine/tiler.h:312-322 | the column loop draws the tiles of one word whose bits are set, left to right, up to the right edge |
| FontContainers.GroupChars | tools/modules/fontcontainer.py:45-51 | get_group_chars of a group index gives the group's characters, position by position; for a negative index it gives one character per glyph of the container |
| FontContainers.GroupCharsConcat | tools/modules/fontcontainer.py:46-50 | for a negative index the loop lists the characters of the earlier groups, then those of the last group |
| FontContainers.GroupCharsFind | tools/modules/fontcontainer.py:45-51 | a character is among the characters of all groups exactly when _find_char_data finds a glyph for it |
| FontContainers.FindChar | tools/modules/fontcontainer.py:115-123 | a glyph found is for the character asked for |
| FontContainers.FindCharFirst | tools/modules/fontcontainer.py:115-123 | the glyph found is the one at the first position holding the character |
| FontContainers.FindCharNone | tools/modules/fontcontainer.py:115-123 | nothing is found exactly when no glyph is for the character |
| FontContainers.FindCharIn | tools/modules/fontcontainer.py:115-123 | the glyph found is one of the container's glyphs |
| FontContainers.FindCharMember | tools/modules/fontcontainer.py:115-123 | a character that has a glyph is always found |
| FontContainers.FindCharAddLast | tools/modules/fontcontainer.py:58-76 | a glyph added for a character that already has one is never found: duplicates are shadowed |
| FontContainers.NewGlyph | tools/modules/fontcontainer.py:58-76 | a negative width, height, left or top stands for the row length, the row count, 0 and the height, and used_width is the width |
| FontContainers.NewGlyphDefaults | tools/modules/fontcontainer.py:58-76 | with every metric left to its default, a rectangular bitmap gives a well-formed glyph standing on the baseline |
| FontContainers.NewGlyphBearings | tools/modules/fontcontainer.py:58-76 | a glyph add_char stores has no negative width, height or bearing |
| FontContainers.ExtentBounds | tools/modules/fontcontainer.py:134-139 | the bounds the loop accumulates hold the origin and every glyph, and each is reached by the origin or by a glyph |
| FontContainers.MetricsBounds | tools/modules/fontcontainer.py:129-143 | all four metrics of the frame are non-negative, with both baselines inside it |
| FontContainers.CommittedFits | tools/modules/fontcontainer.py:129-143 | every glyph fits the frame derived from the glyphs |
| FontContainers.CommittedTight | tools/modules/fontcontainer.py:129-143 | the frame is the smallest that holds the glyphs |
| FontContainers.ExpandedTopRows | tools/modules/fontcontainer.py:147-152 | expanding to the top puts zero rows above the glyph and keeps its rows in order below them |
| FontContainers.ExpandedTopRectangular | tools/modules/fontcontainer.py:147-152 | expanding to the top keeps every row as wide as the glyph |
| FontContainers.ExpandedVFits | tools/modules/fontcontainer.py:155-162 | for a glyph that fits the frame, expanding vertically gives exactly the frame's rows, the glyph's rows at its place |
| FontContainers.ExpandedHFits | tools/modules/fontcontainer.py:165-180 | for a glyph that fits the frame, both paddings are non-negative, every row gets the frame's width and the pixels move right by the front padding |
| FontContainers.DeflatedHRows | tools/modules/fontcontainer.py:190-196 | the corrected horizontal deflation keeps a glyph well-formed and moves its pixels left |
| FontContainers.DeflatedHAsWrittenKeepsRows | tools/modules/fontcontainer.py:190-196 | as written, a deflated glyph keeps its old rows and stops being well-formed |
| FontContainers.DeflateCharsAsWrittenKeepsRows | tools/modules/fontcontainer.py:231-247 | as written, deflate_chars(1, 0, 0, 0) of a committed one-glyph font narrows the glyph to one column but keeps both pixels of its row; the corrected loop body keeps one |
| FontContainers.DeflatedAgree | tools/modules/fontcontainer.py:239-246 | with no column beyond either kept part, the loop body as written and the corrected one give the same glyph |
| FontContainers.CommittedDeflateAgrees | tools/modules/fontcontainer.py:250-252 | on a committed font, deflate_chars with no horizontal change (as deflate_chars_bottom calls it) does to every glyph what the corrected loop body does |
| FontContainers.DeflatedV | tools/modules/fontcontainer.py:198-212 | vertical deflation never leaves a negative top and keeps the glyph's width and left |
| FontContainers.DeflatedBearings | tools/modules/fontcontainer.py:231-247 | deflate_chars never leaves a negative bearing |
| FontContainers.DeflatedFrame | tools/modules/fontcontainer.py:231-247 | a deflated glyph keeps at most the kept parts left, right and above the origin, and ends exactly the bottom part below the baseline |
| FontContainers.ApplyBearings | tools/modules/fontcontainer.py:147-247 | every transform keeps the bearings non-negative |
| FontContainers.FlattenMap | tools/modules/fontcontainer.py:183-247 | transforming every group transforms the glyphs one by one, in order |
| FontContainers.DeflateBottomHeight | tools/modules/fontcontainer.py:250-252 | deflate_chars_bottom(h) of a committed font leaves it h rows tall with its baseline where it was, when baseline <= h <= height |
| FontContainers.TopsWithin | tools/modules/fontcontainer.py:129-143 | no glyph rises above the baseline of the frame |
| FontContainers.ExpandCharsFrame | tools/modules/fontcontainer.py:227-229 | expand_chars makes every glyph exactly as wide and as tall as the frame, with the frame's baselines as its bearings |
| FontContainers.ExpandedFixed | tools/modules/fontcontainer.py:155-180 | a glyph that already has the frame's size and bearings is left as it is by both expansions |
| FontContainers.ExpandCharsIdempotent | tools/modules/fontcontainer.py:227-229 | a second expand_chars in the same frame changes no glyph: sizes and pixels stay as the first left them |
| FontContainers.TextRowWidth | tools/modules/fontcontainer.py:91-104 | every printed row of a string is equally wide: each character with a glyph takes its width plus one |
| FontContainers.FontContainer.constructor | tools/modules/fontcontainer.py:38-43 | a new container has no glyphs, a zero frame and no first character |
| FontContainers.FontContainer.AddGroup | tools/modules/fontcontainer.py:54-56 | add_group appends one empty group and returns its index |
| FontContainers.FontContainer.AddChar | tools/modules/fontcontainer.py:58-76 | add_char appends exactly one record to the group, counting a negative index from the end |
| FontContainers.FontContainer.Rows | tools/modules/fontcontainer.py:112-113 | rows is the number of 8-row bands that hold the height |
| FontContainers.FontContainer.CommitUpdates | tools/modules/fontcontainer.py:129-143 | _commit_updates leaves the frame derived from the present glyphs |
| FontContainers.FontContainer.ExtendGroup | tools/modules/fontcontainer.py:134-139 | the inner loop extends the bounds by the glyphs of one group |
| FontContainers.FontContainer.FindCharData | tools/modules/fontcontainer.py:115-123 | _find_char_data gives a glyph for the character asked for |
| FontContainers.FontContainer.PrintString | tools/modules/fontcontainer.py:91-104 | printString writes one line per row of the frame |
| FontContainers.FontContainer.PrintRow | tools/modules/fontcontainer.py:95-103 | one printed line holds the cells of the characters that have a glyph |
| FontContainers.FontContainer.InsertZeroRows | tools/modules/fontcontainer.py:149-150 | the insert loop puts n zero rows in front |
| FontContainers.FontContainer.AppendZeroRows | tools/modules/fontcontainer.py:159-160 | the append loop puts n zero rows at the end |
| FontContainers.FontContainer.ExpandCharTop | tools/modules/fontcontainer.py:147-152 | __expand_char_top gives the glyph ExpandedTop computes |
| FontContainers.FontContainer.ExpandCharV | tools/modules/fontcontainer.py:155-162 | __expand_char_v gives the glyph ExpandedV computes |
| FontContainers.FontContainer.ExpandCharH | tools/modules/fontcontainer.py:165-180 | __expand_char_h gives the glyph ExpandedH computes |
| FontContainers.FontContainer.PadFront | tools/modules/fontcontainer.py:175-177 | the insert loops put the same zeros in front of every row |
| FontContainers.FontContainer.PadBack | tools/modules/fontcontainer.py:178-179 | the append puts the same zeros after every row |
| FontContainers.FontContainer.ApplyChar | tools/modules/fontcontainer.py:183-247 | the loop body transforms one glyph, the deflate step with __deflate_char_h as written |
| FontContainers.FontContainer.TransformGroup | tools/modules/fontcontainer.py:183-247 | the inner loop transforms every glyph of a group |
| FontContainers.FontContainer.ApplyToAll | tools/modules/fontcontainer.py:183-247 | the loops transform every glyph of every group and keep the frame |
| FontContainers.FontContainer.ExpandCharsTop | tools/modules/fontcontainer.py:215-218 | expand_chars_top expands every glyph to the top |
| FontContainers.FontContainer.ExpandCharsV | tools/modules/fontcontainer.py:221-224 | expand_chars_v expands every glyph vertically |
| FontContainers.FontContainer.ExpandCharsH | tools/modules/fontcontainer.py:183-186 | expand_chars_h expands every glyph horizontally |
| FontContainers.FontContainer.ExpandChars | tools/modules/fontcontainer.py:227-229 | expand_chars expands vertically, then horizontally, in the same frame |
| FontContainers.FontContainer.DeflateChars | tools/modules/fontcontainer.py:231-247 | deflate_chars trims every glyph's metrics to the kept parts of the frame, the rows only vertically as the code does, and commits again |
| FontContainers.FontContainer.DeflateCharsBottom | tools/modules/fontcontainer.py:250-252 | deflate_chars_bottom(h) cuts the rows below h and leaves a font h rows tall |
| FontGenerator.Pack | tools/modules/fontgenerator.py:63-67 | pixels packed first in bit 0 give a number below 2^n |
| FontGenerator.PackBit | tools/modules/fontgenerator.py:63-67 | every packed pixel is read back from its bit |
| FontGenerator.ColumnByteBits | tools/modules/fontgenerator.py:60-67 | bit i of a column byte is pixel (band*8 + i, x), and the bits past the last row are clear |
| FontGenerator.PackColumn | tools/modules/fontgenerator.py:62-67 | the innermost loop ORs the pixels of one column of a band into a byte |
| FontGenerator.BandsAt | tools/modules/fontgenerator.py:59-68 | column x of band b is byte b*width + x of a glyph |
| FontGenerator.EmitBands | tools/modules/fontgenerator.py:59-68 | the band and column loops emit the bands one after the other |
| FontGenerator.FixedGlyphsAt | tools/modules/fontgenerator.py:57-71 | each glyph of the legacy layout takes rows*width bytes, glyph k from byte k*rows*width on |
| FontGenerator.FixedOldLayout | tools/modules/fontgenerator.py:41-77 | the legacy layout is the header, then glyph k at byte header + k*rows*width, and in the unicode build three zero bytes |
| FontGenerator.FixedReadyAfterExpand | tools/modules/fontgenerator.py:42 | after expand_chars every character's glyph fills the frame the layout reads |
| FontGenerator.RowSum | tools/modules/fontgenerator.py:106 | a row sums to 0 exactly when it is clear |
| FontGenerator.TrimmedHeightSpec | tools/modules/fontgenerator.py:105-107 | the rows trimmed off are clear and the last row kept has a pixel set |
| FontGenerator.TrimHeight | tools/modules/fontgenerator.py:105-107 | the while loop keeps the trimmed height |
| FontGenerator.JumpTableAt | tools/modules/fontgenerator.py:99-118 | entry k of a jump table holds the sum of the sizes of the glyphs before it, the width and the kept height |
| FontGenerator.MeasureGlyph | tools/modules/fontgenerator.py:104-110 | the width, the height kept and the size ceil(h/8)*width of a glyph |
| FontGenerator.GroupDataLength | tools/modules/fontgenerator.py:119-137 | the data of a group is exactly as long as the total its jump table closes with |
| FontGenerator.TrimmedRowsIgnored | tools/modules/fontgenerator.py:128-134 | reading the rows past the kept height changes no data byte |
| FontGenerator.GroupBytesLength | tools/modules/fontgenerator.py:89-137 | a group of n glyphs takes 3 + 4n + 2 bytes of record, table and total, then its data |
| FontGenerator.NewFormatLength | tools/modules/fontgenerator.py:79-148 | the grouped layout is total_size bytes: 4, then 3 + 4n + 2 plus the data per group, then 3 closing zeros |
| FontGenerator.NewReadyAfterTop | tools/modules/fontgenerator.py:81 | after expand_chars_top every glyph can be emitted |
| FontGenerator.SizeCheckHolds | tools/modules/fontgenerator.py:142-144 | the size check never fires: every glyph's data is as long as its jump-table size |
| FontGenerator.Generator.constructor | tools/modules/fontgenerator.py:38-39 | the generator keeps its source container |
| FontGenerator.Generator.GenerateFixedOld | tools/modules/fontgenerator.py:41-77 | generate_fixed_old expands the glyphs and emits the legacy layout of the expanded font |
| FontGenerator.Generator.EmitFixedOld | tools/modules/fontgenerator.py:43-77 | the printing part emits the header, the glyphs and the trailer |
| FontGenerator.Generator.EmitGlyphs | tools/modules/fontgenerator.py:57-71 | the character loop emits every glyph's bands in order |
| FontGenerator.Generator.GenerateNewFormat | tools/modules/fontgenerator.py:79-148 | generate_new_format expands to the top, emits the grouped layout and counts exactly its bytes |
| FontGenerator.Generator.EmitNewFormat | tools/modules/fontgenerator.py:82-148 | the printing part emits the header, every group and the three closing zeros |
| FontGenerator.Generator.EmitGroups | tools/modules/fontgenerator.py:87-144 | the group loop emits every group's bytes in order |
| FontGenerator.Generator.EmitGroup | tools/modules/fontgenerator.py:88-144 | one group is its unicode record, its jump table and total, and its data |
| FontGenerator.Generator.EmitJumpTable | tools/modules/fontgenerator.py:99-120 | the first glyph loop emits the jump table with offsets restarting at zero, and records the heights and sizes |
| FontGenerator.Generator.EmitGroupData | tools/modules/fontgenerator.py:122-144 | the second glyph loop emits the data of every glyph of the group |

## Left out

- Text output: the generator's C declarations, comments, hex formatting and `FONT REQUIRES` line. generate_fixed_old prints both `#ifdef CONFIG_SSD1306_UNICODE_ENABLE` alternatives; the model gives the bytes of the C array for the one build that the `unicode` parameter chooses.
- The `sys.version_info` branches of the generator only change how comments are printed.
- The bytes of both layouts are unbounded integers: a jump-table offset of 65536 or more, or a width, height or first character above 255, is printed as is by the generator and is not reduced here either.
- The `_groups` class attribute of `FontContainer` is shared by every instance in Python; the model keeps the groups per instance, so two containers in one process do not see each other's glyphs.
- Rects.NanoRect.AddAssign: takes the point by value, so it is right for every argument except one of the rectangle's own corners. The self-aliased `r += r.p1` is modelled separately by AddAssignOwnP1. `r += r.p2` needs no model of its own: p2's updates read p2's own coordinates just before changing them, so the result is the same as AddAssign's.
- Glyph records are values: the in-place updates of a record's dictionary and of its bitmap lists are modelled by replacing the record, so aliasing between records is not captured.
- `FontContainer.name`, `charBitmap` and `groups_count` are not modelled as members; `charBitmap` is `FindChar(...).value.bitmap` wherever the generator reads it.
- FontGenerator.Generator.GenerateFixedOld: requires a committed font of well-formed glyphs and a first character, which the source assumes without checking.
- FontGenerator.Generator.GenerateNewFormat: requires no empty group and every glyph at least one row tall after expanding to the top, where the source raises IndexError at `chars[0]` or `bitmap[0]`. It also requires well-formed glyphs, which the source does not check: a glyph whose declared width is smaller than its rows is emitted with the length of its first row as its width. The glyphs that tools/modules/ttfsource.py:72-78 and tools/modules/glcdsource.py:81-84 add are well-formed.
- Coordinates and lengths of the nano engine (`lcdint_t`) are unbounded integers; overflow of C `int` is not modelled.
- Canvas.NanoCanvas1.constructor: uses the corrected page stride, the width (see Findings), and keeps no `m_p`; putPixel, drawHLine and fillRect address page b at b*w where the library shifts b by m_p. It also requires (h/8)*w < 0x10000, although begin() takes a canvas of any size: at 64 KiB or more, drawHLine's `uint16_t addr = YADDR1(y1) + x1` (src/nano_engine/canvas.cpp:372) wraps, and the model does not follow that wrap.
- Canvas.NanoCanvas1.Clear: zeroes the (h/8)*w bytes of the pages, the w*h/8 of the documentation, where the library zeroes (h>>3)<<m_p bytes.
- Canvas.NanoCanvas8.constructor: requires a height of at most 0x10000; above it YADDR8 of a row wraps at 16 bits, so rows would be written over one another, which the model does not follow.
- Canvas.NanoCanvas1.FillRect: requires a canvas narrower than 256 pixels with fewer than 256 pages, because the `uint8_t` loop counters would never pass the end otherwise.
- Canvas8 and Canvas1 `blt`, text output and the other drawing members of the canvases write to the display or are outside this model.
- Tiler.NanoEngineTiler.Refresh: requires that no visited tile column x>>B reaches 31 (0 <= x>>B < 31), where `1 << x` is undefined in C.
- Tiler.NanoEngineTiler.RefreshPoint: requires the same of the point's tile column, when the point lies in the flag rows.
- Tiler.NanoEngineTiler.RefreshWorldPoint: requires the same of the tile column of the point less the offset.
- Tiler.NanoEngineTiler.DisplayBuffer: the draw callback's own drawing, its return value and the transfer of the canvas to the display are not modelled; the result is the list of tile origins handed to the callback. It also requires a display no taller than the flag words cover (n * 2^B rows, 512 pixel rows at most). On a taller display, the source's row loop reads `m_refreshFlags` past its end (src/nano_engine/tiler.h:308-311), and the model does not follow that read.
- Tiler: tiles are modelled 2^B pixels square; the separate tile width and height of the 32x32 configuration are the subject of a finding. `TILE_128x64_MONO` (128 by 64 pixels, B = 7) is not square either, but on a 128x64 display every pixel lies in tile row 0, column 0, so the model gives the same flags and the same single tile origin (0, 0).
- Menu: the pixels drawn are recorded as a log of frame, item and clear operations; fonts, text and the display are not modelled.
- UartFraming: the UART hardware is modelled as the sequence of bytes handed to `uart_send_byte`.
- Utoa.Utoa: requires a radix of 2 to 72 (digits beyond that would leave ASCII letters for characters the model does not name), a value below 2^32, at most 17 digits, which is what the scratch buffer holds (the NUL goes to the caller's buffer), and a caller's buffer with room for the digits and the NUL.
- FontContainers.NewGlyph: requires a non-empty bitmap when the width is left to its default; there add_char raises IndexError at `len(bitmap[0])`, which the model does not follow.
- FontContainers.FontContainer.PrintString: requires a committed container (`hasBaseline`). On a container never committed, `self.baseline` is unset, and the source raises AttributeError at tools/modules/fontcontainer.py:98. PrintString, PrintRow and PrintChar also require `AllTall`: every glyph's `height` is at most its number of bitmap rows. Otherwise `data['bitmap'][index]` raises IndexError at :102. Neither exception path is modelled.
- FontContainers.GroupChars: requires `group_index < len(groups)`, which excludes the IndexError of `self._groups[group_index]` (tools/modules/fontcontainer.py:51) for a larger index.
- FontContainers.FontContainer.AddChar: requires `-len(groups) <= group < len(groups)`, which excludes the IndexError that `self._groups[group]` raises for any other group (tools/modules/fontcontainer.py:59). It also requires a non-empty bitmap when the width is left to its default; the source first appends an empty record to the group and then raises IndexError, and that half-made record is not modelled. The `source` argument, stored as `source_data`, is not kept: nothing in the font tools reads it.
- OledCli.HexDecoder.AtoiB: requires that the bytes fit the 4096-byte static buffer, which the tool does not check.
- OledCli.GetArgsList: requires a line whose scan does not step past its terminator, and an argv with room for every argument; the tool's 128 entries are not checked. The scan overruns when a separator run (a space or comma, then spaces) reaches the end of the line, as in "a "; in "a ," the comma after the run is taken as an argument start and the scan stops at the terminator. `ScanArgsDefined` shows that every line not ending in a separator scans without overrun.
- OledCli.PairByteValue: the value of a bad digit relies on `-1 << 4` being -16, as on two's-complement targets.
- The file and terminal I/O of `oled_cli` and the device access behind it are outside this model.

## Findings

| source | as written | input that shows it | evidently intended | confidence | as-written member | corrected member |
|---|---|---|---|---|---|---|
| src/nano_engine/canvas.h:576-577 | `m_p = 3; while (w >> (m_p+1)) m_p++;` takes the largest power of two not above the width as the page stride | a 12x16 canvas: stride 8, so pixels (8, 0) and (0, 8) are bit 0 of byte 8 | a page stride of the width: the documentation allows any width with a buffer of w*h/8 bytes (canvas.h:541-545), and drawVLine steps from page to page by m_w (canvas.cpp:408); the model uses that stride, under which distinct pixels have distinct bits | not executed | Canvas.MpAsWrittenAliases | Canvas.AddrUnique |
| src/nano_engine/tiler.h:52 | the 32x32 monochrome tile sets B = 4 while displayBuffer steps 32 pixels per flag bit | refresh of pixel (16, 0): bit 1 of row 0 is set and the tile at x = 32 is redrawn | the tile a pixel sets a bit for is the tile drawn for that bit | not executed | Tiler.Tile32x32MonoMisses | Tiler.RefreshedPixelRedrawn |
| tools/modules/fontcontainer.py:192 | `d = d[left:len(d)-right]` rebinds the loop variable, so the rows keep every pixel | a glyph of width 2 and row [1, 1] deflated by 1 on the left: width 1, row still [1, 1] | each row loses `left` pixels in front and `right` at the end; deflate_chars is modelled as written, and on a committed font, the generator's only use, both agree (`CommittedDeflateAgrees`) | not executed | FontContainers.DeflateCharsAsWrittenKeepsRows | FontContainers.DeflatedHRows |
| src/ssd1306_hal/linux/io.h:122 | `char temp[17]` holds 17 digits, but an unsigned int of 32 bits has up to 32 binary digits | num = 131072 (2^17) in radix 2: 18 digits, the last written to temp[17], past the end | a scratch buffer of 32 characters, the binary digits of the widest unsigned int | not executed | Utoa.UtoaScratchOverflow | Utoa.UtoaWide |
