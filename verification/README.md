# Verified models of Nexus OS and its MicroPython modules

This project models the algorithms of a small i686 kernel and of the MicroPython modules that it
carries, and proves what they promise. Each file takes one component, at the level of its buffers
and its state: code that updates objects in place is a class or a method on arrays, proved against
a specification on values, and the properties are lemmas about that specification.

| files | component |
|---|---|
| `Pixels`, `Layouts`, `Pictures`, `FrameBuffer`, `PixelBytes` | pixel storage in seven formats, single pixels, fast rectangle fills, and all that down to the bytes |
| `Lines`, `Ellipses`, `Polygons`, `Crossings`, `WordRanges`, `Copies` | line, ellipse, polygon (also in 32-bit arithmetic), blit and scroll on top of them |
| `JsonText`, `JsonMachine`, `JsonCorrect`, `JsonExact`, `JsonLoader`, `JsonStrings` | JSON texts and their values, the parser's loop as a machine, its correctness and where it ends, the imperative parser, strings by their code points |
| `WebSocket` | the resumable frame parser and the frame writer (sections 5.2 and 5.3 of RFC 6455) |
| `AcceptQueue` | the circular queue of a listening TCP socket |
| `HeapQueue` | the heap of `heapq` |
| `Rings`, `Frames`, `FramesAsync`, `RingSteps` | the audio ring and the transfers through it, and rings under every interleaving of loads and stores; the keyboard ring |
| `CounterMode` | AES in counter mode over a block cipher that is a parameter (section 6.5 of NIST SP 800-38A) |
| `Base64` | base64 in both directions (section 4 of RFC 4648) |
| `Terminal`, `LineEditor`, `Echo` | the VGA terminal, the line editor with its history, and both together |
| `RamDisk`, `Memory` | the packer and the reader of the RAM disk, `memmove` |
| `PollSet`, `SelectMasks` | the slots behind `poll`, and the merging of lists in `select` |
| `ByteSeqs` | bytes |

Check everything with `dafny verify dfyconfig.toml`.

## Where the code does less than one expects

Some promises hold only under a condition. The code is modelled as it is, the condition is proved
to be exact, and an input that fails is a lemma or a small client of its own.

- A frame buffer whose stride, rounded up to whole bytes, is 65536 is accepted with stride 0, and
  its rows overlap if there are several (`FrameBuffers.FrameBuffer.Make`,
  `FrameBuffers.FrameBuffer.MakeWide`). The size check is done in 32 bits and wraps around for very
  large pictures (`FrameBuffers.FrameBuffer.MakeLarge`).
- Left of column 0 the edges of the filled polygon are rounded to the right, because C rounds towards
  zero: pixels are missing at left edges and added at right ones (`Crossings.NodeNear`,
  `Crossings.NodeMoves`, `Crossings.FillsRightly`, `Crossings.SquareCut`, `Crossings.SquareTooWide`).
- An ellipse with both radii zero never ends (`Ellipses.EndsUnlessBothZero`,
  `Ellipses.ZeroRadiiNeverEnd`).
- In 32-bit arithmetic polygons with large coordinates lose nodes, and large ellipses may not end
  (`WordRanges.LongEdgeWraps`, `WordRanges.LargeRadiiNeverEnd`).
- `json.load` decodes the two halves of a surrogate pair one by one, against its comment that the
  object is correct for any valid text (`JsonExact.LoadsExactly`, `JsonExact.FaceMisread`).
- The answer to a WebSocket close frame is wrapped in a data frame (`WebSocket.CloseReplySent`).
- Any part but the last of the payload of a control frame is returned as data, so that data alone come
  back, however they are read, if and only if no control frame has more than one byte
  (`WebSocket.Connection.Read`, `WebSocket.ReadMany`, `WebSocket.ShownIsData`, `WebSocket.PingReturned`).
- With a backlog that is a positive multiple of 256, the first `accept` hands out the address of
  the array as a connection (`AcceptQueue.FirstAccept`).
- A full keyboard ring cuts escape sequences (`RingSteps.KeyWhole`, `RingSteps.BareEscape`).
- Backspace stops at the top of the screen (`Terminal.StepIsTyped`, `Terminal.StuckAtTop`).
- A line that fills the line editor's buffer is not terminated, and neither is its slot in the
  history (`LineEditor.Prompt.ReadLine`, `LineEditor.Unterminated`).
- Such a line, when it is recalled, ends the call: older lines cannot be brought back
  (`LineEditor.UpsRecall`, `LineEditor.HideOlder`).
- Names of more than 31 bytes cannot be looked up in the RAM disk (`RamDisk.LongNamesLost`), and
  packing can leave a double line end (`RamDisk.UnixIsClean`, `RamDisk.LineEndLeft`).
- When the poll array moves, objects without a descriptor get a pointer that is not NULL and does not
  lead into it, so that they count as objects with one (`PollSet.Poller.Register`,
  `PollSet.AstrayOutside`, `PollSet.LoseTrack`).
- `select` polls objects for events that were asked for others, and returns objects in lists that they
  were not given in, also for events that a stream reports without being asked
  (`SelectMasks.SelectAsPromised`, `SelectMasks.ReadingLeaks`, `SelectMasks.AskNewSocket`).
- The asyncio reader of audio stops within a frame and begins with a new one
  (`FramesAsync.RestartExactly`, `FramesAsync.MonoNeedsFrames`, `FramesAsync.MonoStray`).

## Model

| member | source | states |
|---|---|---|
| `Pixels.LoadStore` | kernel/python/extmod/modframebuf.c:70-80 | in each of the seven formats, storing a pixel cell and loading any cell gives the depth-masked colour there and the old value everywhere else |
| `Pixels.CellInjective` | kernel/python/extmod/modframebuf.c:70-224 | two pixels within the stride never share a cell |
| `Pixels.CellInside` | kernel/python/extmod/modframebuf.c:281-319 | every pixel with storage lies inside the bytes that the constructor demands |
| `Pixels.CellByte` | kernel/python/extmod/modframebuf.c:70-80 | the byte index computed from x + y * stride splits into row and column parts when the stride is a whole number of bytes |
| `Layouts.StrideDecidesSharing` | kernel/python/extmod/modframebuf.c:64-65 | two visible pixels share storage if and only if the stride is below the width and there is a second row of bytes |
| `Layouts.UsableExactly` | kernel/python/extmod/modframebuf.c:70-224 | every visible pixel has its own place in a buffer if and only if the last one is inside and the rows of bytes do not overlap |
| `Layouts.DemandedIsEnough` | kernel/python/extmod/modframebuf.c:315-317 | below 2^32 bits the size demanded has room for every pixel, also with the stride as it is stored |
| `Pixels.PaintTwice` | kernel/python/extmod/modframebuf.c:258-271 | painting one region and then another in the same colour paints their union |
| `Pictures.PaintedUnique` | kernel/python/extmod/modframebuf.c:70-232 | the demand to paint a region determines the resulting buffer down to the last byte, unused bits included |
| `Pictures.RectByPixelPaints` | kernel/python/extmod/modframebuf.c:244-252 | setting the pixels of a rectangle one by one paints exactly its visible part |
| `Pictures.RectangleIsPixelwise` | kernel/python/extmod/modframebuf.c:258-271 | any buffer in which a rectangle has been painted equals the one that pixel-by-pixel setting gives |
| `FrameBuffers.FrameBuffer.Make` | kernel/python/extmod/modframebuf.c:273-330 | accepts exactly the arguments that pass the checks, with the size computed in 32 bits; in the object each visible pixel has its own place in the buffer if and only if the last pixel is inside and the rounded stride fits 16 bits or there is one row; the first is sure below 2^32 bits, and then these are exactly the objects that the other members are about |
| `FrameBuffers.FrameBuffer.ValidIsUsable` | kernel/python/extmod/modframebuf.c:60-68 | in the objects that the other members are about, every visible pixel has its own place, which is that of the stored stride |
| `FrameBuffers.FrameBuffer.MakeWide` | kernel/python/extmod/modframebuf.c:294-326 | two rows of 65535 one-bit pixels are accepted, and they overlap |
| `FrameBuffers.FrameBuffer.MakeWideRow` | kernel/python/extmod/modframebuf.c:294-326 | one row of 65535 one-bit pixels has stride 0, is stored as it should and can be drawn on |
| `FrameBuffers.FrameBuffer.MakeLarge` | kernel/python/extmod/modframebuf.c:315-317 | a picture of 2^32 bits is accepted with an empty buffer |
| `FrameBuffers.FrameBuffer.SetPixel` | kernel/python/extmod/modframebuf.c:244-246 | paints exactly one pixel, in every format |
| `FrameBuffers.FrameBuffer.GetPixel` | kernel/python/extmod/modframebuf.c:254-256 | reads the pixel of the picture, in every format |
| `FrameBuffers.FrameBuffer.SetPixelChecked` | kernel/python/extmod/modframebuf.c:248-252 | paints the pixel if it is visible and the mask is set, else changes nothing |
| `FrameBuffers.FrameBuffer.MonoHorizFillRect` | kernel/python/extmod/modframebuf.c:82-94 | the two horizontal one-bit formats: the fast fill paints exactly the rectangle |
| `FrameBuffers.FrameBuffer.MvlsbFillRect` | kernel/python/extmod/modframebuf.c:108-118 | the vertical one-bit format: the fast fill paints exactly the rectangle |
| `FrameBuffers.FrameBuffer.Rgb565FillRect` | kernel/python/extmod/modframebuf.c:130-138 | the sixteen-bit format: the fast fill paints exactly the rectangle |
| `FrameBuffers.FrameBuffer.Gs2FillRect` | kernel/python/extmod/modframebuf.c:156-162 | the two-bit format: the fast fill paints exactly the rectangle |
| `FrameBuffers.FrameBuffer.Gs4FillRow` | kernel/python/extmod/modframebuf.c:184-213 | one row of the nibble walk paints exactly its pixels, and with the final jump the pointer has moved by exactly stride / 2, for every parity of x and width, if the row is not wider than the stride |
| `FrameBuffers.FrameBuffer.Gs4FillRect` | kernel/python/extmod/modframebuf.c:184-215 | the four-bit format: the nibble walk over all rows paints exactly the rectangle |
| `FrameBuffers.FrameBuffer.Gs8FillRect` | kernel/python/extmod/modframebuf.c:226-232 | the eight-bit format: the fast fill paints exactly the rectangle |
| `FrameBuffers.FrameBuffer.FillRect` | kernel/python/extmod/modframebuf.c:258-271 | for any rectangle, clipped: exactly its visible pixels are painted, and the buffer is the one that setting them one by one gives |
| `PixelBytes.AcceptsExactly` | kernel/python/extmod/modframebuf.c:273-330 | below 2^32 bits exactly the formats 0 to 6 with sizes in range and a buffer of the bytes counted for each format are accepted |
| `PixelBytes.MakeFitting` | kernel/python/extmod/modframebuf.c:273-330 | such arguments, with a stride that fits or one row, give an object that can be drawn on, in the layout of the whole-byte stride |
| `PixelBytes.MakeAndSet` | kernel/python/extmod/modframebuf.c:64-224 | from format number to bits: after construction and one pixel set, the bits at the place of each pixel, written out for the seven format numbers, hold the colour for that pixel and what was there for all others |
| `PixelBytes.MakeAndFill` | kernel/python/extmod/modframebuf.c:82-271 | the same for a filled rectangle, clipped |
| `PixelBytes.MakeAndGet` | kernel/python/extmod/modframebuf.c:70-256 | a pixel is read from the bits at that place |
| `PixelBytes.FirstBit` | kernel/python/extmod/modframebuf.c:64-80 | the first pixel of a row is 0x80 in format 3 and 0x01 in format 4 |
| `Lines.WithinHalfPixel` | kernel/python/extmod/modframebuf.c:419-477 | the i-th plotted point is i pixels from the start along the major axis and within half a pixel of the true segment along the minor axis |
| `Lines.HalvesGoOn` | kernel/python/extmod/modframebuf.c:463-473 | where the segment passes exactly between two pixels the one further on is plotted |
| `Lines.NeighboursTouch` | kernel/python/extmod/modframebuf.c:419-477 | successive plotted points are different and differ by at most one pixel on each axis |
| `Lines.WalkEndsExactly` | kernel/python/extmod/modframebuf.c:419-477 | the walk starts and ends exactly on the two end points, for all end points |
| `Lines.ErrorBound` | kernel/python/extmod/modframebuf.c:463-473 | the error term before the inner loop is bounded below, so that the inner loop stops on the nearest offset |
| `Lines.Walk` | kernel/python/extmod/modframebuf.c:454-473 | the loop with its error term ends and plots exactly the points of the rounded segment before the last |
| `Lines.Line` | kernel/python/extmod/modframebuf.c:419-477 | any line, clipped: exactly the visible points of the rounded segment are painted |
| `Ellipses.AlwaysClosed` | kernel/python/extmod/modframebuf.c:533-575 | after any number of iterations error, stopping and change terms equal their closed forms in x, y and the squared radii |
| `Ellipses.BestIsNearest` | kernel/python/extmod/modframebuf.c:541-551 | what the error term calls the best pixel of a row is the one nearest to the ellipse, the outer of two equally near, and no other is |
| `Ellipses.StandsOnPoint` | kernel/python/extmod/modframebuf.c:541-551 | while a pass runs it stands on the one pixel of its row that the error term calls best |
| `Ellipses.StopsAfterLast` | kernel/python/extmod/modframebuf.c:541-551 | when a pass stops no such pixel is left |
| `Ellipses.EndsUnlessBothZero` | kernel/python/extmod/modframebuf.c:533-575 | the loop ends if and only if the radii are not both zero |
| `Ellipses.ZeroRadiiNeverEnd` | kernel/python/extmod/modframebuf.c:533-575 | with both radii zero the first loop runs forever without any variable of its test changing |
| `WordRanges.SmallRadiiAgree` | kernel/python/extmod/modframebuf.c:533-575 | for radii up to 700, not both zero, the loop goes through the same states in 32 bits, to its end |
| `WordRanges.LargeRadiiNeverEnd` | kernel/python/extmod/modframebuf.c:533-551 | with both radii 65536 it never ends in 32 bits |
| `Ellipses.PointsInBox` | kernel/python/extmod/modframebuf.c:533-575 | the points drawn satisfy 0 <= x <= a and 0 <= y <= b |
| `Ellipses.AxesDrawn` | kernel/python/extmod/modframebuf.c:533-575 | the ends of both axes are among the points |
| `Ellipses.FirstPass` | kernel/python/extmod/modframebuf.c:533-551 | the first loop ends and has drawn exactly the best pixel of every row down to where the slope turns |
| `Ellipses.SecondPass` | kernel/python/extmod/modframebuf.c:553-575 | the second loop ends and has drawn exactly the best pixel of every column of the other part |
| `Ellipses.DrawEllipsePoints` | kernel/python/extmod/modframebuf.c:501-521 | the dots or spans of the quadrants in the mask are painted, and nothing else |
| `Ellipses.Ellipse` | kernel/python/extmod/modframebuf.c:523-577 | for radii that are not both zero exactly the mirror images of the points of both passes in the quadrants asked for are painted, clipped; when filled, the pixels from them to the vertical axis too |
| `Ellipses.ShapeIsSymmetric` | kernel/python/extmod/modframebuf.c:495-531 | with quadrants 0x0f, the default, the painted region is symmetric in both axes |
| `Ellipses.ShapeHasPoints` | kernel/python/extmod/modframebuf.c:495-531 | it has every point and its three mirror images |
| `Ellipses.ShapeIsOutline` | kernel/python/extmod/modframebuf.c:516-520 | when it is not filled it has these and nothing else |
| `Ellipses.ShapeIsFilled` | kernel/python/extmod/modframebuf.c:502-515 | when it is filled a row has exactly the pixels between a point of the row and its mirror image |
| `Ellipses.QuarterOfShape` | kernel/python/extmod/modframebuf.c:495-521 | one bit alone gives exactly the quarter of the whole: 0x01 right and above, 0x02 left and above, 0x04 left and below, 0x08 right and below |
| `Ellipses.QuadrantsJoin` | kernel/python/extmod/modframebuf.c:495-521 | any bits give the union of the quarters of each |
| `Crossings.NodeNear` | kernel/python/extmod/modframebuf.c:638 | a node is within 17/32 of a pixel of the point where its edge crosses the row, unless the sum before the last division is negative; then it is between 15/32 and one and a half pixels to the right |
| `Crossings.NodeMoves` | kernel/python/extmod/modframebuf.c:638 | moving an edge by whole columns moves its node with it if and only if that sum keeps its sign or needs no rounding |
| `Crossings.FillsInside` | kernel/python/extmod/modframebuf.c:640-681 | on every row, a pixel that no edge passes through is filled if and only if an odd number of edges cross the row left of it, or it is a lower end, or the stray node of an edge left of it, whose sum was negative |
| `Crossings.FillsRightly` | kernel/python/extmod/modframebuf.c:638-681 | the fill is right about such a pixel, inside or a lower end, if and only if no stray node stands on it that is neither |
| `Crossings.FilledRightly` | kernel/python/extmod/modframebuf.c:606-681 | of the whole polygon, a pixel that no edge passes through is filled if and only if it is inside, a lower end or a stray node of its row |
| `Crossings.NoStrays` | kernel/python/extmod/modframebuf.c:638 | on a row without negative sums there are no stray nodes |
| `Crossings.PositiveNotLeft` | kernel/python/extmod/modframebuf.c:638 | a polygon without negative columns has no negative sums |
| `Crossings.RowMoves` | kernel/python/extmod/modframebuf.c:622-681 | a polygon whose nodes keep their place is filled alike wherever it is moved along the row |
| `Crossings.SquareCut` | kernel/python/extmod/modframebuf.c:638 | the filled square (-5,-5), (-5,5), (5,5), (5,-5) lacks the pixel (-5,0); moved five columns to the right it has its left column |
| `Crossings.SquareTooWide` | kernel/python/extmod/modframebuf.c:638 | a filled square that ends at column -5 has a pixel in column -4, outside it |
| `WordRanges.NodeFits` | kernel/python/extmod/modframebuf.c:638 | in 32 bits the node of an edge is the one of `Polygons` if the one product fits, for columns below 2^25 |
| `WordRanges.WordIs` | kernel/python/extmod/modframebuf.c:638 | the 32-bit value of a number lies in range and differs from it by a multiple of 2^32 |
| `WordRanges.ModerateNodes` | kernel/python/extmod/modframebuf.c:622-646 | polygons with coordinates up to 4095 have all their nodes right |
| `WordRanges.LongEdgeWraps` | kernel/python/extmod/modframebuf.c:638 | an edge of 16384 columns and 8193 rows has node 0 in row 8192 instead of 16382 |
| `Polygons.NodesPairUp` | kernel/python/extmod/modframebuf.c:622-656 | on every scan line the edges, a closed cycle, give an even number of nodes that fits the array |
| `Polygons.NodeParity` | kernel/python/extmod/modframebuf.c:629-656 | scanning back from a vertex, the parity of the nodes tells on which side of the scan line one is |
| `Polygons.SwapRemovesInversion` | kernel/python/extmod/modframebuf.c:662-675 | a swap in the sort removes exactly one inversion, which is why stepping back ends |
| `Polygons.SortNodes` | kernel/python/extmod/modframebuf.c:662-675 | the step-back sort ends with the same nodes in order and touches nothing else |
| `Polygons.PairsAreEvenOdd` | kernel/python/extmod/modframebuf.c:677-680 | between the sorted pairs lie exactly the columns inside by the even-odd rule |
| `Polygons.ScanRow` | kernel/python/extmod/modframebuf.c:622-656 | the edge loop of a row collects exactly the crossing nodes and paints exactly the lower ends of edges |
| `Polygons.FillRow` | kernel/python/extmod/modframebuf.c:622-680 | a scan line is painted by the even-odd rule plus the lower ends of edges |
| `Polygons.FillPoly` | kernel/python/extmod/modframebuf.c:606-681 | the filled polygon is painted row by row, exactly, clipped |
| `Polygons.Poly` | kernel/python/extmod/modframebuf.c:588-696 | nothing, the filled polygon or the closed outline, exactly |
| `Polygons.OutlineIs` | kernel/python/extmod/modframebuf.c:588-696 | for a list of points the outline consists of the lines between neighbours and the one from the first point to the last |
| `Polygons.PointsDrawn` | kernel/python/extmod/modframebuf.c:683-696 | every point of the list is on the outline |
| `Polygons.OddIgnored` | kernel/python/extmod/modframebuf.c:595-596 | an odd last coordinate is ignored |
| `Copies.SourceAhead` | kernel/python/extmod/modframebuf.c:756-797 | in the chosen scan direction the source of the next pixel has not been overwritten yet |
| `Copies.Scroll` | kernel/python/extmod/modframebuf.c:756-797 | scrolling in place by any steps equals a simultaneous copy: a pixel whose source is in range gets the old value there, all others keep theirs |
| `Copies.ScrollShows` | kernel/python/extmod/modframebuf.c:756-797 | what stands at each place after it: the old pixel a step away if that is in the picture, else what was there |
| `Copies.BlitPixel` | kernel/python/extmod/modframebuf.c:727-750 | one pixel is copied through the palette unless it has the key colour |
| `Copies.Blit` | kernel/python/extmod/modframebuf.c:701-753 | exactly the visible pixels under source pixels not of the key colour change, each to its mapped colour at the depth of the destination |
| `Copies.BlitShows` | kernel/python/extmod/modframebuf.c:740-748 | what stands at each place after it: colour c of the source pixel there, or column c of row 0 of the palette, unless it is the key |
| `JsonText.PlainIffNoPair` | kernel/python/extmod/modjson.c:223-233 | decoding the escapes of a string one at a time gives the text meant if and only if it has no surrogate pair |
| `JsonText.ReadingsAgree` | kernel/python/extmod/modjson.c:223-233 | for values without surrogate pairs both readings denote the same value |
| `JsonCorrect.HexNumberIs` | kernel/python/extmod/modjson.c:223-233 | the byte arithmetic on four hex digits, of either case, gives the code unit |
| `JsonCorrect.StringIsRead` | kernel/python/extmod/modjson.c:201-246 | the string loop turns the text of any string into the bytes it spells (`JsonStrings` says which) and stops behind its closing quote |
| `JsonCorrect.NumberIsRead` | kernel/python/extmod/modjson.c:247-278 | the number loop takes exactly the number and gives its integer value, or the literal for the float parser |
| `JsonCorrect.SkipSeparators` | kernel/python/extmod/modjson.c:169-176 | white space, commas and colons leave the state of the loop alone |
| `JsonCorrect.RunValue` | kernel/python/extmod/modjson.c:160-338 | inside any container the loop takes the text of a value, of any nesting, to the state with that value added: stack, top and pending key are restored |
| `JsonCorrect.RunElements` | kernel/python/extmod/modjson.c:160-338 | the elements of an array are appended to its list, in order |
| `JsonCorrect.RunMembers` | kernel/python/extmod/modjson.c:312-326 | the members of an object are stored in its dict under their keys, the one pending key being free again after each |
| `JsonCorrect.LoadsEveryDocument` | kernel/python/extmod/modjson.c:112-119 | every JSON text of any nesting and spacing is accepted, and the result is its value with each escape read by itself |
| `JsonCorrect.LoadsPairlessDocument` | kernel/python/extmod/modjson.c:112-119 | for texts without surrogate pairs the result is the value that the standard gives them |
| `JsonExact.ReadingsAgreeExactly` | kernel/python/extmod/modjson.c:112-119 | for a text in whose objects no key comes twice, decoding each escape by itself gives the value of the text if and only if there is no surrogate pair in it |
| `JsonExact.LoadsExactly` | kernel/python/extmod/modjson.c:112-119 | such a text is loaded to the value that the standard gives it if and only if there is no surrogate pair in it |
| `JsonExact.FaceMisread` | kernel/python/extmod/modjson.c:224-237 | the text of a list with one string that is a surrogate pair is loaded to another value |
| `JsonExact.FaceOverwritten` | kernel/python/extmod/modjson.c:224-237 | with a key twice in an object, a pair in the value that gives way does no harm |
| `JsonCorrect.RepresentsOne` | kernel/python/extmod/modjson.c:305-337 | an object in the store of containers represents at most one value |
| `JsonLoader.Loader.Next` | kernel/python/extmod/modjson.c:137-146 | the stream moves on by one byte, and stays at the end mark at its end |
| `JsonLoader.Loader.String` | kernel/python/extmod/modjson.c:201-246 | the loop over the string is the string scan of the machine, failing exactly at the end of the stream |
| `JsonLoader.Loader.Number` | kernel/python/extmod/modjson.c:247-278 | the loop over the number is the number scan of the machine |
| `JsonLoader.Loader.AcceptObject` | kernel/python/extmod/modjson.c:305-337 | the end of the loop body is one step of the machine on stack, top, key and containers |
| `JsonLoader.Loader.Load` | kernel/python/extmod/modjson.c:148-357 | the loop over mutable stack and containers computes exactly the function of the machine, errors included |
| `JsonLoader.LoadDocument` | kernel/python/extmod/modjson.c:148-357 | loading the text of a document gives a result that represents its value with each escape read by itself; if no key comes twice, it represents the value of the standard exactly when there is no surrogate pair |
| `JsonStrings.Utf8Encodes` | kernel/python/extmod/modjson.c:224-237 | the bytes stored for a code point decode to it by the bit patterns of UTF-8 |
| `JsonStrings.EncodedOnce` | kernel/python/extmod/modjson.c:224-237 | a code point has one encoding |
| `JsonStrings.LoadsSpelled` | kernel/python/extmod/modjson.c:201-246 | a string whose characters are written in any way, as bytes, with one of the eight letters behind a backslash or with four hexadecimal digits, is loaded as the string of these code points |
| `JsonStrings.LoadSpelled` | kernel/python/extmod/modjson.c:148-357 | so does the imperative parser |
| `JsonStrings.PairPoints` | kernel/python/extmod/modjson.c:224-237 | two escapes that the standard reads as one code point above U+FFFF are read as the two surrogates |
| `JsonStrings.LoadsInteger` | kernel/python/extmod/modjson.c:247-278 | every integer in decimal digits is loaded as itself |
| `JsonStrings.LoadsNames` | kernel/python/extmod/modjson.c:177-200 | null, true and false are loaded as the three constants |
| `JsonStrings.StrayFails` | kernel/python/extmod/modjson.c:168-303 | a character that begins no value, closes nothing and separates nothing is an error |
| `JsonStrings.TrailFails` | kernel/python/extmod/modjson.c:339-351 | anything but white space behind the value is an error |
| `JsonStrings.NumberStops` | kernel/python/extmod/modjson.c:247-278 | a number ends before the first character that is no digit, sign, point or e |
| `WebSocket.Socket.Read` | kernel/python/extmod/modwebsocket.c:80 | the underlying stream gives its next bytes in any portion that the environment chooses |
| `WebSocket.Connection.constructor` | kernel/python/extmod/modwebsocket.c:60-74 | a new object stands before the first of the frames on the wire |
| `WebSocket.Connection.FillHeader` | kernel/python/extmod/modwebsocket.c:79-90 | missing header bytes are taken up in any portions without losing the place |
| `WebSocket.Connection.OnHeader` | kernel/python/extmod/modwebsocket.c:93-144 | a complete header leads to the optional part or the payload of the right frame |
| `WebSocket.Connection.OnOptions` | kernel/python/extmod/modwebsocket.c:146-163 | extended length and masking key are told apart by their number of bytes alone, and both are taken right |
| `WebSocket.Connection.Unmask` | kernel/python/extmod/modwebsocket.c:180-183 | the in-place exclusive-or uses the key bytes of the place in the payload, although the position has only eight bits |
| `WebSocket.Connection.TakePayload` | kernel/python/extmod/modwebsocket.c:165-185 | what is put into the caller's buffer is the unmasked payload from the place reached |
| `WebSocket.Connection.EndFrame` | kernel/python/extmod/modwebsocket.c:186-206 | a finished frame leaves the object before the next, and a close frame is answered |
| `WebSocket.Connection.Read` | kernel/python/extmod/modwebsocket.c:76-216 | for every portioning, every size of at least one and every FIN frame below 64 KiB: the call goes on through the frames in order, returns the next portion of data, or of a control frame (`WebSocket.ControlBit`) unless it is the last one, which is dropped; close frames are answered and end the call, would-block and end are reported only for cause, and a stream that brings bytes is made use of |
| `WebSocket.ControlBit` | kernel/python/extmod/modwebsocket.h:4-8 | control frames are those whose opcode has bit 0x08, close frames those of opcode 8 |
| `WebSocket.FrameIs` | kernel/python/extmod/modwebsocket.c:93-163 | the bytes of a frame as RFC 6455 draws them: length in seven bits, or in two bytes behind 126, mask flag, key, payload masked byte by byte |
| `WebSocket.Connection.AllFinished` | kernel/python/extmod/modwebsocket.c:76-216 | between calls all frames are finished once the stream is used up |
| `WebSocket.Connection.OnPart` | kernel/python/extmod/modwebsocket.c:163-213 | a portion of any payload is returned, and a last one finishes the frame: then that of a control frame is not returned |
| `WebSocket.PingReturned` | kernel/python/extmod/modwebsocket.c:76-216 | from the wire of a masked ping with two bytes, read byte by byte, the first byte comes back |
| `WebSocket.Connection.Drained` | kernel/python/extmod/modwebsocket.c:76-216 | when the stream is used up no payload byte is outstanding |
| `WebSocket.DataStep` | kernel/python/extmod/modwebsocket.c:76-216 | what a call returns is the next data, or bytes of the control frame in which it stops; the latter never if control frames have at most one byte |
| `WebSocket.ReadMany` | kernel/python/extmod/modwebsocket.c:76-216 | over any run of reads the data come back in order and in full, among bytes of control frames; data alone if control frames have at most one byte |
| `WebSocket.ShownStep` | kernel/python/extmod/modwebsocket.c:76-216 | a call for one byte returns the next byte of the data, and of control frames all but the last byte |
| `WebSocket.ShownIsData` | kernel/python/extmod/modwebsocket.c:76-216 | what comes back byte by byte is the data if and only if no control frame has more than one byte |
| `WebSocket.ByteByByte` | kernel/python/extmod/modwebsocket.c:76-216 | such a run, over the wire of any frames, comes to the end, returns exactly that and has sent the answers to the close frames |
| `WebSocket.ReadData` | kernel/python/extmod/modwebsocket.c:76-216 | text and binary frames, first byte 0x81 or 0x82, masked or not, come back whole, and nothing is sent |
| `WebSocket.ReadHi` | kernel/python/extmod/modwebsocket.c:76-216 | from the wire 81 02 68 69 comes 68 69 |
| `WebSocket.ReadClose` | kernel/python/extmod/modwebsocket.c:186-206 | a close frame, first byte 0x88, masked or not and with any payload, ends the call that finishes it, and 81 02 88 00 has been sent |
| `WebSocket.Connection.Write` | kernel/python/extmod/modwebsocket.c:218-254 | a write sends a header of the right length code and the bytes |
| `WebSocket.SentIsFrame` | kernel/python/extmod/modwebsocket.c:218-254 | what is sent is one readable frame whose payload is the bytes written, of a control opcode just when the object has one |
| `WebSocket.WritesReadBack` | kernel/python/extmod/modwebsocket.c:218-254 | any run of writes is a wire whose data are the bytes written, so a reader gets them back, unless bit 0x08 of the object's opcode is set |
| `WebSocket.Exchange` | kernel/python/extmod/modwebsocket.c:76-254 | what one object writes, in any number of writes, another reads: the same bytes in order |
| `WebSocket.CloseReplySent` | kernel/python/extmod/modwebsocket.c:194-199 | the answer to a close frame goes out inside a frame of the object's own opcode: on a fresh object it is a text frame of two bytes, a close frame only if that opcode is close |
| `WebSocket.UnmaskMasked` | kernel/python/extmod/modwebsocket.c:180-183 | masking twice with one key at one place gives the payload back |
| `AcceptQueue.Listener.Listen` | kernel/python/extmod/modlwip.c:909-963 | the queue is empty if and only if the backlog is below 256 or not a multiple of 256, else the address of the array waits in its one slot; the room is what was asked for exactly for 1 to 255 |
| `AcceptQueue.FirstAccept` | kernel/python/extmod/modlwip.c:909-1030 | the first accept that no connection has preceded gives nothing, or the address of the array, exactly for positive multiples of 256 |
| `AcceptQueue.Listener.OnAccept` | kernel/python/extmod/modlwip.c:473-507 | an arrival is queued at the end if there is room, and refused otherwise |
| `AcceptQueue.Listener.OnError` | kernel/python/extmod/modlwip.c:428-461 | a dead connection is removed from anywhere in the queue, full or wrapped, and the others keep their order |
| `AcceptQueue.Listener.Visit` | kernel/python/extmod/modlwip.c:441-454 | one turn of the pass over the slots shifts exactly the part behind the gap |
| `AcceptQueue.Listener.Accept` | kernel/python/extmod/modlwip.c:995-1027 | the first connection leaves the queue, or there was none |
| `AcceptQueue.BooksBalance` | kernel/python/extmod/modlwip.c:428-507 | after every run of arrivals, failures and accepts nobody is lost or handed out twice, the order of arrival is kept, and the room is not exceeded |
| `AcceptQueue.FirstInFirstOut` | kernel/python/extmod/modlwip.c:473-507 | without failures the connections handed out, then those waiting, are exactly those accepted, in order |
| `AcceptQueue.Serve` | kernel/python/extmod/modlwip.c:473-507 | a listening socket keeps exactly these books over any run |
| `HeapQueue.Heap.SiftDown` | kernel/python/extmod/modheapq.c:41-54 | an item rises to its place: heap order below the start, the same items, nothing moved outside the subtree |
| `HeapQueue.Heap.SiftUp` | kernel/python/extmod/modheapq.c:56-71 | an item sinks to a leaf and rises again: heap order, the same items, nothing moved outside the subtree |
| `HeapQueue.UpStep` | kernel/python/extmod/modheapq.c:43-51 | one step up leaves at most the pair above the item out of order |
| `HeapQueue.DownStep` | kernel/python/extmod/modheapq.c:60-68 | one step down along the smaller child leaves at most the pairs around the item out of order |
| `HeapQueue.Heap.Push` | kernel/python/extmod/modheapq.c:73-78 | the heap has one more item and is in heap order |
| `HeapQueue.Heap.Pop` | kernel/python/extmod/modheapq.c:81-94 | a least item leaves the heap, which is in heap order again; an empty heap gives the error |
| `HeapQueue.Heap.Heapify` | kernel/python/extmod/modheapq.c:97-103 | any list becomes a heap of the same items |
| `HeapQueue.RootIsLeast` | kernel/python/extmod/modheapq.c:86 | the first item of a heap is a least one |
| `HeapQueue.Drain` | kernel/python/extmod/modheapq.c:81-103 | heapify and popping to the end sort any list |
| `Rings.Ring.Push` | kernel/python/extmod/machine_i2s.c:144-155 | a byte is added at the end if fewer than size - 1 are held |
| `Rings.Ring.Pop` | kernel/python/extmod/machine_i2s.c:157-166 | the oldest byte is taken out if there is one |
| `Rings.Ring.AvailableData` | kernel/python/extmod/machine_i2s.c:176-178 | the number of bytes held, also when the tail has wrapped |
| `Rings.Ring.AvailableSpace` | kernel/python/extmod/machine_i2s.c:180-182 | the number of bytes that can still be pushed |
| `Rings.Ring.CopyIn` | kernel/python/extmod/machine_i2s.c:291-320 | for asyncio as many leading bytes as fit are copied, in order |
| `Rings.Transfer.Interrupt` | kernel/python/extmod/machine_i2s.c:322-340 | with nobody else at the ring, the next block goes in whole or not at all, and the transfer ends exactly with the buffer |
| `Frames.TakeFrame` | kernel/python/extmod/machine_i2s.c:269-281 | one frame of eight bytes leaves the ring and its sample bytes stand in their places, each from the byte the frame map says |
| `Frames.PickedAt` | kernel/python/extmod/machine_i2s.c:269-281 | byte i of the frame becomes the byte of the sample that entry i of the map names |
| `Frames.Receiver.Interrupt` | kernel/python/extmod/machine_i2s.c:251-288 | with nobody else at the ring and for any frame map, whole blocks of frames become samples in the buffer, in order and nowhere else, or nothing happens; the transfer ends exactly with the buffer |
| `FramesAsync.FillAsync` | kernel/python/extmod/machine_i2s.c:185-248 | the asyncio reader, with nobody else at the ring and for any frame map: it takes as many bytes as there are up to a full buffer, leaves the samples of the whole frames and what has come of the next one, and returns the number of bytes stored |
| `FramesAsync.SamplesJoin` | kernel/python/extmod/machine_i2s.c:185-248 | calls that end with whole frames deliver the samples of the stream |
| `FramesAsync.RestartExactly` | kernel/python/extmod/machine_i2s.c:203-248 | after a call that stopped within a frame the next one goes on with the samples, whatever they are, if and only if the frame map goes on from there as from its beginning |
| `FramesAsync.TwoCalls` | kernel/python/extmod/machine_i2s.c:185-248 | two calls of the reader, the first with a part of a frame, return what these results speak of |
| `FramesAsync.MonoNeedsFrames` | kernel/python/extmod/machine_i2s.c:203-248 | for a map that uses two bytes of eight this is so only at the end of a frame |
| `FramesAsync.MonoStray` | kernel/python/extmod/machine_i2s.c:185-248 | with one stray byte at the first call, 16-bit mono returns the bytes 3 and 4 where 2 and 3 are due |
| `Rings.HeldPush` | kernel/python/extmod/machine_i2s.c:147-149 | storing at the tail does not show until the tail moves, and then adds that byte |
| `RingSteps.StepRefinesQueue` | kernel/python/extmod/machine_i2s.c:128-166 | every single load or store by either side is, from outside, nothing or one whole queue operation; a call fails only while the queue is full or empty |
| `RingSteps.InOrder` | kernel/python/extmod/machine_i2s.c:128-166 | in every interleaving the bytes popped are a prefix of those pushed, and at most size - 1 are in between |
| `RingSteps.CallsEnd` | kernel/python/extmod/machine_i2s.c:144-166 | a push or pop returns after at most four steps of its own side |
| `RingSteps.SpaceIsRoom` | kernel/python/extmod/machine_i2s.c:178-184 | the space computed is the room at the moment when head is read |
| `RingSteps.SpaceLasts` | kernel/python/extmod/machine_i2s.c:322-334 | after the space has been measured, so many pushes cannot fail, however the consumer moves in between |
| `RingSteps.DataLasts` | kernel/python/extmod/machine_i2s.c:251-266 | after the data have been measured, so many pops cannot fail, however the producer moves in between |
| `RingSteps.BlockGoesIn` | kernel/python/extmod/machine_i2s.c:322-340 | the block copy under interleaving: a block for which there was room goes in whole and in order, whatever the consumer does between any two accesses |
| `RingSteps.BlockComesOut` | kernel/python/extmod/machine_i2s.c:251-288 | bytes that were there come out, all of them and in order, whatever the producer does between any two accesses |
| `RingSteps.PutsIs` | kernel/drivers/keyboard.c:101-113 | the handler's bytes are accepted as far as there is room, and the rest is dropped |
| `RingSteps.KeysInOrder` | kernel/drivers/keyboard.c:101-126 | with the handler between any two accesses of keyboard_getc the reader gets the accepted bytes in order, and at most 255 wait |
| `RingSteps.KeyWhole` | kernel/drivers/keyboard.c:109-113 | a key of several bytes arrives whole if and only if there is room for all of them; with room for one, an Up key leaves a bare escape |
| `RingSteps.BareEscape` | kernel/drivers/keyboard.c:109-113 | after 254 letters that nobody has read, an Up key leaves a bare escape |
| `CounterMode.NthValue` | kernel/python/extmod/modcryptolib.c:154-158 | the counter after k increments is the initial one plus k, modulo 2^128, most significant byte first |
| `CounterMode.ValueOfParts` | kernel/python/extmod/modcryptolib.c:154-158 | a block is read as a number to the base 256, the first byte being the most significant |
| `CounterMode.CountersDiffer` | kernel/python/extmod/modcryptolib.c:154-158 | two counter blocks are equal if and only if their distance is a multiple of 2^128 |
| `CounterMode.Aes.Increment` | kernel/python/extmod/modcryptolib.c:154-158 | the loop with its early end increments the 16 bytes with carry |
| `CounterMode.Aes.Process` | kernel/python/extmod/modcryptolib.c:263-331 | the output is the input under the key stream from the place reached, also in place; the errors come exactly for a short output or a change of direction, and then nothing changes |
| `CounterMode.ChunksAreWhole` | kernel/python/extmod/modcryptolib.c:145-166 | processing a message in any chunks equals processing it whole |
| `CounterMode.StreamInverts` | kernel/python/extmod/modcryptolib.c:160 | the same key stream takes the message back out |
| `CounterMode.SecondObjectInverts` | kernel/python/extmod/modcryptolib.c:145-166 | a second object with the same key and counter inverts the first, whatever chunks each is given |
| `CounterMode.ProcessChunks` | kernel/python/extmod/modcryptolib.c:263-331 | a run of calls on one object gives the whole message under the key stream |
| `CounterMode.ProcessWhole` | kernel/python/extmod/modcryptolib.c:145-166 | byte i of the output is the input combined with byte i mod 16 of the encrypted block whose value is the initial counter plus i / 16, modulo 2^128 |
| `Base64.RoundTrip` | kernel/python/extmod/modbinascii.c:68-168 | decoding the encoding of any bytes gives them back, with or without newline |
| `Base64.ForeignIgnored` | kernel/python/extmod/modbinascii.c:87-90 | bytes outside the alphabet other than the pad character can be put in anywhere without effect |
| `Base64.GroupsInvert` | kernel/python/extmod/modbinascii.c:130-147 | the shifts of the decoder undo those of the encoder on every group |
| `Base64.BytesGrow` | kernel/python/extmod/modbinascii.c:92-98 | a sextet more completes the byte that it shares with the one before, and only then |
| `Base64.BitsAtHand` | kernel/python/extmod/modbinascii.c:92-98 | eight times the output plus the bits at hand is six times the sextets; the bits at hand are 0, 6, 4, 2 in turn |
| `Base64.Gather` | kernel/python/extmod/modbinascii.c:91-98 | the 32-bit accumulator gives every byte although its upper bits wrap away |
| `Base64.A2b` | kernel/python/extmod/modbinascii.c:68-107 | the decoder stops at the first padding that closes a group, never writes beyond its allocation, and rejects exactly the texts that end within a group without padding |
| `Base64.B2a` | kernel/python/extmod/modbinascii.c:123-168 | the two passes in one buffer give the base64 text, then the newline |
| `Base64.SextetOfAscii` | kernel/python/extmod/modbinascii.c:52-66 | the alphabet tables of both directions are inverse |
| `Base64.AlphabetIs` | kernel/python/extmod/modbinascii.c:144-164 | the 64 values are written as the letters of the alphabet of RFC 4648 |
| `Base64.Vectors` | kernel/python/extmod/modbinascii.c:109-168 | "f", "fo", "foo" and "foob" are encoded as the test vectors of RFC 4648 say |
| `Terminal.Console.PutChar` | kernel/drivers/vga.c:81-120 | every character keeps the screen equal to the last 25 rows of a text without end, and the cursor on the screen |
| `Terminal.CursorGoes` | kernel/drivers/vga.c:81-120 | by character codes: 10 takes the cursor to the start of the next row, 13 to the start of its row, 9 to the next multiple of four, 8 one back but not above the screen, any other one on; the screen follows |
| `Terminal.CellsBecome` | kernel/drivers/vga.c:15-17 | a character stands in the low byte of its cell and the colour in the high one, 8 leaves a space, new rows are blank, and no other cell changes |
| `Terminal.Console.Scroll` | kernel/drivers/vga.c:66-79 | the rows move up by one and the last becomes blank in the current colour |
| `Terminal.Console.Clear` | kernel/drivers/vga.c:42-52 | the screen is blank and the cursor at its start |
| `Terminal.ClearedIs` | kernel/drivers/vga.c:42-52 | 25 rows of 80 spaces in the colour |
| `Terminal.Console.Write` | kernel/drivers/vga.c:122-125 | a string leaves the screen that its characters leave one after the other |
| `Terminal.Console.WriteCooked` | kernel/python/nexus_hal.c:49-56 | cooked output leaves the same screen as raw output of the same string |
| `Terminal.CookedLooksRaw` | kernel/python/nexus_hal.c:43-56 | the return before a newline changes nothing that is left afterwards |
| `Terminal.StepIsTyped` | kernel/drivers/vga.c:96-104 | one character does what it would do to the unbounded text if and only if it is not a backspace at the first cell of a screen with text above |
| `Terminal.StuckAtTop` | kernel/drivers/vga.c:96-104 | 25 newlines and 1920 backspaces bring the cursor to such a cell, where a backspace stays and the text would go on |
| `Terminal.ScreenIsLastRows` | kernel/drivers/vga.c:81-125 | a string without such a backspace leaves the screen equal to the last rows of the unbounded text |
| `LineEditor.Prompt.ReadLine` | kernel/python/nexus_hal.c:95-150 | a line ended by a key is returned with NUL and remembered; one that fills the buffer has no NUL, and the ring stays sound if and only if the last byte of the buffer was 0 |
| `LineEditor.Prompt.Remember` | kernel/python/nexus_hal.c:143-149 | the ring holds the last ten non-empty lines after a line more |
| `LineEditor.Prompt.Press` | kernel/python/nexus_hal.c:102-139 | every key changes line, escape state, recall pointer and screen as it does those of the abstract editor |
| `LineEditor.EraseUndoes` | kernel/python/nexus_hal.c:110-116 | a character from space to tilde is appended, and 8 or 127 takes it back |
| `LineEditor.EnterEnds` | kernel/python/nexus_hal.c:106-109 | 10 and 13 end the line with what is in it |
| `LineEditor.OtherIgnored` | kernel/python/nexus_hal.c:103-116 | all other keys outside escape sequences change nothing |
| `LineEditor.UpsRecall` | kernel/python/nexus_hal.c:100-127 | k Up keys bring back the k-th most recent line, for every remembered line and whatever follows, if and only if the k - 1 more recent lines leave room in the buffer |
| `LineEditor.UpBytes` | kernel/python/nexus_hal.c:104-121 | an Up key is the bytes 1b 5b 41 |
| `LineEditor.DownBytes` | kernel/python/nexus_hal.c:104-131 | a Down key is the bytes 1b 5b 42 |
| `LineEditor.DownsRecall` | kernel/python/nexus_hal.c:100-137 | k Up keys and fewer Down keys, m, bring back the line k - m from the end, if and only if the last k lines leave room in the buffer |
| `LineEditor.UpsEnter` | kernel/python/nexus_hal.c:100-127 | k Up keys and Enter return the k-th most recent line if the last k lines leave room in the buffer; else the first that does not stays in it |
| `LineEditor.EnterRecalled` | kernel/python/nexus_hal.c:95-150 | the program returns a recalled line if and only if the last k lines leave room in the buffer |
| `LineEditor.HideOlder` | kernel/python/nexus_hal.c:95-150 | after a line of 255 bytes the line before it cannot be brought back |
| `LineEditor.Unterminated` | kernel/python/nexus_hal.c:140-149 | a line of 255 bytes in a buffer whose last byte is not 0 goes to the history without an end |
| `Echo.ScreenShowsLine` | kernel/python/nexus_hal.c:95-140 | after any keys the screen shows the prompt and then exactly the text as it is now, over any wrapping and scrolling, with the cursor behind it |
| `RamDisk.MakeInitrd` | tools/mkinitrd.py:5-33 | the image of the files (`RamDisk.ImageBytes`), or the error of the first file that cannot be packed (`RamDisk.PackableMeans`) |
| `RamDisk.ImageBytes` | tools/mkinitrd.py:8-33 | the image byte by byte: the number of files, for each file 32 bytes with at most 31 of its base name, in order, and zeros, and its size, then the contents |
| `RamDisk.PackableMeans` | tools/mkinitrd.py:15-28 | a file can be packed if and only if the base name is ASCII, the path has no NUL and the contents are below four gigabytes; which error it is otherwise |
| `RamDisk.BasenameIs` | tools/mkinitrd.py:16 | the base name is the longest end of the path without a slash |
| `RamDisk.UnixReplaces` | tools/mkinitrd.py:21 | each CR LF becomes LF and all other bytes are kept, in order |
| `RamDisk.TidiedIsNormal` | tools/mkinitrd.py:21-23 | what is packed is the contents with that done and an LF at the end, and nothing else |
| `RamDisk.UnixIsClean` | tools/mkinitrd.py:21 | one pass over the line ends leaves no double line end if and only if no carriage return stood before one |
| `RamDisk.LineEndLeft` | tools/mkinitrd.py:21 | CR CR LF becomes CR LF |
| `RamDisk.LoadPacked` | tools/mkinitrd.py:8 | a 32-bit number read back from the image is the one packed |
| `RamDisk.Strncmp` | kernel/libc.c:73-81 | zero exactly when the strings agree as far as they are compared, else the difference of the first bytes that differ |
| `RamDisk.DirectoryIs` | kernel/initrd.c:18-23 | in a loaded image every header says the name and size of its file, and the contents stand behind those before |
| `RamDisk.Reader.Init` | kernel/initrd.c:9-12 | the number of files is that of the image at the address |
| `RamDisk.Reader.GetFile` | kernel/initrd.c:14-38 | the address and size of the contents of the first file with that name, else NULL |
| `RamDisk.StoreAndFetch` | kernel/initrd.c:14-38 | packing, loading at any address but 0 and looking up a name of at most 31 bytes gives the contents, with their line ends made into one byte, of the first file whose path ends in that name behind a slash or nothing; of longer base names the first 31 characters count; nothing if there is no such file |
| `RamDisk.StoreOne` | kernel/initrd.c:14-38 | a file with a short name and one-byte line ends is found under its path, unchanged |
| `RamDisk.LongNamesLost` | tools/mkinitrd.py:17 | a name of more than 31 bytes finds nothing, not even the file that bears it |
| `Memory.MemMove` | kernel/libc.c:17-28 | overlapping ranges are copied as if all at once |
| `Memory.MovedBack` | kernel/libc.c:17-28 | moving a block away and back restores it, whatever it overlapped |
| `PollSet.FreeSlot` | kernel/python/extmod/modselect.c:190-198 | with fewer slots used than touched one is free, as the sources assert |
| `PollSet.SlotsApart` | kernel/python/extmod/modselect.c:149-205 | two objects never share a slot |
| `PollSet.WithFdSound` | kernel/python/extmod/modselect.c:149-205 | taking a free slot for a new object keeps every object on its own slot |
| `PollSet.RemovedSound` | kernel/python/extmod/modselect.c:503-521 | removing an object frees its slot and no other |
| `PollSet.GrownSound` | kernel/python/extmod/modselect.c:154-186 | growing in place, or moving when all objects have descriptors, keeps every object on its own slot |
| `PollSet.MovedAstray` | kernel/python/extmod/modselect.c:162-178 | a move gives every object without a descriptor the distance of the move for a pointer |
| `PollSet.AstrayOutside` | kernel/python/extmod/modselect.c:162-178 | such a pointer does not lead into the new array unless there was no array before |
| `PollSet.Poller.AddFd` | kernel/python/extmod/modselect.c:149-205 | the slot handed out was free, in the array as it is after growing |
| `PollSet.Poller.Register` | kernel/python/extmod/modselect.c:489-500 | descriptors and events are those asked for, and the set stays sound if and only if the array does not move while an object without a descriptor is in it; if it does, every such object has the distance of the move for a pointer |
| `PollSet.Poller.Modify` | kernel/python/extmod/modselect.c:526-534 | the events of an object that is there are replaced, another gives the error |
| `PollSet.Poller.Unregister` | kernel/python/extmod/modselect.c:503-521 | the object is gone and all others keep descriptor and events |
| `PollSet.Poller.AllAreFds` | kernel/python/extmod/modselect.c:207-209 | the comparison of two counters tells whether every object has a descriptor |
| `PollSet.Serve` | kernel/python/extmod/modselect.c:489-534 | over any run of register, modify and unregister for objects with descriptors, every object keeps its own slot with its descriptor and its events, however often the array grows or moves |
| `PollSet.LoseTrack` | kernel/python/extmod/modselect.c:154-186 | one object without a descriptor and five with one: the array moves for the fifth, and the first object has a pointer that is not NULL |
| `SelectMasks.AddObjsAsMeant` | kernel/python/extmod/modselect.c:231-289 | a list is merged as meant if and only if no object has events that a later one in the list does not get anyway |
| `SelectMasks.ReadingLeaks` | kernel/python/extmod/modselect.c:440-446 | after select([a], [a, b], []) the object b is polled for reading as well |
| `SelectMasks.AddObjs` | kernel/python/extmod/modselect.c:231-289 | the loop carries the events of objects already there on to the next ones |
| `SelectMasks.MergedAsMeant` | kernel/python/extmod/modselect.c:440-445 | the poll set of a whole call is as meant if and only if, in the second and third list, no object of an earlier list comes before one that is not in it |
| `SelectMasks.LwipTruthful` | kernel/python/extmod/modlwip.c:1468-1521 | the sockets of lwIP answer what they are asked, and besides report hanging up, errors and invalidity without being asked, and nothing else |
| `SelectMasks.LwipAnswers` | kernel/python/extmod/modlwip.c:1468-1521 | event by event which states of a socket give it, and which only when asked |
| `SelectMasks.SelectAsPromised` | kernel/python/extmod/modselect.c:416-474 | select returns of each list the objects that are ready, for all streams that report no more than certain events unasked, if and only if the lists are in that order and every object is in the lists of those events |
| `SelectMasks.DiscreetAsPromised` | kernel/python/extmod/modselect.c:416-474 | for streams that answer just what they are asked, if and only if the lists are in that order |
| `SelectMasks.SocketsAsPromised` | kernel/python/extmod/modselect.c:416-474 | for streams that report trouble unasked, if and only if besides all objects of the first two lists are in the third |
| `SelectMasks.PollOnce` | kernel/python/extmod/modselect.c:292-340 | every object is asked once, in any order, its answer is stored as it is, and those ready are counted for each list; an error is raised exactly if some stream has one |
| `SelectMasks.PollUntil` | kernel/python/extmod/modselect.c:395-411 | the first poll in which a stream fails or is ready, or after which the time is over, ends the waiting; the counters, never set back, are those of that poll |
| `SelectMasks.Select` | kernel/python/extmod/modselect.c:416-474 | the three lists have each object that answered once at the last poll, as many as were counted; if the condition holds they are those promised |
| `SelectMasks.AskNewSocket` | kernel/python/extmod/modsocket.c:509-514 | select([s], [], []) with a new socket returns s in the second and third list, and not in the first |

## Left out

- Integer widths: sizes, coordinates, error terms and addresses are mathematical integers, except
  where the width is the point: the 16-bit stride and the 32-bit size of a frame buffer, the nodes of
  polygons and the terms of ellipses in `WordRanges` (signed overflow is taken to wrap), the 8-bit
  backlog and mask position, the 32-bit accumulator and counters of bytes, 32-bit sizes in the RAM
  disk.
- `FrameBuffers.FrameBuffer.FillRect` and all other drawing is proved for objects whose rows do not
  overlap and whose buffer has the size without wrap-around: not for pictures of 2^32 bits or more in
  a smaller buffer.
- Frame buffer: `text`, `fill`, `hline`, `vline`, `rect` and the argument parsing, which add only
  calls of the functions modelled; the font is not part of this model.
- `Copies.Blit`: the source and the palette do not share memory with the destination, because then
  the order of the pixels matters; palette columns beyond the palette's width are excluded.
- `Polygons.Poly`: vertices are within the range of C's `int`, as in the arrays of the callers. How the
  filled region lies on the plane is said by `Crossings` for the pixels that no edge passes through.
- `Ellipses.Ellipse`: radii both zero are excluded, because the loop does not end.
- JSON: the build in which strings are UTF-8 (MICROPY_PY_BUILTINS_STR_UNICODE) is modelled; without
  it, as at the lowest configuration level, an escape is stored as one byte. Left out are `dump`, the
  float parser (a number with fraction or exponent is kept as its literal), the encoding check of new
  strings, inputs that are not JSON texts (the machine covers them, but little is proved of them beyond
  `JsonStrings.StrayFails` and `JsonStrings.TrailFails`), stream errors, memory errors.
- `WebSocket.Connection.Read`: 64-bit lengths and frames without the FIN bit, which the sources assert
  away.
- `WebSocket.Connection.Write`: the switch to blocking mode and write errors of the stream; sizes
  are below 65536, as the sources assert.
- `AcceptQueue.Listener.Accept`: the wait for a connection, which is a repetition of the call after
  other callbacks; the set-up of the accepted socket. All else in the TCP glue.
- `HeapQueue.Heap`: comparison is that of integer keys, so comparisons that raise or are not
  transitive are not covered.
- `Rings.Transfer.Interrupt`: one party at a time; that the other side may move between the accesses
  is the subject of `RingSteps.BlockGoesIn` and `RingSteps.BlockComesOut`.
- `Frames.Receiver.Interrupt`, `FramesAsync.FillAsync`: one party at a time, too. The frame map is a
  parameter, because it belongs to the port file, which is not part of this model. Blocking readers
  and writers, which repeat a call; sound hardware.
- `RingSteps`: memory is sequentially consistent, as the comment in the sources demands; the
  translation of scan codes is a table.
- `CounterMode.Aes`: the block cipher itself, the ECB and CBC modes, the mbedTLS build, and partly
  overlapping input and output buffers.
- `Base64`: argument parsing; hex and CRC functions.
- `Terminal`: port output to the cursor registers and the serial line.
- `LineEditor.Prompt.ReadLine`: for buffers of 256 bytes, the only size used; waiting for a key is
  the end of the keys given.
- `RamDisk`: file errors while packing; writing the image to a file in pieces; an address space of
  32 bits, which an image of four gigabytes would leave.
- `PollSet.Poller`: the `poll` call itself, hash table internals, the error for negative
  descriptors, which leaves an empty entry in the map, and more than 65535 slots.
- `SelectMasks.SelectAsPromised`: streams are truthful: they report what they are asked for if it is the
  case, and never what is not; an invalid stream says so whenever it is polled.
- `SelectMasks.Select`: masks are sets of their bits; the clock, of which each poll says whether the time
  is over; stream lookup and its errors; the build with descriptors, for which `select` does not exist.
- Hardware set-up, scheduling, memory allocation, networking, file systems and the bindings of
  libraries that are not in the repository.
