# Verified model of the graphics stack and three small algorithms

The firmware draws on a monochrome OLED and on colour TFT displays through
vendored Adafruit libraries, stamps its records with NTPClient, guards its
humidity sensor with a CRC, and lists wireless networks with WiFiManager. This
project models the parts of those libraries that replace a simple mathematical
object by an incremental one, and proves that they agree with it. It verifies
with `dafny verify dfyconfig.toml`.

## How it is laid out

| modules | what they model |
|---|---|
| `Line`, `Circle`, `FilledCircle`, `Triangle` | the rasterisers of Adafruit_GFX |
| `Bytes`, `Raster` | packed one-bit frame buffers as pictures; rotation, clipping, and the loop of drawPixel that fast lines must agree with |
| `Ssd1306`, `Canvas1` | the two packed layouts, each a class over its byte array |
| `OledFill`, `Bitmap` | the rasterisers on the OLED, end to end, and the two-colour bitmap blit |
| `Panel`, `Dma`, `SpiTft` | the colour display behind its address window, the descriptor chains, and the clipped operations with their fill cache |
| `Text` | the classic font: layout, drawing and measuring |
| `Crc8`, `CivilDate`, `ScanList` | the sensor's CRC-8, the date printer, the list of networks |
| `CInts` | C integer types as ranges, truncating division, and a few facts about products |

Two decisions hold throughout. C arithmetic is done in `int`, as integer
promotion does it, and every assignment to an `int16`, `uint8` and so on must be
shown to fit: a verified method never wraps, except that the canvas's getPixel
may, where `Narrow` is written. A rasteriser of the base class has
no effect but its calls of writePixel or of a fast line, so the model returns
those calls, in order; `OledFill` then carries them out on a buffer.

## The main results

* A rim and a disc are defined without accumulators: with m = max(a, b), a point
  (a, b) is in the disc when a^2 + b^2 - m < r^2 or it is the centre, and on the
  rim when also a^2 + b^2 + m >= r^2. drawCircle writes exactly the rim;
  fillCircle touches each pixel of the disc exactly once, and fillRoundRect each
  pixel of its rectangle. The helper's two guards see to that, and so an inverse
  fill of either shape on the cleared OLED leaves the bytes a white one leaves.
* Bresenham's loop equals a closed form, symmetric in the endpoints, at most half
  a pixel from the ideal line, and complete within that distance.
* fillTriangle draws the same lines for all six orders of its vertices, each from
  edge to edge with the crossing truncated toward the edge's upper end; it covers
  every lattice point of the ideal triangle, and nothing a pixel or more from it
  along the row.
* On both frame buffers the fast lines leave, in every rotation, the very bytes
  that the loop of drawPixel leaves; which bit of which byte a point is, and what
  each colour does to it, is stated in numbers.
* The colour display's bitmap and rectangle fills show what clipping pixel by
  pixel would, through the fill cache and a descriptor chain that the controller
  follows by its links alone, past stale entries it must not reach.
* crc8 is polynomial division of the message with its first byte complemented;
  exactly the multiples of its generator go unnoticed, hence no burst of up to
  eight bits does.
* A printed date reads back as the instant it was printed from.
* Printing shows the font's bits block by block in cells that do not overlap, stays
  in the box that measuring returned, and both move the cursor alike.

## What the proofs found

* writePixels alternates between the first two descriptors, but a screen fewer
  than three pixels across is given only one. `SpiTft.PixelsListed` says of any
  initialised display exactly which calls stay in the list, and
  `SpiTft.NarrowScreen` is one that does not.
* getFormattedDate reads the clock twice when it is called without an argument,
  once for the date and once for the time. `CivilDate.TornMidnight` says exactly
  when the text is then right; `CivilDate.TornAtMidnight` is a pair of readings
  for which it is a day behind.
* getTextBounds starts its maxima at -1, so its box always encloses the text but
  may stretch too far right or down. `Text.TightWhenReached` says exactly when it
  does not; a start at non-negative coordinates is enough, and
  `Text.OffScreenBox` is a text whose box is too large.
* The comments beside drawRGBBitmap's first tests are swapped (bottom is marked
  "top" and top "bottom"); the model follows the code.

## Model

| member | source | states |
|---|---|---|
| Line.WriteLine | lib/Adafruit_GFX_Library/Adafruit_GFX.cpp:132-173 | the error accumulator visits exactly the closed form: for every major step the nearest minor coordinate, a tie on one fixed side; all locals fit 16 bits |
| Line.WriteCourse | lib/Adafruit_GFX_Library/Adafruit_GFX.cpp:151-172 | the loop alone, after both swaps: `err` and the minor coordinate are those of the accumulator walk at every step |
| Line.WalkError | lib/Adafruit_GFX_Library/Adafruit_GFX.cpp:154-171 | `err` stays in 0..dx-1 and equals dx/2 - i*dy + k*dx |
| Line.WalkMeaning | lib/Adafruit_GFX_Library/Adafruit_GFX.cpp:154-171 | after i steps and k minor steps, k is the nearest whole number and abs(k*dx - i*dy) <= dx/2 |
| Line.LineReversed | lib/Adafruit_GFX_Library/Adafruit_GFX.cpp:132-149 | exchanging the endpoints writes the same pixels in the same order |
| Line.LineShape | lib/Adafruit_GFX_Library/Adafruit_GFX.cpp:132-173 | max(abs dx, abs dy) + 1 pixels, from one endpoint to the other, all distinct, each 8-connected to the next |
| Line.LineStarts | lib/Adafruit_GFX_Library/Adafruit_GFX.cpp:134-149 | it runs from the left endpoint, or from the top one when it is higher than wide |
| Line.LineNearest | lib/Adafruit_GFX_Library/Adafruit_GFX.cpp:151-172 | no pixel is more than half a pixel from the ideal line |
| Line.LineComplete | lib/Adafruit_GFX_Library/Adafruit_GFX.cpp:151-172 | conversely, every lattice point of the major range strictly within half a pixel of the ideal line is written |
| Line.DrawLine | lib/Adafruit_GFX_Library/Adafruit_GFX.cpp:330-347 | the horizontal and vertical shortcuts write the same pixels as the general line |
| Line.DrawFastVLine | lib/Adafruit_GFX_Library/Adafruit_GFX.cpp:265-270 | a vertical run is the line between its ends |
| Line.DrawFastHLine | lib/Adafruit_GFX_Library/Adafruit_GFX.cpp:282-287 | a horizontal run is the line between its ends |
| Circle.ArcInvariant | lib/Adafruit_GFX_Library/Adafruit_GFX.cpp:374-383 | f = (x+1)^2 + y^2 - y - r^2 after every turn, and the band y is in |
| Circle.VisitedOnRing | lib/Adafruit_GFX_Library/Adafruit_GFX.cpp:374-391 | each octant point visited, the overshooting last one included, is on the rim: within max(a,b) of r^2 |
| Circle.RingVisited | lib/Adafruit_GFX_Library/Adafruit_GFX.cpp:374-391 | each rim point of the octant is visited before the loop ends |
| Circle.ArcIsRing | lib/Adafruit_GFX_Library/Adafruit_GFX.cpp:374-391 | up to reflection in the diagonal the visited points are the rim, no more and no fewer |
| Circle.AccumulatorRange | lib/Adafruit_GFX_Library/Adafruit_GFX.cpp:362-383 | bounds of x, y and f at every turn |
| Circle.Turn | lib/Adafruit_GFX_Library/Adafruit_GFX.cpp:375-382 | one turn with 16-bit f, ddF_x and ddF_y never wraps for r up to 16384, and is a step of the arc |
| Circle.DrawCircle | lib/Adafruit_GFX_Library/Adafruit_GFX.cpp:357-394 | the set of pixels written is the rim of radius r about the centre, an accumulator-free definition |
| FilledCircle.ColumnsOnce | lib/Adafruit_GFX_Library/Adafruit_GFX.cpp:485-510 | the two guarded writes give each column 1..r exactly one half-height, the disc's |
| FilledCircle.FillCircleHelper | lib/Adafruit_GFX_Library/Adafruit_GFX.cpp:471-511 | how often each pixel is touched: once in the selected half discs pulled delta apart, never elsewhere; whatever the offset one line for each of the r columns on a selected side, each within reach of the centre; all lines cross the centre row when the offset is not negative |
| FilledCircle.WriteTurn | lib/Adafruit_GFX_Library/Adafruit_GFX.cpp:494-508 | the guarded lines of one turn are exactly the columns that turn adds |
| FilledCircle.HelperLines | lib/Adafruit_GFX_Library/Adafruit_GFX.cpp:485-510 | one line a column even where the lines are empty, and none leaves the reach of the radius |
| FilledCircle.FillCircle | lib/Adafruit_GFX_Library/Adafruit_GFX.cpp:452-458 | every pixel of the disc is touched exactly once, no other pixel, by exactly one line a column x0-r..x0+r |
| FilledCircle.FillRect | lib/Adafruit_GFX_Library/Adafruit_GFX.cpp:300-308 | every pixel of the rectangle once, by one vertical line of its height in each of its columns |
| FilledCircle.FillRoundRect | lib/Adafruit_GFX_Library/Adafruit_GFX.cpp:574-586 | with the radius asked for where twice it fits both sides, and otherwise the largest that does: body and corners touch every pixel of the rounded rectangle exactly once and no other; one line for each column of the rectangle and none elsewhere, every line inside the rectangle |
| FilledCircle.LargestRadius | lib/Adafruit_GFX_Library/Adafruit_GFX.cpp:576-578 | there is one largest radius, and it is less than one that does not fit |
| FilledCircle.RoundRectMeaning | lib/Adafruit_GFX_Library/Adafruit_GFX.cpp:581-584 | the rounded rectangle by coordinates: a and b the distances from the columns and rows at least k from the edges, a^2 + b^2 < k^2 + max(a,b) or both 0 |
| FilledCircle.CornerLeftOut | lib/Adafruit_GFX_Library/Adafruit_GFX.cpp:581-584 | the corner pixel is painted only with radius 0 |
| FilledCircle.RoundRectParts | lib/Adafruit_GFX_Library/Adafruit_GFX.cpp:581-584 | the three parts are disjoint and together are the points within r of the inner rectangle |
| FilledCircle.RoundRectColumns | lib/Adafruit_GFX_Library/Adafruit_GFX.cpp:581-584 | the columns of the three parts are those of the rectangle, each once |
| FilledCircle.OutlineAndFill | lib/Adafruit_GFX_Library/Adafruit_GFX.cpp:357-394 | outline within fill, and the top and bottom pixel of every filled column is an outline pixel |
| FilledCircle.DiscEndsOnRing | lib/Adafruit_GFX_Library/Adafruit_GFX.cpp:475-510 | where a column of the disc ends there is a rim pixel |
| FilledCircle.DiscIsRound | lib/Adafruit_GFX_Library/Adafruit_GFX.cpp:452-458 | the disc is a^2+b^2 < r^2+max(a,b) or the centre, the rim the part of it with r^2 <= a^2+b^2+max(a,b); so the disc holds all points with a^2+b^2 <= r^2 and none with a^2+b^2 >= r^2+r |
| Triangle.FillTriangle | lib/Adafruit_GFX_Library/Adafruit_GFX.cpp:619-701 | incremental `sa`/`sb`, in 32 bits, give the scanlines of the two crossings; no division by zero |
| Triangle.SortByRow | lib/Adafruit_GFX_Library/Adafruit_GFX.cpp:624-636 | three guarded swaps sort the vertices by row |
| Triangle.FlatTriangle | lib/Adafruit_GFX_Library/Adafruit_GFX.cpp:639-652 | all vertices on one row: one line over their extent |
| Triangle.UpperPart | lib/Adafruit_GFX_Library/Adafruit_GFX.cpp:664-681 | one line a row down to vertex 1, its own row included just when the bottom is flat |
| Triangle.LowerPart | lib/Adafruit_GFX_Library/Adafruit_GFX.cpp:685-699 | one line a row from there to the bottom vertex |
| Triangle.CrossingLonghand | lib/Adafruit_GFX_Library/Adafruit_GFX.cpp:674-677 | the accumulated quotient is the longhand formula of the source's comment |
| Triangle.ScanlinesShape | lib/Adafruit_GFX_Library/Adafruit_GFX.cpp:669-699 | exactly one line for each row, at least a pixel wide, inside the bounding box |
| Triangle.OrderIrrelevant | lib/Adafruit_GFX_Library/Adafruit_GFX.cpp:619-701 | all six orders of the vertices give the same lines in the same order, ties included |
| Triangle.TiesSymmetric | lib/Adafruit_GFX_Library/Adafruit_GFX.cpp:664-699 | two vertices on one row may be exchanged |
| Triangle.EdgeSide | lib/Adafruit_GFX_Library/Adafruit_GFX.cpp:669-699 | whatever is on one side of the ideal edge is on that side of the drawn column, and the column is on the edge or on the upper vertex's side of it, by less than a pixel: division truncates toward zero |
| Triangle.ColumnUnique | lib/Adafruit_GFX_Library/Adafruit_GFX.cpp:669-699 | that leaves one column a row for each edge |
| Triangle.LinesSpanned | lib/Adafruit_GFX_Library/Adafruit_GFX.cpp:669-699 | unless all vertices are on one row, each line runs from the leftmost to the rightmost of the columns of the edges that cross its row, for vertices in any order |
| Triangle.CoversTriangle | lib/Adafruit_GFX_Library/Adafruit_GFX.cpp:669-699 | every lattice point of the closed ideal triangle is on the line of its row |
| Triangle.EdgeFringe | lib/Adafruit_GFX_Library/Adafruit_GFX.cpp:669-699 | a point on the painted side of the drawn edge is beyond the ideal one by less than a pixel along its row, if at all |
| Triangle.ThirdSide | lib/Adafruit_GFX_Library/Adafruit_GFX.cpp:664-699 | a point between two edges that reaches neither end is on the inner side of the third edge |
| Triangle.PaintedFringe | lib/Adafruit_GFX_Library/Adafruit_GFX.cpp:669-699 | conversely, a painted point is in the closed ideal triangle or less than a pixel, along its row, from one of the two edges that cross it |
| Triangle.FilledTriangle | lib/Adafruit_GFX_Library/Adafruit_GFX.cpp:619-701 | for vertices in any order: one line a row from top to bottom, bounding box kept, both ends the columns in which edges crossing the row are drawn, every point of the triangle and every vertex covered, and nothing painted outside it but points less than a pixel, along their row, from an edge that crosses the row |
| Raster.SamePlace | lib/Adafruit_GFX_Library/Adafruit_GFX.cpp:1808-1820 | no two pixels share a bit of the buffer |
| Bytes.MaskIsShift | lib/Adafruit_SSD1306/Adafruit_SSD1306.cpp:625-632 | the shifts from either end of the byte are the single-bit masks of the two layouts |
| Raster.EveryBit | lib/Adafruit_SSD1306/Adafruit_SSD1306.cpp:624-634 | every bit of the buffer, padding included, is some pixel |
| Raster.PaintedUnique | lib/Adafruit_SSD1306/Adafruit_SSD1306.cpp:781-875 | two buffers that show the same drawing are equal byte for byte |
| Raster.RotateBijective | lib/Adafruit_SSD1306/Adafruit_SSD1306.cpp:610-622 | each rotation maps the caller's screen one to one onto the raw screen |
| Raster.TurnCut | lib/Adafruit_SSD1306/Adafruit_SSD1306.cpp:666-701 | rotating after clipping is clipping after rotating, for every rectangle |
| Raster.DrawRunPaints | lib/Adafruit_SSD1306/Adafruit_SSD1306.cpp:608-637 | the loop of drawPixel paints exactly the rotated run's part of the buffer |
| Raster.FastIsLoop | lib/Adafruit_SSD1306/Adafruit_SSD1306.cpp:666-779 | whatever paints exactly that part leaves the very buffer the loop leaves |
| Raster.RunReadBack | lib/Adafruit_SSD1306/Adafruit_SSD1306.cpp:888-908 | after a run, getPixel sees the colour on it where it is on the screen and the old value everywhere else |
| Raster.RunReads | lib/Adafruit_SSD1306/Adafruit_SSD1306.cpp:624-634 | by number: along the part of a run on the screen colour 0 reads back off, 1 on, 2 the opposite of before, everywhere else as before |
| Raster.PixelReads | lib/Adafruit_SSD1306/Adafruit_SSD1306.cpp:624-634 | the same for a single pixel |
| Raster.OledPlace | lib/Adafruit_SSD1306/Adafruit_SSD1306.cpp:608-637 | in rotation 1 the point (x, y) is bit x % 8 of byte WIDTH-1-y + (x/8)*WIDTH, and likewise in rotations 0, 2 and 3; drawPixel changes that bit as its colour's number says and no other, and getPixel reads it |
| Raster.CanvasPlace | lib/Adafruit_GFX_Library/Adafruit_GFX.cpp:1786-1822 | the same for the canvas: byte u/8 + v*((WIDTH+7)/8) and bit 7 - u%8 of the rotated point (u, v), written out for each rotation |
| Raster.OffScreen | lib/Adafruit_SSD1306/Adafruit_SSD1306.cpp:609-609 | off the rotated screen nothing is drawn and nothing read |
| Ssd1306.Ssd1306.DrawPixel | lib/Adafruit_SSD1306/Adafruit_SSD1306.cpp:608-637 | bounds test, rotation and the three byte operations |
| Ssd1306.Ssd1306.GetPixel | lib/Adafruit_SSD1306/Adafruit_SSD1306.cpp:888-908 | the pixel's bit where the point is on the rotated screen, false off it |
| Ssd1306.Ssd1306.DrawFastVLineInternal | lib/Adafruit_SSD1306/Adafruit_SSD1306.cpp:781-875 | exactly the in-bounds pixels of the run are set, cleared or inverted, every other bit of the buffer, padding included, is kept |
| Ssd1306.Ssd1306.DrawColumn | lib/Adafruit_SSD1306/Adafruit_SSD1306.cpp:792-872 | partial head, whole bytes, partial tail make up the clipped run; 8-bit locals lose nothing |
| Ssd1306.Ssd1306.DrawHead | lib/Adafruit_SSD1306/Adafruit_SSD1306.cpp:797-826 | the head mask, narrowed when the run ends in the same byte |
| Ssd1306.Ssd1306.DrawBody | lib/Adafruit_SSD1306/Adafruit_SSD1306.cpp:828-871 | whole bytes by store or by inversion, then the tail |
| Ssd1306.Ssd1306.DrawTail | lib/Adafruit_SSD1306/Adafruit_SSD1306.cpp:850-871 | the tail mask |
| Ssd1306.Ssd1306.DrawFastHLineInternal | lib/Adafruit_SSD1306/Adafruit_SSD1306.cpp:703-731 | exactly the in-bounds pixels of the run |
| Ssd1306.Ssd1306.DrawFastHLine | lib/Adafruit_SSD1306/Adafruit_SSD1306.cpp:666-701 | in each rotation and colour, the buffer that the loop of drawPixel over the run leaves, byte for byte |
| Ssd1306.Ssd1306.DrawFastVLine | lib/Adafruit_SSD1306/Adafruit_SSD1306.cpp:749-779 | likewise for vertical runs |
| OledFill.DrawnPixel | lib/Adafruit_SSD1306/Adafruit_SSD1306.cpp:749-779 | a pixel is painted as often as the lines of a shape touch it; padding never |
| OledFill.InverseIsWhite | lib/Adafruit_GFX_Library/Adafruit_GFX.cpp:494-508 | on a cleared display an inverse fill equals a white fill if and only if every pixel on the screen is touched an odd number of times or not at all |
| OledFill.OnceInverseIsWhite | lib/Adafruit_GFX_Library/Adafruit_GFX.cpp:494-495 | so it does for any lines that touch no pixel twice |
| OledFill.InverseTwice | lib/Adafruit_GFX_Library/Adafruit_GFX.cpp:494-495 | any shape drawn inverse twice restores the buffer |
| OledFill.DrawAll | lib/Adafruit_SSD1306/Adafruit_SSD1306.cpp:749-779 | a list of lines drawn by the fast line equals drawing it pixel by pixel |
| OledFill.FillCircle | lib/Adafruit_GFX_Library/Adafruit_GFX.cpp:452-511 | end to end, from the midpoint loop to the bytes: each pixel of the disc that is on the screen is painted once and no other bit changes |
| OledFill.FillRoundRect | lib/Adafruit_GFX_Library/Adafruit_GFX.cpp:574-586 | likewise for the rounded rectangle, with the radius asked for where it fits and otherwise the largest that does: each pixel of it on the screen is painted once and no other bit changes |
| OledFill.OnceIsFilled | lib/Adafruit_GFX_Library/Adafruit_GFX.cpp:494-508 | lines that touch exactly a shape's points, each once, leave the shape filled in the buffer |
| OledFill.FilledSeen | lib/Adafruit_SSD1306/Adafruit_SSD1306.cpp:608-637 | a filled shape as getPixel sees it: inside it colour 0 is off, 1 is on, 2 is the opposite of before; outside nothing changes |
| OledFill.InverseFill | lib/Adafruit_GFX_Library/Adafruit_GFX.cpp:494-495 | on a cleared display fillCircle and fillRoundRect leave the same bytes inverse as white |
| Canvas1.GFXcanvas1.DrawPixel | lib/Adafruit_GFX_Library/Adafruit_GFX.cpp:1786-1822 | bounds test, rotation and the masked byte |
| Canvas1.GFXcanvas1.GetPixel | lib/Adafruit_GFX_Library/Adafruit_GFX.cpp:1833-1852 | rotation first and bounds afterwards answer as the screen test would, for all 16-bit coordinates: far off the canvas the rotation wraps, but not back onto it |
| Canvas1.GFXcanvas1.GetRawPixel | lib/Adafruit_GFX_Library/Adafruit_GFX.cpp:1865-1879 | the pixel's bit inside the canvas, false outside |
| Canvas1.GFXcanvas1.DrawFastVLine | lib/Adafruit_GFX_Library/Adafruit_GFX.cpp:1903-1948 | for negative, zero and off-canvas lengths and all rotations, the buffer that drawPixel over the intended run leaves |
| Canvas1.GFXcanvas1.DrawFastHLine | lib/Adafruit_GFX_Library/Adafruit_GFX.cpp:1959-2003 | likewise for horizontal runs |
| Canvas1.Clip | lib/Adafruit_GFX_Library/Adafruit_GFX.cpp:1906-1926 | what is left of a run of either sign is exactly its part on the canvas |
| Canvas1.GFXcanvas1.RawVLine | lib/Adafruit_GFX_Library/Adafruit_GFX.cpp:1928-1947 | the rotated vertical run is painted, and nothing else |
| Canvas1.GFXcanvas1.RawHLine | lib/Adafruit_GFX_Library/Adafruit_GFX.cpp:1983-2002 | the rotated horizontal run is painted, and nothing else |
| Canvas1.GFXcanvas1.DrawFastRawVLine | lib/Adafruit_GFX_Library/Adafruit_GFX.cpp:2014-2042 | exactly the pixels of the raw vertical run |
| Canvas1.GFXcanvas1.DrawFastRawHLine | lib/Adafruit_GFX_Library/Adafruit_GFX.cpp:2053-2108 | exactly the pixels of the raw horizontal run; no padding bit and no neighbour |
| Canvas1.GFXcanvas1.DrawRest | lib/Adafruit_GFX_Library/Adafruit_GFX.cpp:2083-2107 | the memset of whole bytes and the partial last byte |
| Canvas1.BitMask | lib/Adafruit_GFX_Library/Adafruit_GFX.cpp:2064-2072 | the mask built bit by bit holds a run of bits and counts them |
| Bitmap.DrawBitmap | lib/Adafruit_GFX_Library/Adafruit_GFX.cpp:817-834 | on a canvas in any rotation, every pixel of the bitmap that is on the screen is set or cleared by its bit, nothing else changes |
| Bitmap.NextBit | lib/Adafruit_GFX_Library/Adafruit_GFX.cpp:826-829 | the shifted byte's top bit is the directly indexed bit, and the read is inside the array |
| Bitmap.BlitRoundTrip | lib/Adafruit_GFX_Library/Adafruit_GFX.cpp:817-834 | a canvas buffer drawn at (0,0) in colours 1 and 0 reproduces every pixel |
| SpiTft.SpiTft.constructor | lib/Adafruit_GFX_Library/Adafruit_SPITFT.cpp:660-677 | the buffer is two scanlines of the longer side, rounded up to two pixels, and the descriptor list just enough for a full screen of them; the cache starts true |
| SpiTft.SpiTft.FillCache | lib/Adafruit_GFX_Library/Adafruit_SPITFT.cpp:1226-1242 | after either branch the first lastFillLen entries hold the byte-swapped lastFillColor, and enough of them |
| SpiTft.SpiTft.FillPairs | lib/Adafruit_GFX_Library/Adafruit_SPITFT.cpp:1232-1239 | two pixels at a time, exactly the claimed stretch |
| SpiTft.SpiTft.Describe | lib/Adafruit_GFX_Library/Adafruit_SPITFT.cpp:1244-1253 | each descriptor loop fills the list with the run cut into pieces, linked up to its last entry, whatever the entries after it hold |
| SpiTft.SpiTft.Unlink | lib/Adafruit_GFX_Library/Adafruit_SPITFT.cpp:1253 | the write that stops the controller: the chain ends at the last piece described |
| SpiTft.DescribedSends | lib/Adafruit_GFX_Library/Adafruit_SPITFT.cpp:1205-1264 | started on the first entry and told nothing else, the controller sends the run and stops, when the list begins with the pieces and is unlinked at the last of them, with stale entries behind it |
| SpiTft.SpiTft.WriteColor | lib/Adafruit_GFX_Library/Adafruit_SPITFT.cpp:1141-1279 | the panel takes exactly len pixels of the colour, by either DMA way or the short loop; the chain is followed by its links alone and stays in the list; the cache stays true |
| SpiTft.SpiTft.WritePixels | lib/Adafruit_GFX_Library/Adafruit_SPITFT.cpp:1017-1090 | the panel takes exactly the given pixels in either byte order, copied through alternating half buffers or sent from where they are, and the cache no longer claims anything; the requires is that the descriptors used are in the list |
| SpiTft.SpiTft.WriteChunk | lib/Adafruit_GFX_Library/Adafruit_SPITFT.cpp:1034-1055 | one swapped chunk arrives as it was, and the controller stops after it although other entries follow |
| SpiTft.SpiTft.WriteInPlace | lib/Adafruit_GFX_Library/Adafruit_SPITFT.cpp:1059-1087 | big-endian pixels arrive in order, by a chain over the caller's memory that reads only inside it |
| SpiTft.SpiTft.ScreenListed | lib/Adafruit_GFX_Library/Adafruit_SPITFT.cpp:1062-1066 | up to a full screen, no run of pieces at least as long as the fill buffer runs past the end of the list |
| SpiTft.ChunksInList | lib/Adafruit_GFX_Library/Adafruit_SPITFT.cpp:1026-1058 | for a list of the size initSPI computes: the entries len pixels alternate between are in it if and only if the screen is three or more pixels across or the call is for no more than a scanline |
| SpiTft.SpiTft.PixelsListed | lib/Adafruit_GFX_Library/Adafruit_SPITFT.cpp:1017-1058 | of any initialised display, what WritePixels requires in the processor's byte order, as an if-and-only-if on its width, height and the length |
| SpiTft.SpiTft.NarrowScreen | lib/Adafruit_GFX_Library/Adafruit_SPITFT.cpp:1026-1058 | a call that leaves the list: 101 pixels on a screen of 2 by 100, which has one descriptor |
| SpiTft.TwoDescriptors | lib/Adafruit_GFX_Library/Adafruit_SPITFT.cpp:660-677 | the allocated list has a second descriptor if and only if both sides of the screen are at least 3 |
| SpiTft.ScreenHolds | lib/Adafruit_GFX_Library/Adafruit_SPITFT.cpp:675-677 | a window on the screen never has more pixels than the list covers |
| SpiTft.SpiTft.ClipRect | lib/Adafruit_GFX_Library/Adafruit_SPITFT.cpp:1431-1469 | the nested tests leave exactly the part of the rectangle on the screen, negative sizes included, and pass just when there is one |
| SpiTft.SpiTft.FillRect | lib/Adafruit_GFX_Library/Adafruit_SPITFT.cpp:1617-1657 | exactly the rectangle's pixels on the screen take the colour, all others keep theirs |
| SpiTft.SpiTft.FillPreclipped | lib/Adafruit_GFX_Library/Adafruit_SPITFT.cpp:1563-1568 | window and fill together paint the window, once round |
| SpiTft.FillWindow | lib/Adafruit_GFX_Library/Adafruit_SPITFT.h:172-185 | one colour pushed w*h times fills a w by h window and nothing else |
| SpiTft.SpiTft.WritePixel | lib/Adafruit_GFX_Library/Adafruit_SPITFT.cpp:945-950 | one pixel, if it is on the screen |
| SpiTft.SpiTft.ClipBitmap | lib/Adafruit_GFX_Library/Adafruit_SPITFT.cpp:1774-1796 | window and source offsets agree with each other and with the clipped bitmap |
| SpiTft.SpiTft.PushBitmapRows | lib/Adafruit_GFX_Library/Adafruit_SPITFT.cpp:1798-1804 | offset and stride send exactly the visible part of each row, reading only inside the array |
| SpiTft.SpiTft.DrawRGBBitmap | lib/Adafruit_GFX_Library/Adafruit_SPITFT.cpp:1771-1806 | the screen then shows the clipped bitmap, for every position |
| SpiTft.SpiTft.DrawRGBBitmapByPixel | lib/Adafruit_GFX_Library/Adafruit_GFX.cpp:1023-1032 | the base class's pixel loop ends in the same predicate, so both show the same screen |
| SpiTft.ShownPixel | lib/Adafruit_GFX_Library/Adafruit_GFX.cpp:1023-1032 | on the screen pixel (u, v) shows bitmap[(v-y)*w + (u-x)], elsewhere what was there |
| SpiTft.ClippedBitmap | lib/Adafruit_GFX_Library/Adafruit_SPITFT.cpp:1781-1806 | visible rows pushed through the clipped window are the clipped bitmap |
| Panel.PushRows | lib/Adafruit_GFX_Library/Adafruit_SPITFT.h:172-185 | equal rows pushed from the top of a window land row by row |
| Panel.BusRoundTrip | lib/Adafruit_GFX_Library/Adafruit_SPITFT.cpp:1221-1223 | high byte first on the bus, and back |
| Panel.BusByteAt | lib/Adafruit_GFX_Library/Adafruit_SPITFT.cpp:1146 | byte i of a run of colours on the bus is the high half of colour i/2, or for odd i the low half |
| Dma.ChainIsList | lib/Adafruit_GFX_Library/Adafruit_SPITFT.cpp:1205-1215 | following the links through a list sends the entries up to the unlinked one and no more, whatever comes after it |
| Dma.PiecesSend | lib/Adafruit_GFX_Library/Adafruit_SPITFT.cpp:1244-1253 | a run cut into pieces is sent whole, from the swapped buffer or from one byte over and over |
| Dma.NextPiecesSend | lib/Adafruit_GFX_Library/Adafruit_SPITFT.cpp:1066-1076 | pieces that move on through the memory send all of it, in order |
| Dma.PiecesCount | lib/Adafruit_GFX_Library/Adafruit_SPITFT.cpp:1244-1253 | how many pieces there are, and that the loop links every one to the next |
| Dma.CeilMono | lib/Adafruit_GFX_Library/Adafruit_SPITFT.cpp:1202-1206 | fewer pixels or larger pieces never need more descriptors |
| Dma.CeilDivIs | lib/Adafruit_GFX_Library/Adafruit_SPITFT.cpp:1244 | the rounded-up quotient counts the pieces |
| Text.Gfx.DrawChar | lib/Adafruit_GFX_Library/Adafruit_GFX.cpp:1134-1173 | on the screen, with k = c, or (c + 1) % 256 when cp437 is off and c >= 176: block (i, j) of the cell takes the text colour if bit j of font[5*k + i] is set, otherwise the background unless it is the same colour, and so does the sixth column; off the screen nothing is drawn |
| Text.CharShown | lib/Adafruit_GFX_Library/Adafruit_GFX.cpp:1150-1172 | what a glyph's fills leave at every pixel of its cell |
| Text.BeyondCell | lib/Adafruit_GFX_Library/Adafruit_GFX.cpp:1150-1172 | beyond the cell nothing is touched |
| Text.Gfx.InkShows | lib/Adafruit_GFX_Library/Adafruit_GFX.cpp:1242-1256 | what writing a character shows: nothing for codes 10 and 13 or off the screen, and otherwise that character at the cursor, or at the start of the next line when wrapping asks it |
| Text.CharInCell | lib/Adafruit_GFX_Library/Adafruit_GFX.cpp:1150-1172 | all of them are inside the character's cell |
| Text.Gfx.SetTextSize | lib/Adafruit_GFX_Library/Adafruit_GFX.cpp:1305-1308 | magnification is never zero |
| Text.Gfx.Write | lib/Adafruit_GFX_Library/Adafruit_GFX.cpp:1242-1256 | moves the cursor by the layout step and draws the character there |
| Text.Gfx.CharBounds | lib/Adafruit_GFX_Library/Adafruit_GFX.cpp:1409-1432 | moves its cursor by the same layout step and stretches the box over the same cell |
| Text.Gfx.Print | lib/Adafruit_GFX_Library/Adafruit_GFX.cpp:1242-1256 | over a string: each character's ink at the cursor those before it leave, in order; everything drawn is in the string's cells and the cursor is where the layout puts it |
| Text.LayoutStep | lib/Adafruit_GFX_Library/Adafruit_GFX.cpp:1245-1255 | code 10 starts a line one cell lower, 13 does nothing, any other code takes a cell, which ends within the width when one cell fits it |
| Text.NoOverlap | lib/Adafruit_GFX_Library/Adafruit_GFX.cpp:1242-1256 | no two characters' cells of a string overlap, and they follow in reading order |
| Text.Gfx.BoundAll | lib/Adafruit_GFX_Library/Adafruit_GFX.cpp:1453-1464 | over a string, measuring ends at that same cursor, and the box is the stretch over the same cells |
| Text.Gfx.GetTextBounds | lib/Adafruit_GFX_Library/Adafruit_GFX.cpp:1448-1474 | the box encloses every cell, and is the smallest that does if and only if some cell reaches to -1 or beyond on each axis |
| Text.BoxMeaning | lib/Adafruit_GFX_Library/Adafruit_GFX.cpp:1453-1473 | the inside-out starting box ends enclosing all cells, and stays inside out when there are none |
| Text.TightWhenReached | lib/Adafruit_GFX_Library/Adafruit_GFX.cpp:1453-1473 | the maxima start at -1: exactly when the box is tight all the same |
| Text.StartReaches | lib/Adafruit_GFX_Library/Adafruit_GFX.cpp:1453-1473 | a start at non-negative coordinates is enough for a tight box |
| Text.OffScreenBox | lib/Adafruit_GFX_Library/Adafruit_GFX.cpp:1453-1473 | a box that is not tight: one character at (-100, -100) is measured as 100 by 100 |
| Text.CellsBeyond | lib/Adafruit_GFX_Library/Adafruit_GFX.cpp:1411-1431 | a layout that starts at non-negative coordinates stays there |
| Text.Gfx.PrintMeasured | lib/Adafruit_GFX_Library/Adafruit_GFX.cpp:1448-1474 | every pixel printed at a cursor lies in the box measured for that cursor |
| Crc8.Crc8 | lib/Adafruit_SHT31_Library/Adafruit_SHT31.cpp:146-169 | the nested byte loop computes the remainder defined on bit sequences, and 0x92 for the documented [0xBE, 0xEF] |
| Crc8.PresetComplements | lib/Adafruit_SHT31_Library/Adafruit_SHT31.cpp:156-157 | the preset: the CRC of a non-empty message is the remainder, from an empty register, of the message with its first eight bits complemented |
| Crc8.DocumentedVector | lib/Adafruit_SHT31_Library/Adafruit_SHT31.cpp:150-157 | the source's own example |
| Crc8.FeedByte | lib/Adafruit_SHT31_Library/Adafruit_SHT31.cpp:162-166 | one byte XORed in and shifted out is eight steps of bitwise division |
| Crc8.FeedLinear | lib/Adafruit_SHT31_Library/Adafruit_SHT31.cpp:161-167 | the register is linear over XOR |
| Crc8.CrcDifference | lib/Adafruit_SHT31_Library/Adafruit_SHT31.cpp:146-169 | equal-length messages: the XOR of the CRCs depends only on the XOR of the messages |
| Crc8.Division | lib/Adafruit_SHT31_Library/Adafruit_SHT31.cpp:146-169 | the register is the remainder: message = quotient * generator + register, over GF(2) |
| Crc8.NoRemainder | lib/Adafruit_SHT31_Library/Adafruit_SHT31.cpp:146-169 | no remainder is left exactly by multiples of the generator |
| Crc8.UndetectedIffMultiple | lib/Adafruit_SHT31_Library/Adafruit_SHT31.cpp:146-169 | a change is missed if and only if it is a multiple of the generator polynomial |
| Crc8.BurstDetected | lib/Adafruit_SHT31_Library/Adafruit_SHT31.cpp:146-169 | any change confined to eight consecutive bits, at any message length, changes the CRC |
| Crc8.NineBitBurst | lib/Adafruit_SHT31_Library/Adafruit_SHT31.cpp:156-159 | in nine bits exactly one change is missed, the generator itself |
| Crc8.OwnCrc | lib/Adafruit_SHT31_Library/Adafruit_SHT31.cpp:146-169 | a message followed by its own CRC yields 0 |
| Crc8.MessageInjective | lib/Adafruit_SHT31_Library/Adafruit_SHT31.cpp:146-169 | different messages of one length have different bits |
| CivilDate.GetFormattedDate | lib/NTPClient-master/NTPClient.cpp:171-194 | for non-zero secs the text denotes exactly secs under the Gregorian rule; for zero, the day of the first clock reading with the time of the second |
| CivilDate.FindYear | lib/NTPClient-master/NTPClient.cpp:177-179 | the year loop ends in the year the day falls in |
| CivilDate.FindMonth | lib/NTPClient-master/NTPClient.cpp:181-190 | the month loop breaks before 12, in the month the day falls in |
| CivilDate.GetFormattedTime | lib/NTPClient-master/NTPClient.cpp:155-167 | the text is dd:dd:dd with hour below 24, minute and second below 60, and names the second of the day: secs, or the clock's reading, modulo 86400 |
| CivilDate.TimeUnique | lib/NTPClient-master/NTPClient.cpp:155-167 | a second of the day has one text of that form |
| CivilDate.NextYear | lib/NTPClient-master/NTPClient.h:10-10 | a year has 366 days exactly under the leap macro, by an independent count of days |
| CivilDate.DayUnique | lib/NTPClient-master/NTPClient.cpp:174-190 | a day number is one date |
| CivilDate.InstantUnique | lib/NTPClient-master/NTPClient.cpp:171-194 | an instant is one date and time |
| CivilDate.PrintRead | lib/NTPClient-master/NTPClient.cpp:191-193 | reading a printed date and time gives the instant it was printed from |
| CivilDate.PrintShows | lib/NTPClient-master/NTPClient.cpp:191-193 | the text character by character, the digits of each field and the separators |
| CivilDate.DigitShows | lib/NTPClient-master/NTPClient.cpp:158-164 | a one-digit number is printed as its character of 0123456789 |
| CivilDate.ReadPrint | lib/NTPClient-master/NTPClient.cpp:191-193 | any text in that format that denotes an instant is what is printed for it |
| CivilDate.TextUnique | lib/NTPClient-master/NTPClient.cpp:171-194 | two texts that denote the same instant are the same text |
| CivilDate.TornMidnight | lib/NTPClient-master/NTPClient.cpp:172-193 | with secs zero the text is the second reading's instant if and only if both readings fall on one day; across midnight it is a day behind |
| CivilDate.TornAtMidnight | lib/NTPClient-master/NTPClient.cpp:172-193 | readings of 86399 and 86400 give the text of instant 0 |
| CivilDate.EpochText | lib/NTPClient-master/NTPClient.cpp:171-194 | which is the first second of 1 January 1970 |
| CivilDate.GetDayIsDayOfWeek | lib/NTPClient-master/NTPClient.cpp:142-144 | getDay is the day of the week of the printed date, by Sakamoto's rule |
| ScanList.SortByRssi | lib/WiFiManager/WiFiManager.cpp:1159-1172 | the indices, each once, strongest first |
| ScanList.SelectStrongest | lib/WiFiManager/WiFiManager.cpp:1166-1171 | one turn of the outer loop brings the strongest of the rest to the front |
| ScanList.RemoveDuplicates | lib/WiFiManager/WiFiManager.cpp:1180-1193 | an entry is struck out just when an earlier one has its name, whatever SSID(-1) answers |
| ScanList.AlreadyStruck | lib/WiFiManager/WiFiManager.cpp:1184-1191 | skipping a struck entry loses nothing: its repeats are struck already |
| ScanList.SurvivorsApart | lib/WiFiManager/WiFiManager.cpp:1180-1193 | survivors have different names, in order of strength |
| ScanList.EveryNameSurvives | lib/WiFiManager/WiFiManager.cpp:1180-1193 | every network is represented by a survivor of its name at least as strong |
| ScanList.Arrange | lib/WiFiManager/WiFiManager.cpp:1159-1193 | what is listed: strongest first, one for every name in the scan, the strongest of that name |

## Left out

- Transport and the rest of the firmware: I2C, SPI, Wire, HTTP, WiFi connection, tasks, sleep, sensor conversions in floating point; foreign calls without modelled state.
- WiFiManager's pages, portal and callbacks; Firmata, Circuit Playground, MCP23017, BusIO and `src/`: plumbing, or short branches with easy claims.
- Adafruit_GrayOLED, the 8-bit and 16-bit canvases, the other drawBitmap variants: they repeat what is modelled.
- drawRect, drawRoundRect, drawTriangle, drawCircleHelper: outlines made of modelled parts.
- Custom fonts: there charBounds and write wrap differently, so layout and measuring do not agree; only the classic font is modelled.
- Circle.DrawCircle: negative radii are not modelled, nor are radii above 16384, beyond which -2r does not fit `ddF_y`; FilledCircle.FillCircle, FilledCircle.FillCircleHelper and FilledCircle.FillRoundRect likewise take r, w and h from 0.
- Line.WriteLine: coordinates and their differences must fit 16 bits, as must the one past the last pixel; the C code would wrap silently. The same kind of precondition, `Fits`, `Tame`, `Holds` or `Room`, stands on the other drawing methods.
- Line.DrawFastVLine: the pixels are those of the line between the two ends even for h <= 0, as in the base class; the drawing modules use the display's own fast lines instead.
- Ssd1306.Ssd1306.DrawFastVLineInternal: colours other than black, white and inverse are not modelled; the source treats them as white in whole bytes and ignores them in partial ones.
- Ssd1306.Ssd1306.DrawColumn: the head, body and tail of the byte loop are separate methods, and the do-while loops are one while loop with the colour test inside.
- Canvas1.GFXcanvas1.constructor: canvases are not empty and have fewer than 65536 bytes.
- OledFill.FillCircle: centre and radius are bounded, as are the edges in OledFill.FillRoundRect, so that every line fits the 16-bit arithmetic of the fast line.
- SpiTft.SpiTft.WriteColor: only the DMA path of SAMD boards, the one with the cache; a transfer is atomic, so busy-waits and the overlap of filling one half while the other is sent are not modelled. Screen sides are at most 16382 so that two scanlines fit one descriptor.
- SpiTft.SpiTft.WritePixels: only the DMA path; where the descriptors do not suffice, what the writes beyond the list then do to memory is not modelled.
- Panel.PushRows: the display controller is the window with a raster-order cursor that setAddrWindow's documentation describes; real controllers are not part of this model.
- Text.Gfx.Print: a one-pixel fill stands for writePixel at size 1 and an eight-row fill for writeFastVLine; coordinates stay within `Room`, away from 16-bit wrap-around.
- Text.Gfx.GetTextBounds: strings in flash memory and String objects are not modelled, only a string up to its terminating zero.
- CivilDate.GetFormattedDate: the two readings of the clock are parameters; setters, the poll of the time server and the time offset are left out.
- ScanList.Arrange: what the radio reported, and what SSID answers for an index that is no network, are parameters.
