# Print agent: ESC/POS job model

A Dafny model of the byte-level core of a small print agent. The agent is an
HTTP service, with one variant for Windows and one for macOS, that receives
base64 receipt bytes and an optional logo from a web page and sends a raw
ESC/POS job to a receipt printer. The model covers three parts.

1. **Logo to raster block.** `convert_image_to_escpos` is modelled by the
   modules `Logo` and `Raster`, with the byte primitives in `EscPos`. It
   strips a data-URL prefix, then computes the target size: width capped at
   384 dots, height scaled and truncated. It thresholds grey values at 190,
   packs one bit per pixel most significant bit first with rows padded to
   whole bytes, builds the 8-byte `GS v 0` header (`1D 76 30 00 xL xH yL yH`)
   and XORs every payload byte with 0xFF in place. Any failure gives the
   empty block. The function is the same in both source files, so it is
   modelled once; the table below cites the Windows copy, and the macOS copy
   sits at `printer_service_mac.py:106-165`.
2. **Raw job assembly.** `print_raw_bytes` is modelled by `Job`,
   `WindowsAgent`, `MacAgent` and `Transport`. A job is the drawer-kick pulse
   `1B 70 00 19 FA`, then, when a logo was asked for and converts, `1B 61 01`,
   the block and `1B 61 00`, then the receipt. Windows issues one
   `WritePrinter` call per chunk; macOS joins the chunks and submits them
   once with `lp -o raw`. Both are modelled as calls to `Transport.Spool.Send`,
   which appends to the spool's log. The validation gates run before
   anything is sent; a rejected request leaves the log unchanged. The lemma
   `WritesDeliverJoin` proves the two platforms deliver the same bytes.
3. **lpstat parser.** The fallback of `list_cups_printers` on macOS is
   modelled by `MacAgent` and `Text`. It takes the second whitespace token
   of every line of `lpstat -p` that starts with `"printer "`. `Text` models
   Python's `str.splitlines()` and `str.split()` on code points.

The external pieces are parameters:
- the base64 decoder, a partial function `Logo.Base64Decoder`;
- Pillow, as `Logo.Imaging`: `openImage` gives the image's size, `render`
  resizes, composites and converts to a grey grid, and `padBit` is the value
  of the pad bits in `tobytes()`;
- the selected printer, an `Option<string>`;
- the request's JSON fields, `Job.Request`;
- the text printed by `lpstat -p`, `None` when the command fails.

## Model

| member | source | states |
|---|---|---|
| EscPos.LittleEndian16 | printer_service_windows.py:200-205 | `n.to_bytes(2, "little")` for n < 65536 is two bytes, low byte first, that read back as n |
| EscPos.ComplementBit | printer_service_windows.py:212 | in an m-bit value, `2^m - 1 - v` has each of the m bits of v flipped |
| EscPos.FlipBits | printer_service_windows.py:212 | every one of the eight bits of `b ^ 0xFF` is the complement of the same bit of b |
| EscPos.Inverted | printer_service_windows.py:210-212 | the XOR loop over the whole buffer keeps its length; each byte becomes its `FlipBits` (RasterBlock, InvertedTwice) |
| EscPos.InvertedTwice | printer_service_mac.py:157-159 | inverting every byte keeps the length, and inverting twice gives back the original bytes |
| Raster.Monochrome | printer_service_windows.py:195-197 | the one-bit image has the grey image's dimensions, and a pixel is white exactly when its grey value is above 190 |
| Raster.ThresholdSample | printer_service_windows.py:196 | the point map yields only 0 or 255, and 255 exactly when the grey value is above 190 |
| Raster.WhiteBit | printer_service_windows.py:197 | `convert("1")` of the thresholded image, whose only values are 0 and 255: 255 becomes a white bit and 0 a black one |
| Raster.ThresholdBoundary | printer_service_windows.py:195-196 | grey 190 comes out black and grey 191 comes out white |
| Raster.WidthBytes | printer_service_windows.py:200 | `(width + 7) // 8` is the least byte count holding width bits: `w <= 8n < w + 8` |
| Raster.PadRow | printer_service_windows.py:210 | a padded row is 8 * widthBytes long, holding the pixels and then the pad bit |
| Raster.BitsValueBit | printer_service_windows.py:210 | bit j from the low end of a bit string's value is the string's j-th bit from the end |
| Raster.PackByte | printer_service_windows.py:210 | bit k of a packed byte, counted from the most significant bit, is the k-th of its eight pixels |
| Raster.PackBits | printer_service_windows.py:210 | the packing inside `tobytes()` turns every eight bits into one byte, so the bytes are exactly an eighth as many as the bits; the bit layout is PackByte and PackBitsAt |
| Raster.PackBitsAt | printer_service_windows.py:210 | bit i of a padded row is bit i % 8 of byte i / 8 |
| Raster.PackRows | printer_service_windows.py:210 | `tobytes()` of no rows is empty, and of one row is that row padded and packed; the rows' layout is in PackRowsByte and PackRowsAt |
| Raster.PackRowsCons | printer_service_windows.py:210 | the first row's widthBytes bytes come first, then the remaining rows' bytes |
| Raster.PackRowsLength | printer_service_windows.py:210 | `tobytes()` of h rows is h * widthBytes bytes long, computed as RowStart |
| Raster.RowStartProduct | printer_service_windows.py:210 | row y of the packed bytes starts at byte y * widthBytes |
| Raster.PackRowsByte | printer_service_windows.py:210 | byte j of row y of the packed image is byte j of that row packed alone |
| Raster.PackRowsAt | printer_service_windows.py:210 | pixel (y, x) is bit x % 8 of byte y * widthBytes + x / 8, and bits past the width are pad bits |
| Raster.RasterHeader | printer_service_windows.py:200-205 | the header is 8 bytes: `1D 76 30 00`, then widthBytes and height, each little-endian |
| Raster.EncodeRaster | printer_service_windows.py:200-218 | the block is empty exactly when widthBytes or the height does not fit in two bytes |
| Raster.RasterBlock | printer_service_windows.py:214 | `header + bytes(img_bytes)`: 8 + payload bytes long, the header first, then each payload byte XORed with 0xFF |
| Raster.EncodeRasterShape | printer_service_windows.py:200-214 | a non-empty block is 8 + widthBytes * height long and starts with the command bytes and both little-endian dimensions |
| Raster.DecodeEncode | printer_service_windows.py:210-214 | decoding an encoded block gives its widthBytes and height, and re-inverting the payload gives exactly the packed bitmap |
| Raster.PayloadByte | printer_service_windows.py:210-214 | payload byte i of the block is byte i of the packed bitmap XORed with 0xFF; no byte is skipped |
| Raster.EncodedBit | printer_service_windows.py:210-214 | the printed dot at (y, x) is the complement of the packed bit there |
| Raster.EncodedPixel | printer_service_windows.py:195-214 | for every in-range pixel, the block has a dot bit (1) exactly when the grey value is 190 or less |
| Raster.EncodedPadding | printer_service_windows.py:210-214 | the bits past each row's width up to the byte boundary hold the complement of the pad bit |
| Logo.AfterFirstComma | printer_service_windows.py:164 | `s.split(",", 1)[1]` is the proper suffix of s after its first comma |
| Logo.StripDataUrlPrefix | printer_service_windows.py:163-164 | the result is always a suffix of the input; with no comma it is the input unchanged; otherwise it is what follows the first comma |
| Logo.StripDataUrl | printer_service_windows.py:163-164 | a data URL `header,body` whose header has no comma decodes body alone |
| Logo.StripTwice | printer_service_mac.py:115-116 | stripping a second time leaves the result unchanged exactly when no comma remains in it |
| Logo.StripNotIdempotent | printer_service_windows.py:163-164 | `"a,b,c"` strips to `"b,c"`, which strips again to `"c"` |
| Logo.TargetSize | printer_service_windows.py:171-179 | width at most 384 keeps the size; a wider image becomes exactly 384 wide with height `floor(height * 384 / width)`; height never grows |
| Logo.TargetSizeExample | printer_service_mac.py:122-130 | an 800 x 400 image is resized to 384 x 192 |
| Logo.ConversionFailureIsEmpty | printer_service_windows.py:216-218 | a bad base64 string, an image that does not open or render, or a height of 65536 or more gives the empty block |
| Logo.LogoRasterShape | printer_service_windows.py:171-205 | when every stage succeeds, widthBytes is at most 48, and the block is header plus widthBytes * height bytes with the target dimensions |
| Logo.LogoRaster | printer_service_windows.py:161-218 | a non-empty result starts with the `1D 76 30 00` command and holds at least the 8 header bytes, and only comes from a logo that base64-decoded |
| Logo.ConvertImageToEscpos | printer_service_windows.py:153-218 | the method, with its in-place inversion of a byte array, returns exactly the conversion function's block |
| Logo.EncodeGrey | printer_service_windows.py:200-214 | the header, the packed bitmap copied into a byte array and inverted in place, give exactly the encoded block, or the empty one on overflow |
| Logo.InvertInPlace | printer_service_windows.py:210-212 | the loop leaves every byte of the array XORed with 0xFF |
| Job.Truthy | printer_service_windows.py:225-236 | Python truthiness of an optional string: None and `""` are false, any non-empty string is true |
| Job.WantsLogo | printer_service_windows.py:260 | `should_print_logo and b64_logo`: false when `printLogo` is false, whatever the logo; otherwise the truthiness of the logo |
| Job.ConvertRequestedLogo | printer_service_windows.py:260-262 | the logo is converted only when `printLogo` is truthy and a logo is present; otherwise the block is empty |
| Job.LogoBytes | printer_service_windows.py:260-264 | no logo block unless `printLogo` is truthy and a logo is present; a non-empty block starts with the raster command |
| Job.JobChunks | printer_service_mac.py:261-283 | the job has 2 chunks, or 5 with a logo block; the drawer kick is first and the receipt is last |
| Job.Join | printer_service_mac.py:286 | `b"".join(chunks)` of no chunks is empty, starts with the first chunk, and of one chunk is that chunk |
| Job.JobBuffer | printer_service_mac.py:286 | the joined job buffer always starts with the 5 drawer-kick bytes |
| Job.JoinFrame | printer_service_mac.py:273-276 | the centre, logo and left chunks join to centre + logo + left, and to nothing without a block |
| Job.JobBufferLayout | printer_service_mac.py:260-287 | the buffer is drawer kick + (centre + logo + left when the block is non-empty) + receipt, of matching length, starting with the 5 kick bytes |
| Job.NoLogoJob | printer_service_mac.py:268-286 | without `printLogo`, without a logo, or with a failed conversion, the buffer is exactly drawer kick + receipt |
| Job.Admit | printer_service_windows.py:224-241 | admitted exactly when a printer is selected, `data` is non-empty and decodes; no printer gives 404, missing or empty data gives 400, a decode failure gives 500 |
| Job.HttpCode | printer_service_windows.py:224-292 | 200 exactly on success; 404 with no printer, 400 with no data, 500 on a failure, all error codes |
| Transport.WritesTo | printer_service_windows.py:257-276 | one write per chunk, in chunk order, each to the same printer |
| Transport.Spool.Send | printer_service_windows.py:257 | one `WritePrinter` call, or one `lp -o raw` submission, appends exactly one write of that data to that printer and changes nothing else |
| Transport.ReceivedAppend | printer_service_windows.py:257-276 | what a printer receives from two logs in sequence is what it receives from each, concatenated |
| WindowsAgent.OpenDrawer | printer_service_windows.py:114-124 | without a selected printer nothing is written (404); otherwise the drawer kick is written once |
| WindowsAgent.PrintRawBytes | printer_service_windows.py:220-292 | a rejected request writes nothing and answers per the gates; an admitted one writes the job's chunks in order, one call each |
| WindowsAgent.WriteSequence | printer_service_windows.py:255-276 | the drawer kick, the framed logo when it converts, and then the receipt are appended to the log as separate writes |
| WindowsAgent.WriteLogo | printer_service_windows.py:264-270 | a non-empty logo block is written as centre, block, left; an empty one writes nothing |
| WindowsAgent.WriteLogoAndReceipt | printer_service_windows.py:259-276 | after the kick: the framed logo writes, if any, then the receipt write |
| WindowsAgent.LogoWrites | printer_service_windows.py:264-270 | three writes for a non-empty block, none for an empty one |
| WindowsAgent.JobWrites | printer_service_windows.py:255-276 | the writes of a job are the kick, the logo frame writes and the receipt, in that order |
| WindowsAgent.WritesDeliverJoin | printer_service_windows.py:255-276 | writing the chunks one call at a time delivers to the printer exactly their concatenation, the buffer the macOS agent sends |
| MacAgent.PrintRawBytes | printer_service_mac.py:241-293 | a rejected request sends nothing; an admitted one makes a single submission of the joined job buffer |
| MacAgent.AssembleJob | printer_service_mac.py:260-286 | the chunks appended step by step are the job's chunk list, and joined they form the job buffer |
| MacAgent.AppendLogoChunks | printer_service_mac.py:271-276 | a non-empty logo block appends centre, block, left to the chunk list; an empty one appends nothing |
| MacAgent.PrinterNames | printer_service_mac.py:76-82 | at most one name per line, and every name is a whitespace-free token |
| MacAgent.LineContribution | printer_service_mac.py:78-81 | a line adds at most one name, only when it starts with `"printer "`, and that name is a whitespace-free token |
| MacAgent.LpstatPrinters | printer_service_mac.py:74-85 | a failed `lpstat` gives no names; every name is a whitespace-free token |
| MacAgent.PrinterNamesAppend | printer_service_mac.py:77-81 | lines are processed in order: the names of a + b are the names of a, then those of b |
| MacAgent.ListCupsPrinters | printer_service_mac.py:73-85 | the loop collects exactly the names of the lines, in order; a failed `lpstat` gives an empty list |
| MacAgent.PrinterNamesStep | printer_service_mac.py:77-81 | one more line adds exactly that line's contribution at the end |
| MacAgent.OtherLinesIgnored | printer_service_mac.py:78 | a line not starting with `"printer "` adds nothing |
| MacAgent.ListingLineUnbroken | printer_service_mac.py:77 | a printer line with a valid name and status holds no line break |
| MacAgent.PrinterNamesCons | printer_service_mac.py:77-81 | the first line's contribution comes before the rest's |
| MacAgent.ListingLineWords | printer_service_mac.py:79 | `split()` of a printer's line gives "printer", the name, then the status's words, whatever whitespace run follows the prefix |
| MacAgent.BarePrinterLine | printer_service_mac.py:78-80 | a `"printer "` line with only whitespace after the prefix has fewer than two words and adds no name |
| MacAgent.ListingLineContribution | printer_service_mac.py:78-81 | a line `"printer " + ws + name + status`, for any whitespace run ws, contributes exactly name |
| MacAgent.ListingLineName | printer_service_mac.py:78-81 | the line lpstat prints for a printer contributes exactly that printer's name |
| MacAgent.ListingHead | printer_service_mac.py:77-81 | a printer's line followed by the rest of the listing yields that name first, then the rest's names |
| MacAgent.ListingRoundTrip | printer_service_mac.py:73-82 | parsing an lpstat listing of well-formed names, each line with its own status text, gives back exactly those names, in order |
| Text.IsSpace | printer_service_mac.py:79 | the code points `split()` treats as whitespace; on ASCII exactly tab, LF, VT, FF, CR, the separators 1C-1F and space |
| Text.IsLineBreak | printer_service_mac.py:77 | the code points that end a line for `splitlines()`; on ASCII exactly LF, VT, FF, CR and 1C-1E |
| Text.StartsWith | printer_service_mac.py:78 | `line.startswith(prefix)` holds exactly when the line is the prefix followed by something |
| Text.FirstBreak | printer_service_mac.py:77 | the first line boundary: no boundary before it, and a boundary at it unless it is the end |
| Text.SplitLines | printer_service_mac.py:77 | `splitlines()` gives no more lines than characters, and no line holds a boundary |
| Text.LeadingSpaces | printer_service_mac.py:79 | the length of the leading whitespace run |
| Text.WordLength | printer_service_mac.py:79 | the length of the leading non-whitespace run |
| Text.Split | printer_service_mac.py:79 | `split()` gives only non-empty, whitespace-free tokens |
| Text.LineBreakIsSpace | printer_service_mac.py:77-79 | every line boundary character is whitespace to `split()` |
| Text.SplitLinesCons | printer_service_mac.py:77 | a line without a boundary followed by `"\n"` is split off unchanged |
| Text.SplitToken | printer_service_mac.py:79 | a token followed by whitespace or nothing is the first word |
| Text.SplitAfterSpaces | printer_service_mac.py:79 | a leading whitespace run of any length, before a non-space or the end, does not change the words |

## Left out

- Flask routing, CORS, the JSON body parse and the response bodies are not modelled; only each handler's status code, `Job.HttpCode`, is.
- `Job.Request`: the JSON fields are optional strings plus a boolean `printLogo`. Python truthiness of other JSON types, such as a number for `data`, is not modelled.
- `OpenPrinter`, `StartDocPrinter`, `StartPagePrinter`, `EndPagePrinter`, `EndDocPrinter` and `ClosePrinter` are foreign OS calls. The model keeps only the `WritePrinter` calls, as `Spool.Send`.
- `WindowsAgent.PrintRawBytes`: does not model an `OpenPrinter` or `WritePrinter` failure (a 500 after some writes); every write succeeds.
- `WindowsAgent.OpenDrawer`: does not model an `OpenPrinter`, `StartDocPrinter` or `WritePrinter` failure (printer_service_windows.py:129-131), which answers 500; once a printer is selected the kick is always written.
- `MacAgent.PrintRawBytes`: does not model a failing `lp` submission (a 500); the submission always succeeds.
- `OpenDrawer` on macOS and `test_print` on both platforms are not modelled. They send a fixed buffer the same way and carry no logic of their own.
- The pycups path of `list_cups_printers` (printer_service_mac.py:69-71) is not modelled; it asks a foreign library. `lpstat` runs as a subprocess, so its output is a parameter.
- Pillow is not modelled: it is a foreign library, so `Imaging` is a parameter. This leaves out decoding, LANCZOS resampling, transparency compositing onto white and RGB-to-grey luma. `render` returns the grey grid.
- The pad bits of `tobytes()` are a parameter, `Imaging.padBit`, for that reason too.
- `Logo.TargetSize`: computes the new height with integer truncating division, `height * 384 // width`. The source computes `int(height * (384 / float(width)))` in floating point. When `height * 384 / width` is an exact integer, the rounded ratio can fall just below it, so the source gives one less: 483 x 161 becomes 384 x 127 in the source and 384 x 128 here.
- `Logo.TargetSize`: a wide, flat logo can get target height 0, e.g. 1000 x 2 becomes 384 x 0. Pillow's `resize` raises for a zero dimension, so the source returns the empty block. Here that case is left to the `render` parameter: a `render` that returns a 384 x 0 grid yields an 8-byte, header-only block, and `Logo.LogoRasterShape` covers that case too.
- `base64.b64decode` is a parameter, a partial function. Its alphabet and padding rules are not modelled.
- Persistence of the selected printer, `/printers`, `/select-printer`, `/selected`, `/status`, `/initialize` and the Windows service and thread lifecycle are not modelled: they are persistence, concurrency and lifecycle glue. The selected printer is an input.
- The debug prints and logging are not modelled.
