# deej display core, modelled in Dafny

deej drives small 128×64 monochrome displays that sit next to its volume
sliders. `pkg/deej/display.go` decides what each display shows and sends it
over the serial connection. This project models the parts of that file that
hold logic:

- **Packer** (`packer.dfy`): `encode1Bit`. A row-major scan of a gray image
  keeps a bit cursor that starts at bit 7. It sets the cursor's bit for every
  pixel above 127, emits a byte every eight pixels and flushes a final
  partial byte. The method keeps the source's cursor and accumulator. It is
  proved equal to `Pack`, a specification that packs eight pixels per byte.
  The length and bit layout are proved about `Pack`.
- **Compositor** (`compositor.dfy`): the placement step of
  `convertForDisplay`. An image is drawn centred on a fresh 128×64 canvas
  using Go's truncating division. Points outside the canvas are dropped.
  The result then goes through the packer.
- **Frame** (`frame.dfy`): `sendData`. The frame is
  `<<START>>`, the index in decimal, `|`, the payload and `<<END>>.....`.
  It is appended to a serial sink only while the sink is connected. A
  receiver-side `DecodeFrame` recovers the index and payload from every
  frame `FrameOf` builds.
- **DisplayMapping** (`mapping.dfy`): `createDisplayMapFromConfig`, the
  translation of the configuration's display section into `DisplayMap`
  records.
- **Poller** (`poller.dfy`): `renderDisplays` and the `select` loop of
  `initDisplays`. The loop is a state machine over three events: ticks
  carrying the foreground name, configuration reloads and the termination
  signal. A class holding the last-seen name, the mapping and the log of
  render requests is proved against the pure `Step`/`Run` functions.
- **ProcessLookup** (`process.dfy`): `getPIDByExeName`, a first-match
  search over the process list. It also models the caller's rule that a
  failed lookup or process id 0 means no icon is fetched.
- **Decimal** and **Common** (`decimal.dfy`, `common.dfy`): Go's `%d`,
  `strconv.Atoi` with its error discarded, `strings.Contains`,
  `strings.ToLower` on ASCII, and byte/character conversion.

Inputs that come from the operating system or from libraries are
parameters. These are the gray values of an image, the process list, the
foreground window's name, the slider mapping and the mapping a reload
produces.

## Model

| member | source | states |
|---|---|---|
| Packer.Encode1Bit | pkg/deej/display.go:427-457 | The bytes emitted are exactly `Pack` of the pixels in row-major order, and there are ceil(W·H/8) of them. |
| Packer.PushPixel | pkg/deej/display.go:436-447 | One pixel sets the cursor's bit when its gray value is above 127. The byte is emitted when the cursor was at bit 0, after which the cursor restarts at 7; otherwise the cursor moves down one bit. The scan invariant linking output, accumulator and cursor to the pixels seen is preserved. |
| Packer.PackLength | pkg/deej/display.go:441-454 | A stream of n pixels packs into (n+7)/8 bytes, so an empty image gives no bytes. |
| Packer.PackByteBits | pkg/deej/display.go:437-438 | Within one byte, bit 7−j is set exactly when pixel j exists and is white. Bits past the last pixel are clear. |
| Packer.PackBits | pkg/deej/display.go:434-454 | For every bit k of the stream, bit 7 − k mod 8 of byte k/8 is set exactly when pixel k exists and its gray value is above 127. The padding bits of a final partial byte are 0. |
| Packer.PackRoundTrip | pkg/deej/display.go:434-454 | Unpacking the first n bits of the packed stream gives back the white/black pattern of the n pixels. |
| Packer.PixelBit | pkg/deej/display.go:434-454 | For image pixel (x, y) with k = y·W + x, byte k/8 exists and its bit 7 − k mod 8 is set exactly when the pixel is white. |
| Packer.PackedLength | pkg/deej/display.go:427-456 | A W×H image packs into ceil(W·H/8) bytes. |
| Compositor.GoDiv | pkg/deej/display.go:319-320 | Go's integer division by a positive divisor brackets the quotient and truncates toward zero, including for negative dividends. |
| Compositor.IconOffset | pkg/deej/display.go:310-320 | A 60×60 icon is placed at (34, 2). |
| Compositor.WideOffset | pkg/deej/display.go:319 | An image 131 pixels wide gets x offset −1; floor division would give −2. |
| Compositor.Place | pkg/deej/display.go:314-328 | The canvas is new and 128×64. Each canvas point holds the source pixel that lands on it, or the blank value where nothing does. Each source pixel (x, y) lands at offset + (x, y) when that point is inside the canvas; other writes are dropped. |
| Compositor.ConvertForDisplay | pkg/deej/display.go:298-341 | With no resize and no dithering, the result is always 1024 bytes. Canvas pixel (cx, cy) is bit 7 − k mod 8 of byte k/8, k = 128·cy + cx, and that bit is set exactly when the centred source pixel there is white. Uncovered pixels read as black. |
| Frame.FrameLayout | pkg/deej/display.go:218-219 | The frame begins with `<<START>>`, then the decimal index and `|`. The payload follows unchanged and in order, and `<<END>>.....` ends it. Its length is the sum of the parts. |
| Frame.DecodeFrameOf | pkg/deej/display.go:218-219 | A receiver that checks both markers, splits at the first `|` and reads the index recovers the index and the exact payload from every frame `FrameOf` builds. It is a left inverse only: the index is read back by a parser that also accepts text `%d` never writes (see `Decimal.PlusSignAccepted`). |
| Frame.FrameExample | pkg/deej/display.go:218-219 | Display 3 with payload AB CD produces the bytes of `<<START>>3|`, then AB CD, then `<<END>>.....`. |
| Frame.EndMarkerInPayload | pkg/deej/display.go:218-219 | The payload is not escaped. A payload spelling `<<END>>.....` puts a complete end marker inside the frame, ahead of the real one. |
| Frame.SendData | pkg/deej/display.go:215-226 | When connected, the sink's log grows by exactly one frame. When disconnected, the log is unchanged. |
| Decimal.FormatInt | pkg/deej/display.go:218 | `%d` output is non-empty ASCII made of digits with an optional leading `-`. |
| Decimal.ParseFormat | pkg/deej/display.go:218 | Reading `%d` output back as a decimal gives the number again. |
| Decimal.PlusSignAccepted | pkg/deej/display.go:218 | Reading accepts "+3" as 3, while `%d` never writes a leading `+`, so reading back is not one-to-one on texts. |
| Decimal.AtoiCases | pkg/deej/display.go:98 | `Atoi` with its error dropped always yields an int64. A leading digit run above 2^64 − 1 yields the bound of the sign, even when bad characters follow it. Otherwise a syntax error yields 0, a value that fits yields itself, and a well-formed value outside int64 yields the nearest int64 bound. |
| Decimal.DigitRun | pkg/deej/display.go:98 | The length of the leading digit run: everything before it is a digit, and the character after it is not. |
| Decimal.DigitRunAll | pkg/deej/display.go:98 | A string made of digits is one whole digit run. |
| Decimal.AtoiFormat | pkg/deej/display.go:98 | Atoi recovers every int64 written with `%d`. |
| Common.ContainsOccurs | pkg/deej/display.go:100 | `strings.Contains` holds exactly when the substring occurs at some offset. |
| Common.ToLower | pkg/deej/display.go:291 | Lower-casing keeps the length and lower-cases each ASCII letter. No upper-case ASCII letter remains. |
| DisplayMapping.CreateDisplayMapFromConfig | pkg/deej/display.go:92-128 | The loop's result is `MappingOf` the entries in iteration order, each entry contributing its own records. |
| DisplayMapping.AddEntryAppends | pkg/deej/display.go:96-124 | One pass of the loop body only appends, and what it appends depends on that entry alone. |
| DisplayMapping.EntriesForCases | pkg/deej/display.go:96-111 | Only the last target is inspected. It gives one record for ".exe", one for ".png" (two for both), one for exactly "auto" and none otherwise. Every record carries the parsed index: 0 when the key does not parse and does not overflow, an int64 bound when its leading digits overflow. Non-"auto" records carry the target itself and do not follow the foreground app. |
| DisplayMapping.AutoEntry | pkg/deej/display.go:112-122 | "auto" yields one record. Its target is the last target of the slider mapped at that index. It follows the foreground app exactly when that target is "deej.current". |
| DisplayMapping.NoExtension | pkg/deej/display.go:100-106 | A name in which no dot is followed by 'e' or 'p' contains neither ".exe" nor ".png". |
| DisplayMapping.CurrentAppIsNoFile | pkg/deej/display.go:116 | "deej.current" contains neither ".exe" nor ".png". |
| DisplayMapping.MappingHas | pkg/deej/display.go:96-124 | Every record an entry yields is in the mapping. |
| DisplayMapping.MappingFrom | pkg/deej/display.go:96-124 | Every record of the mapping comes from some entry. |
| DisplayMapping.EntryCurrentApp | pkg/deej/display.go:100-122 | Within one entry's records, following the foreground app goes exactly with the target "deej.current". |
| DisplayMapping.CurrentAppMeansSentinel | pkg/deej/display.go:92-128 | Across the whole mapping, a record follows the foreground app exactly when its target is "deej.current". |
| Poller.DispatchAppends | pkg/deej/display.go:170-178 | Dispatching one record only appends, and what it appends depends on that record alone. |
| Poller.RenderAllMembers | pkg/deej/display.go:169-179 | `renderDisplays` requests an icon exactly for the records whose target contains ".exe", and a file exactly for those whose target contains ".png". Each request carries the record's own display index. |
| Poller.ReloadSkipsCurrentApp | pkg/deej/display.go:157-158 | A reload never requests anything for a "deej.current" target. |
| Poller.FollowAllIndexes | pkg/deej/display.go:151-155 | A new name gives one icon request per current-app record, in mapping order, all for the new name. |
| Poller.RepeatedTickIsSilent | pkg/deej/display.go:147-149 | A tick repeating the last-seen name changes nothing and requests nothing. |
| Poller.NewTickFollows | pkg/deej/display.go:147-156 | A tick with a different name records that name. It requests exactly the current-app displays, in mapping order, with that name. |
| Poller.InterruptStops | pkg/deej/display.go:160-162 | Whatever follows the first termination signal is never processed. |
| Poller.RunSnoc | pkg/deej/display.go:145-164 | Running one more event continues from the state and requests the prefix left. |
| Poller.TickRenderCount | pkg/deej/display.go:147-156 | Over ticks alone, the number of requests is the number of name changes times the number of current-app records. The mapping is unchanged. |
| Poller.ChangeDetectionExample | pkg/deej/display.go:147-156 | After "a.exe", the names a.exe, a.exe, b.exe, b.exe give one request: the icon of b.exe on the tracking display. |
| Poller.DisplayLoop.constructor | pkg/deej/display.go:52 | The last-seen name starts out empty and no request has been made. |
| Poller.DisplayLoop.RenderDisplays | pkg/deej/display.go:169-179 | The loop appends exactly `RenderAll` of the current mapping to the requests. |
| Poller.DisplayLoop.FollowActive | pkg/deej/display.go:151-155 | The loop appends exactly the icon requests for the current-app records. |
| Poller.DisplayLoop.HandleEvent | pkg/deej/display.go:146-159 | One tick or reload moves the state and the requests exactly as `Step` does. |
| Poller.DisplayLoop.Poll | pkg/deej/display.go:141-165 | The event loop's final state and added requests are those of `Run`, which stops at the first signal. |
| Poller.DisplayLoop.InitDisplays | pkg/deej/display.go:130-165 | `renderDisplays` runs once on the initial mapping (`RenderAll`), followed by the requests of `Run`. |
| ProcessLookup.GetPIDByExeName | pkg/deej/display.go:283-296 | If the list cannot be read, the error is the list error. If no process's lower-cased name equals the name as given, the error is not-found. Both return 0. Otherwise there is no error and the result is the id of the first matching process. |
| ProcessLookup.ToUint32 | pkg/deej/display.go:292 | `uint32` of an int32 id keeps non-negative ids and wraps negative ones by 2^32. |
| ProcessLookup.UpperCaseNeverMatches | pkg/deej/display.go:291 | A requested name with an upper-case ASCII letter matches no process, because only the process name is lower-cased. |
| ProcessLookup.MatchExample | pkg/deej/display.go:289-291 | "Foo.EXE" is found as "foo.exe" but not as "Foo.EXE". A process whose name cannot be read never matches. |
| ProcessLookup.IconPidFor | pkg/deej/display.go:193-201 | An icon is fetched exactly when the list can be read, some process's lower-cased name matches, and the first such process's id, taken as uint32, is not 0. The id fetched is that process's id. |

## Left out

- Windows calls (`getActiveWindow`, `GetWindowPID`, `GetProcessName`, `getWindow`, lines 240-281): these are foreign calls. The foreground name arrives as the payload of a tick event.
- gopsutil process enumeration (line 284): the process list is an input, and `None` stands for the listing failing.
- `geticon.FromPid` (line 206) and `png.Decode` (line 184): these are library decoders. A decode failure in `sendPNGToDisplay` is `log.Fatalf`, which ends the process and is not modelled.
- `resize.Resize` with Lanczos3 (line 310): this is floating-point resampling. Only the placement of an already-sized image is modelled, so the icon path `convertForDisplay(icon, true, true)` is covered only by `Compositor.Place`.
- `floydSteinbergDithering` and `ditherPixel` (lines 384-425): these use float32 error diffusion and are not modelled.
- `drawNumberOnImage` (lines 343-382): this is font rendering, and its call is commented out.
- `color.GrayModel.Convert` and the RGBA canvas: images are grids of gray values. Converting a gray pixel to RGBA and back is taken to be the identity.
- The goroutine, ticker, `signal.Notify` and the configuration-change channel (lines 133-165): only the single-threaded semantics of the `select` body is modelled. The channel order of simultaneous events is an input order.
- The configuration subscription: a reload event carries the mapping the reloaded configuration holds. How configuration files are read and parsed is not part of this model.
- Serial port lifecycle, write errors, logging, `checkError` and `readFile`: these are I/O. `Frame.SendData` assumes the single write succeeds.
- Go map iteration order (line 96): the configuration map is a sequence of entries in a given order. Nothing is claimed across different keys.
- `userSliderMap.get` (line 113): the slider mapping is a total function supplied by the caller. A target list, or a slider mapping for "auto", that is empty makes the source index at −1 and panic (lines 97 and 114). `DisplayMapping.Indexable` requires both to be non-empty.
- `fmt.Printf` of the mapping (line 125): this is output only.
- Common.ToLower: only ASCII letters are lower-cased. Unicode case mapping is not modelled.

## Notes

- Only `deej.current` marks a current-app record (line 116). No other slider target, `deej.unmapped` included, makes a display follow the foreground app.
- A PNG that cannot be read or decoded ends the process through `log.Fatalf` (line 186). It is not skipped, and that path is left out.
- Centring uses Go's truncating division (lines 319-320). For images wider or taller than the canvas it differs from floor division when the excess over the canvas is odd, as `Compositor.WideOffset` shows.
