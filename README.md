# gozgraver protocol engine, modelled in Dafny

This project models the protocol engine of gozgraver, a driver for laser engravers that talk over a serial link. It covers three parts:

- **The frame decoder** (`events.dfy`, module `Events`). It turns one inbound 4-byte control frame (sentinel 255, then an opcode) into nothing, a logged warning, one typed event, or the fatal "unknown model" outcome. It also holds the seven-entry table of model signatures.
- **Protocol variant 4** (`protocolv4.dfy`, module `ProtocolV4`). This covers:
  - the engravable bounds;
  - the burn-time and laser-power setters with their range checks;
  - reset;
  - the engrave transaction: the size check, the image-to-bitmap encoder (1 bit per pixel, MSB first, row-major, `ceil(w/8)` bytes per row), centring, the hundreds/remainder geometry frames, and the ordered send / wait / delay sequence with `times - 1` repeat passes.
- **The device facade** (`gozcore.dfy`, module `Gozcore`). This covers:
  - `OpenProtocol`, which binds a recognised model to its variant or rejects it as unsupported;
  - the connect handshake;
  - the `Graver` session object, which forwards commands to its variant.

`wire.dfy` (module `Wire`) holds the shared vocabulary: bytes, models, event kinds, errors, and the `Link` class. A session's observable behaviour is an ordered trace of `Send(bytes)`, `Await(kind)` and `Delay(ms)` actions. `Link` stands for the serial connection, the event bus and the clock together, reduced to that trace.

Pure code is written as functions and lemmas. Code that changes state is written as methods proved against those functions:
- `PackBitmap` fills a zeroed buffer in nested column and row loops. It is proved to produce `Bitmap(img)`.
- `ProtocolV4.Engrave` and its repeat loop append to the link. They are proved to append exactly `EngraveTrace(img, times)`.
- `Graver` keeps the session invariant: the handshake that recognised the model is on the trace before anything the session does.

Two behaviours of the code that the model keeps:
- An unrecognised handshake signature ends the process through `log.Fatal` (core/events.go:31-34). The model returns the `UnknownModel` outcome in its place.
- The repeat loop at core/protocolv4.go:145 runs `times - 1` times, so `Engrave` with `times <= 0` still runs the first pass and nothing else.

## Model

| member | source | states |
|---|---|---|
| `Wire.Link.Send` | core/connection.go:27-33 | a write appends exactly its bytes to the trace and reports nothing, since write errors are swallowed |
| `Wire.Link.Await` | core/protocolv4.go:132 | waiting for the next event of a kind appends one `Await` of that kind |
| `Wire.Link.Sleep` | core/protocolv4.go:126 | a settle delay appends one `Delay` of that many milliseconds |
| `Events.TranslateModel` | core/events.go:78-109 | a recognised model is never `Null`, and the pair it was read from is exactly that model's signature |
| `Events.SignatureTableExact` | core/events.go:78-109 | for every pair and model, the table yields the model iff the pair is the model's signature, so the seven known pairs map one-to-one and every other pair is rejected |
| `Events.Translate` | core/events.go:24-72 | nothing comes out of a frame shorter than 4 bytes or without sentinel 255; ReadyForUpload needs bytes {5,1,1}; the battery percentage is in [0,100]; the fatal outcome needs opcode 2 and an unknown pair |
| `Events.HandshakeReplyDecoding` | core/events.go:29-36 | an opcode-2 frame yields `ModelRecognized(m)` iff bytes 2-3 are `m`'s signature, and the fatal outcome iff they match no model |
| `Events.ReadyForUploadExact` | core/events.go:37-41 | opcode 5 yields ReadyForUpload iff bytes 2-3 are exactly {1,1}, and nothing otherwise |
| `Events.BatteryClamped` | core/events.go:45-52 | opcode 9 yields a battery level of `25*b2` clamped to 100 |
| `Events.HundredsDecoding` | core/events.go:53-67 | opcodes 10, 13 and 15 publish carving time, laser power and charging current of exactly `b2*100 + b3`, for every pair of payload bytes |
| `Events.HundredsPayloads` | core/events.go:53-67 | a value sent as `v/100, v%100` decodes back to `v`, the round trip of the hundreds/remainder split |
| `Events.OpcodeDispatch` | core/events.go:25-72 | opcodes 1 and 6 yield payload-less HandshakeSuccess and EngravingDone whatever bytes 2-3 are; opcode 16 and unlisted opcodes publish nothing; only opcode 2 yields a model |
| `ProtocolV4.ProtocolV4.GetSize` | core/protocolv4.go:13-15 | the size is the bounds the variant was built with |
| `ProtocolV4.ProtocolV4.SetBurnTime` | core/protocolv4.go:17-24 | error (and nothing sent) iff the burn time is outside [1,240]; otherwise exactly the frame {255,5,burn,0} then a 20 ms delay |
| `ProtocolV4.ProtocolV4.SetLaserPower` | core/protocolv4.go:26-33 | error (and nothing sent) iff the power is outside [1,100]; otherwise exactly the frame {255,13,0,power} then a 20 ms delay |
| `ProtocolV4.ProtocolV4.Reset` | core/protocolv4.go:35-38 | exactly one frame {255,4,1,0}, with no wait and no delay |
| `ProtocolV4.Stride` | core/protocolv4.go:55-59 | the bytes per row cover the width (`8*stride >= w`) with fewer than 8 padding bits |
| `ProtocolV4.StrideExamples` | core/protocolv4.go:55-59 | widths 8, 9, 16 and 0 give strides 1, 2, 2 and 0 |
| `ProtocolV4.MaskIsShift` | core/protocolv4.go:108 | the bit used for column `k` of a byte is `128 >> k` |
| `ProtocolV4.BitmapBit` | core/protocolv4.go:93-111 | bit `7 - x%8` of byte `y*stride + x/8` is set iff pixel (x,y) is inside the image and `r&g&b < 255`, so padding bits past the width stay 0 |
| `ProtocolV4.PackBitmap` | core/protocolv4.go:93-111 | the buffer filled by the nested pixel loops is exactly the bitmap |
| `ProtocolV4.HalfBlackBitmap` | core/protocolv4.go:61-91 | a 24x4 image whose left 12 columns are black packs to `ff f0 00` on every row |
| `ProtocolV4.ByteIndexInRange` | core/protocolv4.go:104 | with coordinates relative to the image's corner, every pixel's byte index lies inside the `stride*h` buffer |
| `ProtocolV4.AbsoluteIndexOverruns` | core/protocolv4.go:95-108 | for an image whose bounds start at (0,1), the index computed as written falls past the end of the buffer |
| `ProtocolV4.Centre` | core/protocolv4.go:113-114 | the offset leaves equal margins on both sides, or one extra pixel on the far side |
| `ProtocolV4.GeometryFrames` | core/protocolv4.go:118-123 | for bounds up to 550, the origin and size frames carry each value as `v/100, v%100` without truncation, and `hi*100+lo` gives back the centred origin, the byte-rounded width and the height |
| `ProtocolV4.CentringExample` | core/protocolv4.go:113-123 | bounds 490x490 with a 100x50 image give origin (195,220), sent as {255,110,1,1,95,2,20}, and size {255,110,2,1,4,0,50} |
| `ProtocolV4.UploadPass` | core/protocolv4.go:118-140 | the first pass appends origin, size, a 20 ms delay, {255,6,1,1}, a wait for ReadyForUpload, a 20 ms delay, the bitmap and a wait for EngravingDone, in that order |
| `ProtocolV4.RepeatPasses` | core/protocolv4.go:145-149 | the repeat loop appends `times - 1` repeat frames (none when `times <= 1`), each followed by a wait for EngravingDone |
| `ProtocolV4.RepeatsShape` | core/protocolv4.go:145-149 | the repeats are `2*max(n,0)` actions that alternate between the frame {255,1,1,0} and a wait for EngravingDone |
| `ProtocolV4.ProtocolV4.EngraveTrace` | core/protocolv4.go:44-53 | engraving fails with the size error iff the image is wider or taller than the bounds |
| `ProtocolV4.EngraveTraceShape` | core/protocolv4.go:113-151 | an accepted engrave is, in order: origin, size, Delay 20, {255,6,1,1}, Await ReadyForUpload, Delay 20, bitmap, Await EngravingDone, then `max(times-1,0)` pairs of {255,1,1,0} and Await EngravingDone |
| `ProtocolV4.ProtocolV4.Engrave` | core/protocolv4.go:40-152 | an image that is too big returns the size error with nothing sent; otherwise the link gets exactly the engrave trace and the result is success |
| `Gozcore.OpenProtocol` | core/gozcore.go:108-119 | NewNor and NewLit bind 490x490 and NewBle binds 550x550; every other model, Null and all Old* models, is an unsupported-model error |
| `Gozcore.UsableSignatures` | core/gozcore.go:108-119 | only signatures (1,10), (11,2) and (13,2) lead to a bound variant; (1,0), (10,1), (11,1) and (13,1) are recognised but rejected |
| `Gozcore.UsableHandshakeReply` | core/events.go:29-36 | a handshake reply frame that yields a model leads to a usable session iff its bytes 2-3 are one of the three supported signatures |
| `Gozcore.BoundVariantGeometry` | core/gozcore.go:108-116 | every variant that `OpenProtocol` can bind sends geometry frames that decode back to the exact origin and size |
| `Gozcore.LaserPowerFrameDecodes` | core/protocolv4.go:30 | the set-laser-power frame, read back by the decoder, reports the same percentage: opcode 13 has one layout both ways |
| `Gozcore.Connect` | core/gozcore.go:44-106 | a 20 ms delay, the handshake frame {255,9,0,0} and a wait for ModelRecognized, in that order. A Graver is built iff the model has a variant; it holds the recognised model and that variant, after a 30 ms delay. Otherwise the result is the unsupported-model error |
| `Gozcore.Graver.constructor` | core/gozcore.go:98-103 | the session holds the given model, link and variant, and starts valid |
| `Gozcore.Graver.SetBurnTime` | core/gozcore.go:121-124 | forwards the argument unchanged to the bound variant and appends exactly what it returns; the handshake stays before it on the trace |
| `Gozcore.Graver.SetLaserPower` | core/gozcore.go:126-129 | forwards the argument unchanged to the bound variant and appends exactly what it returns |
| `Gozcore.Graver.Reset` | core/gozcore.go:131-134 | forwards to the bound variant and appends its reset frame |
| `Gozcore.Graver.Engrave` | core/gozcore.go:136-139 | forwards the image and pass count unchanged to the bound variant's engrave transaction |

## Left out

- Serial port configuration and opening (`serial.OpenPort`, 57600 baud 8N1) are not modelled, and neither is its failure path in `Connect`. `Connect` takes a link that is already open.
- The listener loop of core/connection.go is not modelled. Read errors in it are logged and skipped.
- Write errors are swallowed by the source. `Link.Send` cannot fail.
- The goroutines, the payload channel and the event bus are not modelled. A wait is recorded as an `Await(kind)` action. The model does not say which inbound frame releases the wait, and does not model that a missing reply blocks forever.
- `Connect` receives the recognised model as a parameter: it is the payload of the awaited ModelRecognized event. It is not derived from inbound frames. The decoder lemmas connect frames to models separately.
- `time.Sleep` is recorded as a `Delay(ms)` action only.
- Logging is not modelled. For opcode 16 the decoder's result is `Warned`, which stands for the log line only. The model names that `translateModelFromPayload` returns are used only in logs and are left out. The Model string constants are an enumeration here.
- `log.Fatal` on an unknown signature ends the process in the source. The decoder returns `UnknownModel` instead.
- Images are abstracted. An image is a width, a height and an 8-bit (r,g,b) colour per pixel, with bounds starting at (0,0). The 16-bit `RGBA()` values shifted right by 8 and the alpha channel are not modelled.
- The `protocol` interface of core/protocol.go is not part of this model. That interface lacks `SetLaserPower`, which the facade calls. The variant is one concrete datatype.
- `Graver.Events` and `GetLogger` are left out. Go's `Graver.Connection` is the `link` field.
- `Graver.SetBurnTime`, `Graver.SetLaserPower` and `Graver.Reset` append the variant's action list in one step. The setter's write and its sleep are the two actions of that list.
- The command line in cmd/gozgraver is not part of this model. That covers flag parsing, usage text, opening the image file and decoding it.

## Findings

| source | as written | input that shows it | evidently intended | confidence | as-written member | corrected member |
|---|---|---|---|---|---|---|
| core/protocolv4.go:95-108 | the byte index is `y*stride + x/8` with the absolute coordinates of the image's bounds | an 8x1 image whose bounds are (0,1)-(8,2): its pixel (0,1) gets index 1 in a 1-byte buffer, so the write to `data[i]` at line 108 is out of range and Go panics | index counted from the bounds' top-left corner (`x - Min.X`, `y - Min.Y`), which the `stride*h` buffer is sized for | medium: decoded image files start at (0,0), so only sub-images or custom images reach it; not executed | `ProtocolV4.AbsoluteIndexOverruns` | `ProtocolV4.ByteIndexInRange` |
