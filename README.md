# Yardland memory bank and display adapter, in Dafny

This project models the memory-access core of the yardland emulator:

- the **memory bank** (`Memory`). It is a byte buffer plus a list of memory-mapped IO devices, kept in registration order. Each device intercepts `get`/`put`/`access` calls for its address range, taken as inclusive of both ends.
- the **display adapter** (`VideoAdapter`). It has a ports block with `mode` and `bank` registers, a text buffer with one character per terminal cell, and a banked, byte-addressed pixel buffer of 16-bit pixels. It registers three device regions with the bank. In text mode its `render` is meant to expand the text buffer into pixels through an 8x8 font; as written it draws only part of each glyph (see the `drawTerminal` item under the modelling decisions, and Findings). It then hands the pixel buffer to the display.

Modules:

- `MemoryBank` (memory.dfy): the device record and the first-match lookup. Also the plain byte-cell access and the device registry. The class `Memory` holds `buffer` and `devices`, and has `AddMMIOD` and `RemoveMMIOD`.
- `Raster` (raster.dfy): specification functions for the drawing loop. `AsWrittenRaster` is what the loop does. `IntendedRaster` is the full 8x8-per-cell drawing. Lemmas relate the two.
- `VideoAdapter` (video_adapter.dfy): the three callbacks as functions over a `VideoState` value. The class `VideoAdapter` has one array per buffer, the callback methods, `DrawTerminal` (the nested loops as written) and `Render`.
- `Bus` (bus.dfy): `access`, `get` and `put` of the bank, as the methods `Access`, `Get` and `Put` over the objects. On a `Machine` value (bank and adapter state), `Accessed` specifies `access` and `put` (a put is `Accessed(..., false)`), and `Read` gives the byte `get` yields. The devices are the adapter's callbacks, so this part imports both modules.

Modelling decisions:

- **Header constants.** The terminal geometry, buffer sizes and region bounds come from a header that is not part of this model. They form a `Layout` record passed to the adapter's constructor.
- **Ports block.** It is an explicit 2-byte block: `mode` at offset 0 and `bank` at offset 1, one byte each. Mode 0 is text mode and mode 1 is pixel mode.
- **Callbacks.** The function pointer `access_func` becomes a tag, `PortDevice | TextDevice | PixelDevice`, dispatched by `VideoAdapter.Callback`.
- **Bytes.** Bytes are `bv8`, addresses are 32-bit unsigned (`u32`), and buffer indices are unbounded naturals.
- **Out-of-range accesses.** The adapter's code checks no bounds: port, text and pixel offsets and the drawing loop's pixel index. Whether the bank checks its buffer index is not visible; the model assumes it does not (listed with the assumptions below). Every such index is kept inside its buffer by a `requires` (the `...InRange` predicates and `Layout.AsWrittenFits`).
- **Where the code departs from its evident design, the model follows the code.**
  - `drawTerminal` as written draws only glyph bit 0 of each glyph row, for the cells of terminal column 0 (see Findings).
  - `render` copies the whole pixel buffer, `PIXEL_BUFFER_SIZE * 2` bytes, not only a first bank.
  - The adapter registers its regions through `Memory::addRegion` with a `{start, end, func}` record (src/video-adapter.cpp:10-26). The bank's declaration offers `AddMMIOD(start, end, func)` (libyardland/memory/memory.hpp:60). The model has one registration operation, `Memory.AddMMIOD`, taking the record.
- **Assumptions where only the bank's declaration is available (its bodies are not part of this model):**
  - Lookup is a linear scan in registration order, and the first device whose range holds the address wins (`FirstCovering`).
  - The id `AddMMIOD` returns is the device's position in the list. `RemoveMMIOD(id)` erases that position, and an id that names no device is ignored.
  - The bank does not check the buffer index of a plain access, so `Bus.InRange` requires `address < |buffer|` when no device covers the address. An address past the buffer is excluded rather than modelled.
  - The bank's constructor may or may not clear the buffer (the declaration does not say), so the model leaves the initial contents unconstrained.
  - `get` reads through a local result that a device callback may leave unwritten: a pixel read outside pixel mode then yields an unspecified byte.
  - A device's range includes both its start and its end address. The declaration names the two bounds but does not say whether the end is included.
  - `get` and `put` go through `access`. The declaration of `access` documents the opposite direction: `access` calls `get` for a read and `put` for a write (libyardland/memory/memory.hpp:43-50). Both directions agree on every access except a pixel read outside pixel mode (see `Bus.AccessReadIsRead` under "## Left out").

## Model

| member | source | states |
|---|---|---|
| `MemoryBank.FirstCovering` | libyardland/memory/memory.hpp:43-50 | the device serving an access is one whose inclusive range holds the address, and no earlier-registered device holds it; `None` exactly when no device covers the address (assumed lookup order) |
| `MemoryBank.AccessByte` | libyardland/memory/memory.hpp:27-41 | a read copies cell `i` into the data slot and a write copies the slot into cell `i`; afterwards slot and cell agree, and no other cell changes |
| `MemoryBank.AccessByteRoundTrip` | libyardland/memory/memory.hpp:27-41 | a write followed by a read of the same cell yields the written byte and leaves the buffer as the write left it |
| `MemoryBank.Unregistered` | libyardland/memory/memory.hpp:62-67 | removing a valid id erases exactly that device and keeps the others in order; an unknown id leaves the list unchanged |
| `MemoryBank.RegisterThenUnregister` | libyardland/memory/memory.hpp:52-67 | removing a device by the id its registration returned restores the previous device list |
| `MemoryBank.RegisterKeepsOwner` | libyardland/memory/memory.hpp:52-60 | registering a device keeps every address with its previous owner; the new device gets only addresses no earlier device covers |
| `MemoryBank.Memory.constructor` | libyardland/memory/memory.hpp:20-25 | a new bank of `size` bytes has a fresh buffer of exactly `size` bytes and no devices |
| `MemoryBank.Memory.AddMMIOD` | libyardland/memory/memory.hpp:52-60 | appends the record `{start, end, func}` to the device list and returns its id, the position it is stored at |
| `MemoryBank.Memory.RemoveMMIOD` | libyardland/memory/memory.hpp:62-67 | the device list becomes `Unregistered(old list, id)` and the buffer is untouched |
| `Raster.AsWrittenStep` | src/video-adapter.cpp:39-52 | one pass of the inner loop writes both bytes of the first pixel of screen line `line` with the line's glyph value and changes nothing else |
| `Raster.GlyphBit` | src/video-adapter.cpp:40 | the glyph test `font8x8_basic[character][x] & 1 << y` holds exactly when bit `y` of glyph row `x` of the character, shifted down to bit 0, is 1 |
| `Raster.AsWrittenRaster` | src/video-adapter.cpp:35-59 | the pixel buffer once the loop as written has drawn its first `lines` screen lines; its length is kept and every byte outside the first pixel of those lines keeps its old value (the drawn values are stated by `Raster.AsWrittenPixel`) |
| `Raster.IntendedRaster` | src/video-adapter.cpp:35-59 | the drawing the loop evidently intends; its length is kept and every byte outside the `8*rows` by `8*columns` terminal area keeps its old value (the drawn values are stated by `Raster.IntendedRasterCell`) |
| `Raster.DrawStep` | src/video-adapter.cpp:40-46 | for terminal row `row` and glyph row `x`, the pixel the inner loop writes, `(row*8 + x) * width`, lies inside the pixel buffer, and writing that line's glyph value to both its bytes advances the drawing from `8*row + x` lines to `8*row + x + 1` |
| `Raster.AsWrittenPixel` | src/video-adapter.cpp:40-46 | after the loop, pixel `((row*8 + x) * width) + column*8 + y`, with the stuck counters `column = y = 0`, holds `0xFFFF` if bit `y` of glyph row `x` of that cell's character is set and `0` otherwise |
| `Raster.AsWrittenOnlyColumnZero` | src/video-adapter.cpp:36-57 | every byte the loop changes belongs to pixel `line * width` for some `line < 8 * rows`, that is screen x = 0; with no columns nothing changes |
| `Raster.AsWrittenNoColumns` | src/video-adapter.cpp:36 | with zero terminal columns the outer loop guard fails at once and the buffer is unchanged |
| `Raster.IntendedRasterCell` | src/video-adapter.cpp:40-44 | the intended drawing puts glyph bit `y` of glyph row `x` of cell `(row, column)` at pixel `((row*8 + x) * width) + column*8 + y`, both bytes |
| `Raster.AsWrittenAgreesWithIntended` | src/video-adapter.cpp:40-46 | wherever the loop as written draws, it draws the intended value |
| `Raster.AsWrittenMissesCells` | src/video-adapter.cpp:48-57 | there is a terminal and font for which the loop leaves pixel 1 of cell (0,0) and pixel 0 of cell (0,1) undrawn while the intended drawing lights them |
| `VideoAdapter.PortAccess` | src/video-adapter.cpp:73-80 | a port access touches only the ports block (its length kept); text and pixels are unchanged |
| `VideoAdapter.TextAccess` | src/video-adapter.cpp:82-90 | a text access touches only the text buffer; ports and pixels are unchanged |
| `VideoAdapter.PixelAccess` | src/video-adapter.cpp:92-101 | a pixel access touches only the pixel buffer; ports and text are unchanged |
| `VideoAdapter.Regions` | src/video-adapter.cpp:8-27 | the adapter registers three regions, in the order ports, text, pixels |
| `VideoAdapter.Callback` | libyardland/memory/memory.hpp:84 | calling a device's `access_func` runs the port, text or pixel callback its tag names; buffer lengths are kept, and the two buffers the callback does not own are unchanged |
| `VideoAdapter.PortRoundTrip` | src/video-adapter.cpp:73-80 | a port write changes only byte `address - videoPortsStart` of the ports block; a port read at that address then returns the byte written and changes nothing |
| `VideoAdapter.TextRoundTrip` | src/video-adapter.cpp:82-90 | a text write changes only cell `address - textStart`; a text read then returns the byte; ports and pixels untouched |
| `VideoAdapter.PixelGated` | src/video-adapter.cpp:92-101 | when `mode != 1` a pixel access is a no-op: no buffer changes and the data slot keeps its prior value |
| `VideoAdapter.PixelRoundTrip` | src/video-adapter.cpp:93-100 | in pixel mode the accessed byte is `(address - pixelsStart) + bank * 65536`; a write changes only that byte; a read under the same bank returns it |
| `VideoAdapter.BankSeparation` | src/video-adapter.cpp:94 | with region offset below 65536, two different banks map one address to two different bytes; after switching the bank, a read does not see the write made under the other bank |
| `VideoAdapter.VideoAdapter.constructor` | src/video-adapter.cpp:8-27 | allocates fresh ports (2 bytes), text and pixel buffers of the layout's sizes, and appends the three regions to the bank's device list |
| `VideoAdapter.VideoAdapter.AccessPort` | src/video-adapter.cpp:73-80 | the ports array and data slot change as `PortAccess` says |
| `VideoAdapter.VideoAdapter.AccessText` | src/video-adapter.cpp:82-90 | the text array and data slot change as `TextAccess` says |
| `VideoAdapter.VideoAdapter.AccessPixel` | src/video-adapter.cpp:92-101 | the pixel array and data slot change as `PixelAccess` says |
| `VideoAdapter.VideoAdapter.WritePixel` | src/video-adapter.cpp:46 | storing a 16-bit pixel whose bytes are equal sets bytes `2*ptr` and `2*ptr+1` and nothing else |
| `VideoAdapter.VideoAdapter.DrawTerminal` | src/video-adapter.cpp:35-59 | the nested loops as written leave the pixel buffer equal to `AsWrittenRaster` of the old buffer over all `8 * rows` lines |
| `VideoAdapter.VideoAdapter.Render` | src/video-adapter.cpp:61-71 | in mode 0 the buffer is drawn as `DrawTerminal` draws it; in any other mode it is unchanged; the frame handed on is the whole pixel buffer |
| `Bus.Accessed` | libyardland/memory/memory.hpp:43-50 | an access never changes the device list; inside a device region the bank's buffer is untouched; elsewhere only buffer byte `address` changes, the slot ends equal to it, and the device buffers are untouched |
| `Bus.Read` | libyardland/memory/memory.hpp:27-33 | the byte `get` yields: the bank's own cell when no device covers the address; nothing exactly when the owning device is the pixel region and the adapter is not in pixel mode |
| `Bus.AccessReadIsRead` | libyardland/memory/memory.hpp:43-50 | `access(a, data, true)` changes nothing and stores into the slot what a read at `a` yields, or leaves the slot as it was for a pixel read outside pixel mode |
| `Bus.PlainPutThenGet` | libyardland/memory/memory.hpp:27-41 | with no device covering `a`, `put(a, d)` sets buffer byte `a` only and `get(a)` then yields `d` |
| `Bus.DeviceOwnsAccess` | libyardland/memory/memory.hpp:52-60 | inside a registered region an access is the owning device's callback, and the bank's buffer is not touched |
| `Bus.FirstRegisteredWins` | libyardland/memory/memory.hpp:52-60 | when devices `i < j` both cover an address and none before `i` does, the access is served by device `i`'s callback |
| `Bus.TextThroughBus` | src/video-adapter.cpp:82-90 | with the adapter's regions registered, a text `put` then `get` through the bank returns the byte and changes only that text cell |
| `Bus.PixelModeThroughBus` | src/video-adapter.cpp:92-101 | through the bank, a pixel `put` in text mode changes nothing; after `put` stores 1 into the mode port, a pixel `put` then `get` returns the byte |
| `Bus.Access` | libyardland/memory/memory.hpp:43-50 | the bank's buffer, the adapter's buffers and the slot change as `Accessed` says |
| `Bus.Get` | libyardland/memory/memory.hpp:27-33 | changes nothing, and returns the byte a read yields whenever the read yields one |
| `Bus.Put` | libyardland/memory/memory.hpp:35-41 | the machine becomes the result of a write access |

## Left out

- Render: the SDL texture lock, `memcpy` and unlock are host I/O. `Render` returns the copied bytes as `frame` instead.
- The destructor's `delete`/`delete[]` and the static allocations are memory management. Only the buffer sizes are kept.
- The buffers are class-level statics shared by every adapter, and the bank is one global reached through `Memory::addRegion`. The model gives each adapter object its own arrays and passes the bank explicitly.
- The contents of the font table are external data. The font is a parameter, 256 glyphs of 8 rows.
- The header holding `TERMINAL_*`, `REGION_*`, `TEXT_BUFFER_SIZE`, `PIXEL_BUFFER_SIZE` and `VideoPorts` is not part of this model. Its constants form the `Layout` record.
- The real `VideoPorts` field layout is not visible. The model uses a 1-byte `bank` at offset 1, so a wider `bank` field is not modelled.
- The bodies of `Memory`'s methods are not part of this model. The first-match lookup, the inclusive range ends, the index-valued device ids, the unchecked buffer index, the uncleared initial buffer, `get`'s unspecified result on a dropped read and `get`/`put` going through `access` are assumptions, not verified claims about the source.
- MemoryBank.Memory.RemoveMMIOD: ids are list positions, so removing a device moves every later-registered device down one position. An id returned earlier then names the next device, or no device. The declaration says the returned integer identifies the device, which suggests stable ids; the model does not promise them. `RegisterThenUnregister` covers only removal by the most recent id.
- Bus.AccessReadIsRead: for a pixel read outside pixel mode, the model's `access(a, data, true)` leaves the data slot as it was. If `access` calls `get`, as its declaration documents, the slot instead receives `get`'s indeterminate result. The model does not capture that value.
- Bus.Accessed: in the same case (a pixel read outside pixel mode), it returns the data slot unchanged rather than an indeterminate byte, for the reason given for `Bus.AccessReadIsRead`.
- MemoryBank.Memory.constructor: the initial contents of the buffer are not stated. The allocation is not visible, and it might leave them indeterminate or clear them; the model promises neither.
- Bus.Get: for a pixel read outside pixel mode, the model assumes `get` returns a local result the callback did not write. The body of `get` is not visible. The model leaves that value unconstrained.
- Out-of-range offsets and 32-bit wrap-around of `address - REGION_*_START` (an address below its region start) are undefined behaviour in the source. The `requires` clauses exclude them instead of modelling them.
- Concurrency, windowing, the CPU that issues bus accesses, and program startup are outside this core.

## Findings

| source | as written | input that shows it | evidently intended | confidence | as-written member | corrected member |
|---|---|---|---|---|---|---|
| src/video-adapter.cpp:36-57 | the resets `if (x == 8)` and `if (row == TERMINAL_ROWS)` sit inside loops whose guards keep `x < 8` and `row < TERMINAL_ROWS`, so `column` and `y` stay 0: only glyph bit 0 of the 8 glyph rows of each column-0 cell is drawn, at screen x = 0 | a 1-row, 2-column terminal 16 pixels wide, every glyph fully lit, pixel buffer all zero: pixel 1 and pixel 8 of line 0 stay 0 | every cell `(row, column)` drawn as its full 8x8 glyph | high; not executed | `VideoAdapter.VideoAdapter.DrawTerminal`, `Raster.AsWrittenMissesCells` | `Raster.IntendedRaster`, `Raster.IntendedRasterCell` |

`Render` keeps calling the loop as written, so that it describes what the code does. `IntendedRaster` is the corrected drawing. `Raster.AsWrittenAgreesWithIntended` proves that the loop's output is this drawing restricted to the pixels the loop reaches.
