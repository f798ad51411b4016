/** The memory-mapped display adapter: a ports block (mode and bank
    registers), a text buffer of one character per terminal cell and a
    banked pixel buffer, reached through three device callbacks that the
    adapter registers with a memory bank, plus the text-mode drawing routine
    and the per-frame render. */
module VideoAdapter {
  import opened MemoryBank
  import opened Raster

  /** Layout of the ports block, one byte per register: `mode` at offset 0,
      `bank` at offset 1. */
  const MODE_OFFSET: nat := 0
  const BANK_OFFSET: nat := 1
  const PORTS_SIZE: nat := 2

  const TEXT_MODE: byte := 0
  const PIXEL_MODE: byte := 1

  /** `bank << 16`: each bank spans 65536 byte offsets of the pixel buffer. */
  const BANK_SPAN: nat := 0x1_0000

  /** The adapter's build-time constants: terminal geometry, buffer sizes
      and the three address regions. The pixel buffer holds
      2 * pixelBufferSize bytes (pixelBufferSize 16-bit pixels). */
  datatype Layout = Layout(
    terminalRows: nat, terminalColumns: nat, terminalWidth: nat,
    textBufferSize: nat, pixelBufferSize: nat,
    videoPortsStart: u32, videoPortsEnd: u32,
    textStart: u32, textEnd: u32,
    pixelsStart: u32, pixelsEnd: u32)
  {
    /** The screen has a positive width in pixels. */
    predicate Valid() {
      terminalWidth > 0
    }

    /** The drawing loop stays inside both buffers: the last text cell it
        reads is row terminalRows - 1 of column 0 and the last pixel it
        writes is the first one of line 8 * terminalRows - 1. */
    predicate AsWrittenFits() {
      terminalRows == 0 || terminalColumns == 0 ||
      ((terminalRows - 1) * terminalColumns < textBufferSize &&
       (8 * terminalRows - 1) * terminalWidth < pixelBufferSize)
    }
  }

  /** The contents of the adapter's three buffers. */
  datatype VideoState = VideoState(ports: seq<byte>, text: seq<byte>, pixels: seq<byte>)

  function Mode(ports: seq<byte>): byte
    requires |ports| == PORTS_SIZE
  {
    ports[MODE_OFFSET]
  }

  function Bank(ports: seq<byte>): byte
    requires |ports| == PORTS_SIZE
  {
    ports[BANK_OFFSET]
  }

  /** The pixel-buffer byte that `address` reaches under bank `bank`. */
  function PixelIndex(layout: Layout, address: u32, bank: byte): nat
    requires layout.pixelsStart <= address
  {
    (address - layout.pixelsStart) + bank as nat * BANK_SPAN
  }

  predicate PortInRange(s: VideoState, layout: Layout, address: u32) {
    layout.videoPortsStart <= address && address - layout.videoPortsStart < |s.ports|
  }

  predicate TextInRange(s: VideoState, layout: Layout, address: u32) {
    layout.textStart <= address && address - layout.textStart < |s.text|
  }

  /** In pixel mode the banked index must fall inside the pixel buffer; in
      any other mode the access is dropped and needs nothing. */
  predicate PixelInRange(s: VideoState, layout: Layout, address: u32) {
    |s.ports| == PORTS_SIZE &&
    (Mode(s.ports) == PIXEL_MODE ==>
       layout.pixelsStart <= address && PixelIndex(layout, address, Bank(s.ports)) < |s.pixels|)
  }

  /** The ports callback: byte address - videoPortsStart of the ports block. */
  function PortAccess(s: VideoState, layout: Layout, address: u32, data: byte, get: bool): (r: (VideoState, byte))
    requires PortInRange(s, layout, address)
    ensures r.0.text == s.text && r.0.pixels == s.pixels && |r.0.ports| == |s.ports|
  {
    var (ports, out) := AccessByte(s.ports, address - layout.videoPortsStart, data, get);
    (s.(ports := ports), out)
  }

  /** The text callback: cell address - textStart of the text buffer. */
  function TextAccess(s: VideoState, layout: Layout, address: u32, data: byte, get: bool): (r: (VideoState, byte))
    requires TextInRange(s, layout, address)
    ensures r.0.ports == s.ports && r.0.pixels == s.pixels && |r.0.text| == |s.text|
  {
    var (text, out) := AccessByte(s.text, address - layout.textStart, data, get);
    (s.(text := text), out)
  }

  /** The pixel callback: active in pixel mode only, at the banked index. */
  function PixelAccess(s: VideoState, layout: Layout, address: u32, data: byte, get: bool): (r: (VideoState, byte))
    requires PixelInRange(s, layout, address)
    ensures r.0.ports == s.ports && r.0.text == s.text && |r.0.pixels| == |s.pixels|
  {
    if Mode(s.ports) == PIXEL_MODE then
      var (pixels, out) := AccessByte(s.pixels, PixelIndex(layout, address, Bank(s.ports)), data, get);
      (s.(pixels := pixels), out)
    else (s, data)
  }

  predicate CallbackInRange(kind: DeviceKind, s: VideoState, layout: Layout, address: u32) {
    match kind
    case PortDevice => PortInRange(s, layout, address)
    case TextDevice => TextInRange(s, layout, address)
    case PixelDevice => PixelInRange(s, layout, address)
  }

  /** The callback a registered device stands for. */
  function Callback(kind: DeviceKind, s: VideoState, layout: Layout, address: u32, data: byte, get: bool): (r: (VideoState, byte))
    requires CallbackInRange(kind, s, layout, address)
    ensures |r.0.ports| == |s.ports| && |r.0.text| == |s.text| && |r.0.pixels| == |s.pixels|
    ensures kind != PortDevice ==> r.0.ports == s.ports
    ensures kind != TextDevice ==> r.0.text == s.text
    ensures kind != PixelDevice ==> r.0.pixels == s.pixels
  {
    match kind
    case PortDevice => PortAccess(s, layout, address, data, get)
    case TextDevice => TextAccess(s, layout, address, data, get)
    case PixelDevice => PixelAccess(s, layout, address, data, get)
  }

  /** The three regions the adapter registers, in registration order. */
  function Regions(layout: Layout): (r: seq<MMIODevice>)
    ensures |r| == 3
    ensures r[0].accessFunc == PortDevice && r[1].accessFunc == TextDevice && r[2].accessFunc == PixelDevice
  {
    [MMIODevice(layout.videoPortsStart, layout.videoPortsEnd, PortDevice),
     MMIODevice(layout.textStart, layout.textEnd, TextDevice),
     MMIODevice(layout.pixelsStart, layout.pixelsEnd, PixelDevice)]
  }

  // ---------------------------------------------------------------------
  // Properties of the callbacks.

  /** A port write followed by a port read at the same address returns the
      byte written; the write changes byte address - videoPortsStart of the
      ports block and nothing else. */
  lemma PortRoundTrip(s: VideoState, layout: Layout, address: u32, data: byte, slot: byte)
    requires PortInRange(s, layout, address)
    ensures
      var w := PortAccess(s, layout, address, data, false).0;
      && w == s.(ports := s.ports[address - layout.videoPortsStart := data])
      && PortAccess(w, layout, address, slot, true) == (w, data)
  {
  }

  /** A text write followed by a text read at the same address returns the
      byte written; only cell address - textStart changes, and the ports and
      pixel buffers are untouched. */
  lemma TextRoundTrip(s: VideoState, layout: Layout, address: u32, data: byte, slot: byte)
    requires TextInRange(s, layout, address)
    ensures
      var w := TextAccess(s, layout, address, data, false).0;
      && w == s.(text := s.text[address - layout.textStart := data])
      && TextAccess(w, layout, address, slot, true) == (w, data)
  {
  }

  /** Outside pixel mode a pixel access is dropped: no buffer changes and the
      data slot keeps its prior content, for reads and writes alike. */
  lemma PixelGated(s: VideoState, layout: Layout, address: u32, data: byte, get: bool)
    requires |s.ports| == PORTS_SIZE && Mode(s.ports) != PIXEL_MODE
    ensures PixelAccess(s, layout, address, data, get) == (s, data)
  {
  }

  /** In pixel mode a pixel write reaches byte
      (address - pixelsStart) + (bank << 16) and nothing else, and a read
      under the same bank returns the byte written. */
  lemma PixelRoundTrip(s: VideoState, layout: Layout, address: u32, data: byte, slot: byte)
    requires |s.ports| == PORTS_SIZE && Mode(s.ports) == PIXEL_MODE
    requires PixelInRange(s, layout, address)
    ensures
      var i := PixelIndex(layout, address, Bank(s.ports));
      var w := PixelAccess(s, layout, address, data, false).0;
      && i == (address - layout.pixelsStart) + Bank(s.ports) as int * 65536
      && w == s.(pixels := s.pixels[i := data])
      && PixelAccess(w, layout, address, slot, true) == (w, data)
  {
  }

  /** Bank separation: within one bank window (offset below 65536), the same
      address under two different banks reaches two different bytes, so a
      write under one bank is not seen under the other: after switching the
      bank register, the read returns what the buffer held there before. */
  lemma BankSeparation(s: VideoState, layout: Layout, address: u32, data: byte,
                       otherBank: byte, slot: byte)
    requires |s.ports| == PORTS_SIZE && Mode(s.ports) == PIXEL_MODE
    requires layout.pixelsStart <= address && address - layout.pixelsStart < BANK_SPAN
    requires otherBank != Bank(s.ports)
    requires PixelIndex(layout, address, Bank(s.ports)) < |s.pixels|
    requires PixelIndex(layout, address, otherBank) < |s.pixels|
    ensures PixelIndex(layout, address, Bank(s.ports)) != PixelIndex(layout, address, otherBank)
    ensures
      var w := PixelAccess(s, layout, address, data, false).0;
      var switched := w.(ports := w.ports[BANK_OFFSET := otherBank]);
      PixelAccess(switched, layout, address, slot, true).1
        == s.pixels[PixelIndex(layout, address, otherBank)]
  {
  }

  // ---------------------------------------------------------------------
  // The adapter object.

  class VideoAdapter {
    const layout: Layout
    const ports: array<byte>
    const text: array<byte>
    const pixels: array<byte>

    ghost predicate Valid() {
      && layout.Valid()
      && ports.Length == PORTS_SIZE
      && text.Length == layout.textBufferSize
      && pixels.Length == 2 * layout.pixelBufferSize
      && ports != text && ports != pixels && text != pixels
    }

    function State(): VideoState
      reads ports, text, pixels
    {
      VideoState(ports[..], text[..], pixels[..])
    }

    /** Allocates the three buffers and registers the ports, text and pixel
        regions, in that order, with `mem`. */
    constructor (layout: Layout, mem: Memory)
      requires layout.Valid()
      modifies mem
      ensures Valid() && this.layout == layout
      ensures fresh(ports) && fresh(text) && fresh(pixels)
      ensures mem.devices == old(mem.devices) + Regions(layout)
    {
      this.layout := layout;
      ports := new byte[PORTS_SIZE];
      text := new byte[layout.textBufferSize];
      pixels := new byte[2 * layout.pixelBufferSize];
      new;
      var _ := mem.AddMMIOD(MMIODevice(layout.videoPortsStart, layout.videoPortsEnd, PortDevice));
      var _ := mem.AddMMIOD(MMIODevice(layout.textStart, layout.textEnd, TextDevice));
      var _ := mem.AddMMIOD(MMIODevice(layout.pixelsStart, layout.pixelsEnd, PixelDevice));
    }

    method AccessPort(address: u32, data: byte, get: bool) returns (out: byte)
      requires Valid() && PortInRange(State(), layout, address)
      modifies ports
      ensures (State(), out) == PortAccess(old(State()), layout, address, data, get)
    {
      var port := address - layout.videoPortsStart;
      if get {
        out := ports[port];
      } else {
        ports[port] := data;
        out := data;
      }
    }

    method AccessText(address: u32, data: byte, get: bool) returns (out: byte)
      requires Valid() && TextInRange(State(), layout, address)
      modifies text
      ensures (State(), out) == TextAccess(old(State()), layout, address, data, get)
    {
      var character := address - layout.textStart;
      if get {
        out := text[character];
      } else {
        text[character] := data;
        out := data;
      }
    }

    method AccessPixel(address: u32, data: byte, get: bool) returns (out: byte)
      requires Valid() && PixelInRange(State(), layout, address)
      modifies pixels
      ensures (State(), out) == PixelAccess(old(State()), layout, address, data, get)
    {
      out := data;
      if ports[MODE_OFFSET] == PIXEL_MODE {
        var pixel := (address - layout.pixelsStart) + ports[BANK_OFFSET] as int * BANK_SPAN;
        if get {
          out := pixels[pixel];
        } else {
          pixels[pixel] := data;
        }
      }
    }

    /** Stores a 16-bit pixel whose two bytes are both `v` at pixel index
        `ptr` of the byte-addressed pixel buffer. */
    method WritePixel(ptr: nat, v: byte)
      requires Valid() && 2 * ptr + 1 < pixels.Length
      modifies pixels
      ensures pixels[..] == old(pixels[..])[2 * ptr := v][2 * ptr + 1 := v]
    {
      pixels[2 * ptr] := v;
      pixels[2 * ptr + 1] := v;
    }

    /** The text-mode drawing loop, with its counters and its reset branches
        as they are; the reset branches never run (see module Raster). */
    method DrawTerminal(font: Font)
      requires Valid() && IsFont(font) && layout.AsWrittenFits()
      modifies pixels
      ensures pixels[..] == AsWrittenRaster(old(pixels[..]), text[..], font, layout.terminalRows,
                                            layout.terminalColumns, layout.terminalWidth, 8 * layout.terminalRows)
    {
      var rows, columns, width := layout.terminalRows, layout.terminalColumns, layout.terminalWidth;
      ghost var before := pixels[..];
      var row: int, column: int := 0, 0;
      while row < rows && column < columns
        invariant 0 <= row <= rows && column == 0
        invariant columns == 0 ==> row == 0
        invariant pixels[..] == AsWrittenRaster(before, text[..], font, rows, columns, width, 8 * row)
      {
        DrawStep(before, text[..], font, rows, columns, width, layout.pixelBufferSize, row, 0);
        var character := text[(row * columns) + column];
        var x: int, y: int := 0, 0;
        while x < 8 && y < 8
          invariant 0 <= x <= 8 && y == 0 && column == 0
          invariant pixels[..] == AsWrittenRaster(before, text[..], font, rows, columns, width, 8 * row + x)
        {
          var lit := GlyphBit(font, character, x, y);
          var screenY, screenX := row * 8, column * 8;
          var ptr := ((screenY + x) * width) + screenX + y;
          DrawStep(before, text[..], font, rows, columns, width, layout.pixelBufferSize, row, x);
          WritePixel(ptr, PixelByte(lit));
          if x == 8 {
            x := 0;
            y := y + 1;
          }
          x := x + 1;
        }
        if row == rows {
          row := 0;
          column := column + 1;
        }
        row := row + 1;
      }
      if columns == 0 {
        AsWrittenNoColumns(before, text[..], font, rows, width, 0);
        AsWrittenNoColumns(before, text[..], font, rows, width, 8 * rows);
      }
    }

    /** Draws the text terminal when in text mode, then hands the whole pixel
        buffer (2 * pixelBufferSize bytes) to the display as `frame`. */
    method Render(font: Font) returns (frame: seq<byte>)
      requires Valid() && IsFont(font)
      requires ports[MODE_OFFSET] == TEXT_MODE ==> layout.AsWrittenFits()
      modifies pixels
      ensures ports[MODE_OFFSET] == TEXT_MODE ==>
        pixels[..] == AsWrittenRaster(old(pixels[..]), text[..], font, layout.terminalRows,
                                      layout.terminalColumns, layout.terminalWidth, 8 * layout.terminalRows)
      ensures ports[MODE_OFFSET] != TEXT_MODE ==> pixels[..] == old(pixels[..])
      ensures frame == pixels[..] && |frame| == 2 * layout.pixelBufferSize
    {
      if ports[MODE_OFFSET] == TEXT_MODE {
        DrawTerminal(font);
      }
      frame := pixels[..];
    }
  }
}
