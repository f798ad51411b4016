/** The memory bank's access path, `get`, `put` and `access`: an access
    goes to the first registered device whose range holds the address, or
    to the bank's own buffer when none does. The devices are the display
    adapter's callbacks, so this part needs both the bank and the adapter. */
module Bus {
  import opened MemoryBank
  import opened VideoAdapter

  /** Everything an access can observe or change: the bank's buffer and
      device list, and the adapter's buffers. */
  datatype Machine = Machine(buffer: seq<byte>, devices: seq<MMIODevice>, video: VideoState)

  /** The access touches memory that exists: the bank's buffer when no
      device covers the address, otherwise the owning device's buffer. */
  predicate InRange(m: Machine, layout: Layout, address: u32) {
    match FirstCovering(m.devices, address)
    case None => address < |m.buffer|
    case Some(i) => CallbackInRange(m.devices[i].accessFunc, m.video, layout, address)
  }

  /** `access(address, &data, get)`: returns the new machine and the new
      content of the data slot. */
  function Accessed(m: Machine, layout: Layout, address: u32, data: byte, get: bool): (r: (Machine, byte))
    requires InRange(m, layout, address)
    ensures r.0.devices == m.devices
    ensures FirstCovering(m.devices, address).Some? ==> r.0.buffer == m.buffer
    ensures FirstCovering(m.devices, address).None? ==>
      && r.0.video == m.video
      && |r.0.buffer| == |m.buffer|
      && r.1 == r.0.buffer[address] == (if get then m.buffer[address] else data)
      && forall b :: 0 <= b < |m.buffer| && b != address ==> r.0.buffer[b] == m.buffer[b]
  {
    match FirstCovering(m.devices, address)
    case None =>
      var (buffer, out) := AccessByte(m.buffer, address, data, get);
      (m.(buffer := buffer), out)
    case Some(i) =>
      var (video, out) := Callback(m.devices[i].accessFunc, m.video, layout, address, data, get);
      (m.(video := video), out)
  }

  /** The byte a read at `address` yields, independently of the access path:
      None for a pixel read outside pixel mode, which yields nothing. */
  function Read(m: Machine, layout: Layout, address: u32): (r: Option<byte>)
    requires InRange(m, layout, address)
    ensures FirstCovering(m.devices, address).None? ==> r == Some(m.buffer[address])
    ensures r.None? <==>
      && FirstCovering(m.devices, address).Some?
      && m.devices[FirstCovering(m.devices, address).value].accessFunc == PixelDevice
      && Mode(m.video.ports) != PIXEL_MODE
  {
    match FirstCovering(m.devices, address)
    case None => Some(m.buffer[address])
    case Some(i) =>
      match m.devices[i].accessFunc
      case PortDevice => Some(m.video.ports[address - layout.videoPortsStart])
      case TextDevice => Some(m.video.text[address - layout.textStart])
      case PixelDevice =>
        if Mode(m.video.ports) == PIXEL_MODE
        then Some(m.video.pixels[PixelIndex(layout, address, Bank(m.video.ports))])
        else None
  }

  /** `access(a, data, true)` changes nothing and stores into the data slot
      what a read at `a` yields, or leaves the slot alone when the read
      yields nothing. */
  lemma AccessReadIsRead(m: Machine, layout: Layout, address: u32, slot: byte)
    requires InRange(m, layout, address)
    ensures Accessed(m, layout, address, slot, true)
         == (m, match Read(m, layout, address) case Some(b) => b case None => slot)
  {
    match FirstCovering(m.devices, address)
    case None =>
    case Some(i) =>
  }

  /** With no device covering `address`, `get` after `put(address, d)` returns
      `d`; the put changes that byte of the buffer only, and neither the
      device list nor any device buffer. */
  lemma PlainPutThenGet(m: Machine, layout: Layout, address: u32, d: byte)
    requires FirstCovering(m.devices, address).None? && address < |m.buffer|
    ensures
      var w := Accessed(m, layout, address, d, false).0;
      && w == m.(buffer := m.buffer[address := d])
      && InRange(w, layout, address)
      && Read(w, layout, address) == Some(d)
  {
  }

  /** Inside a registered region the access goes wholly to the region's
      callback: the bank's buffer is not touched. */
  lemma DeviceOwnsAccess(m: Machine, layout: Layout, address: u32, data: byte, get: bool)
    requires InRange(m, layout, address) && FirstCovering(m.devices, address).Some?
    ensures
      var kind := m.devices[FirstCovering(m.devices, address).value].accessFunc;
      var cb := Callback(kind, m.video, layout, address, data, get);
      Accessed(m, layout, address, data, get) == (Machine(m.buffer, m.devices, cb.0), cb.1)
  {
  }

  /** Overlap: when devices i < j both cover `address` and none before i
      does, the access is served by device i's callback and never by j's. */
  lemma FirstRegisteredWins(m: Machine, layout: Layout, address: u32, i: nat, j: nat, data: byte, get: bool)
    requires i < j < |m.devices|
    requires m.devices[i].Covers(address) && m.devices[j].Covers(address)
    requires forall k :: 0 <= k < i ==> !m.devices[k].Covers(address)
    requires CallbackInRange(m.devices[i].accessFunc, m.video, layout, address)
    ensures FirstCovering(m.devices, address) == Some(i) && InRange(m, layout, address)
    ensures
      var cb := Callback(m.devices[i].accessFunc, m.video, layout, address, data, get);
      Accessed(m, layout, address, data, get) == (m.(video := cb.0), cb.1)
  {
  }

  // ---------------------------------------------------------------------
  // The adapter's three regions on an otherwise empty bank.

  predicate Apart(a: MMIODevice, b: MMIODevice) {
    a.endAddress < b.startAddress || b.endAddress < a.startAddress
  }

  /** The three regions do not overlap, and the ports and text regions are
      exactly as large as the buffers behind them. */
  predicate RegionsFit(layout: Layout, s: VideoState) {
    var r := Regions(layout);
    && Apart(r[0], r[1]) && Apart(r[0], r[2]) && Apart(r[1], r[2])
    && |s.ports| == PORTS_SIZE
    && layout.videoPortsEnd - layout.videoPortsStart + 1 == |s.ports|
    && layout.textEnd - layout.textStart + 1 == |s.text|
  }

  /** Text round trip through the bus: with the adapter's regions registered,
      a `put` into the text region followed by a `get` at the same address
      returns the byte, and only that text cell changes. */
  lemma TextThroughBus(m: Machine, layout: Layout, address: u32, d: byte)
    requires m.devices == Regions(layout) && RegionsFit(layout, m.video)
    requires layout.textStart <= address <= layout.textEnd
    ensures FirstCovering(m.devices, address) == Some(1) && InRange(m, layout, address)
    ensures
      var w := Accessed(m, layout, address, d, false).0;
      && w == m.(video := m.video.(text := m.video.text[address - layout.textStart := d]))
      && InRange(w, layout, address)
      && Read(w, layout, address) == Some(d)
  {
    var r := Regions(layout);
    var k := FirstCovering(m.devices, address);
    assert r[1].Covers(address);
    assert k.Some? && k.value <= 1;
    assert !r[0].Covers(address);
  }

  /** Mode gating through the bus: in text mode a `put` into the pixel region
      changes nothing; once `put` stores PIXEL_MODE into the mode register,
      a pixel `put` followed by a `get` at the same address returns the byte. */
  lemma PixelModeThroughBus(m: Machine, layout: Layout, address: u32, d: byte)
    requires m.devices == Regions(layout) && RegionsFit(layout, m.video)
    requires Mode(m.video.ports) == TEXT_MODE
    requires layout.pixelsStart <= address <= layout.pixelsEnd
    requires PixelIndex(layout, address, Bank(m.video.ports)) < |m.video.pixels|
    ensures InRange(m, layout, address) && Accessed(m, layout, address, d, false).0 == m
    ensures
      var modePort := layout.videoPortsStart + MODE_OFFSET;
      var pm := Accessed(m, layout, modePort, PIXEL_MODE, false).0;
      && InRange(pm, layout, address)
      && Mode(pm.video.ports) == PIXEL_MODE
      && var w := Accessed(pm, layout, address, d, false).0;
         InRange(w, layout, address) && Read(w, layout, address) == Some(d)
  {
    var r := Regions(layout);
    var modePort := layout.videoPortsStart + MODE_OFFSET;
    assert r[0].Covers(modePort);
    assert FirstCovering(m.devices, modePort) == Some(0);
    assert r[2].Covers(address) && !r[0].Covers(address) && !r[1].Covers(address);
    assert FirstCovering(m.devices, address) == Some(2);
  }

  // ---------------------------------------------------------------------
  // The bank and the adapter as objects.

  /** The adapter is well formed and its buffers are not the bank's. */
  ghost predicate Wired(mem: Memory, va: VideoAdapter) {
    va.Valid() && mem.buffer != va.ports && mem.buffer != va.text && mem.buffer != va.pixels
  }

  function Snapshot(mem: Memory, va: VideoAdapter): Machine
    reads mem, mem.buffer, va.ports, va.text, va.pixels
  {
    Machine(mem.buffer[..], mem.devices, va.State())
  }

  /** `Memory::access`: dispatches to the owning device or to the buffer. */
  method Access(mem: Memory, va: VideoAdapter, address: u32, data: byte, get: bool) returns (out: byte)
    requires Wired(mem, va) && InRange(Snapshot(mem, va), va.layout, address)
    modifies mem.buffer, va.ports, va.text, va.pixels
    ensures (Snapshot(mem, va), out) == Accessed(old(Snapshot(mem, va)), va.layout, address, data, get)
  {
    match FirstCovering(mem.devices, address)
    case None =>
      if get {
        out := mem.buffer[address];
      } else {
        mem.buffer[address] := data;
        out := data;
      }
    case Some(i) =>
      match mem.devices[i].accessFunc
      case PortDevice => out := va.AccessPort(address, data, get);
      case TextDevice => out := va.AccessText(address, data, get);
      case PixelDevice => out := va.AccessPixel(address, data, get);
  }

  /** `Memory::get`: an access with get set, through a result variable whose
      initial content is unknown. Assumed, since the body of `get` is not
      available: a dropped pixel read returns that content. */
  method Get(mem: Memory, va: VideoAdapter, address: u32) returns (d: byte)
    requires Wired(mem, va) && InRange(Snapshot(mem, va), va.layout, address)
    modifies mem.buffer, va.ports, va.text, va.pixels
    ensures Snapshot(mem, va) == old(Snapshot(mem, va))
    ensures Read(Snapshot(mem, va), va.layout, address).Some? ==> Read(Snapshot(mem, va), va.layout, address) == Some(d)
  {
    var result: byte := *;
    AccessReadIsRead(Snapshot(mem, va), va.layout, address, result);
    d := Access(mem, va, address, result, true);
  }

  /** `Memory::put`: an access with get clear. */
  method Put(mem: Memory, va: VideoAdapter, address: u32, d: byte)
    requires Wired(mem, va) && InRange(Snapshot(mem, va), va.layout, address)
    modifies mem.buffer, va.ports, va.text, va.pixels
    ensures Snapshot(mem, va) == Accessed(old(Snapshot(mem, va)), va.layout, address, d, false).0
  {
    var _ := Access(mem, va, address, d, false);
  }
}
