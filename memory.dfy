/** The memory bank: a byte buffer plus a registration-ordered list of
    memory-mapped IO devices that intercept accesses to their address range.
    Only the declaration of the bank is available, so the behaviour below is
    the one its documentation comments describe; the lookup order among
    overlapping devices (first registered wins) is a modelling assumption. */
module MemoryBank {

  type byte = bv8

  /** The bank's addresses are 32-bit unsigned integers. */
  type u32 = x: int | 0 <= x < 0x1_0000_0000

  datatype Option<T> = None | Some(value: T)

  /** The access function of a device. The bank stores a function pointer;
      the only pointers ever registered are the display adapter's three
      callbacks, so the pointer becomes a tag naming one of them. */
  datatype DeviceKind = PortDevice | TextDevice | PixelDevice

  /** One registered device: an address range and its callback. The bank's
      declaration names a start and an end address without saying whether
      the end belongs to the range; the model takes it as inclusive. */
  datatype MMIODevice = MMIODevice(startAddress: u32, endAddress: u32, accessFunc: DeviceKind)
  {
    predicate Covers(address: u32) {
      startAddress <= address <= endAddress
    }
  }

  /** The device that owns an access to `address`: the first one, in
      registration order, whose range contains it (None: no device does,
      and the access goes to the bank's own buffer). */
  function FirstCovering(devices: seq<MMIODevice>, address: u32): (r: Option<nat>)
    ensures r.Some? ==> r.value < |devices| && devices[r.value].Covers(address)
    ensures r.Some? ==> forall j :: 0 <= j < r.value ==> !devices[j].Covers(address)
    ensures r.None? <==> forall j :: 0 <= j < |devices| ==> !devices[j].Covers(address)
  {
    if |devices| == 0 then None
    else if devices[0].Covers(address) then Some(0)
    else match FirstCovering(devices[1..], address)
      case None => None
      case Some(i) => Some(i + 1)
  }

  /** A read (`get`) or write (`!get`) of cell `i` of `buf` through a data
      slot, as a bidirectional access callback performs it: a read copies the
      cell into the slot, a write copies the slot into the cell. Returns the
      new buffer and the new content of the slot. */
  function AccessByte(buf: seq<byte>, i: nat, data: byte, get: bool): (r: (seq<byte>, byte))
    requires i < |buf|
    ensures |r.0| == |buf|
    ensures r.1 == r.0[i]
    ensures r.0[i] == if get then buf[i] else data
    ensures forall j :: 0 <= j < |buf| && j != i ==> r.0[j] == buf[j]
  {
    if get then (buf, buf[i]) else (buf[i := data], data)
  }

  /** A write followed by a read of the same cell yields the written byte,
      and the read leaves the buffer as the write left it. */
  lemma AccessByteRoundTrip(buf: seq<byte>, i: nat, data: byte, slot: byte)
    requires i < |buf|
    ensures AccessByte(AccessByte(buf, i, data, false).0, i, slot, true)
         == (buf[i := data], data)
  {
  }

  /** The device list after `RemoveMMIOD(id)`: the device at position `id`
      is erased and the others keep their order, so every device registered
      after it moves down one position; an id that names no device leaves
      the list as it is. */
  function Unregistered(devices: seq<MMIODevice>, id: int): (r: seq<MMIODevice>)
    ensures 0 <= id < |devices| ==> |r| + 1 == |devices|
    ensures 0 <= id < |devices| ==> forall j :: 0 <= j < id ==> r[j] == devices[j]
    ensures 0 <= id < |devices| ==> forall j :: id < j < |devices| ==> r[j - 1] == devices[j]
    ensures !(0 <= id < |devices|) ==> r == devices
  {
    if 0 <= id < |devices| then devices[..id] + devices[id + 1..] else devices
  }

  /** Removing a device by the id its registration returned restores the
      device list as it was before that registration. */
  lemma RegisterThenUnregister(devices: seq<MMIODevice>, device: MMIODevice)
    ensures Unregistered(devices + [device], |devices|) == devices
  {
    assert (devices + [device])[..|devices|] == devices;
  }

  /** Registering a device never takes an address away from the device that
      owned it before; the new device receives only the addresses that no
      earlier device covers. */
  lemma {:induction false} RegisterKeepsOwner(devices: seq<MMIODevice>, device: MMIODevice, address: u32)
    ensures FirstCovering(devices + [device], address)
         == match FirstCovering(devices, address)
            case Some(i) => Some(i)
            case None => if device.Covers(address) then Some(|devices|) else None
  {
    if |devices| > 0 && !devices[0].Covers(address) {
      assert (devices + [device])[1..] == devices[1..] + [device];
      RegisterKeepsOwner(devices[1..], device, address);
    }
  }

  /** A memory bank. `buffer` is `memory_buffer`; `devices` is the
      `MMIODevices` vector, in registration order. */
  class Memory {
    const buffer: array<byte>
    var devices: seq<MMIODevice>

    /** A bank of `size` bytes, addresses 0 to size - 1, with no devices. */
    constructor (size: u32)
      ensures fresh(buffer) && buffer.Length == size
      ensures devices == []
    {
      buffer := new byte[size];
      devices := [];
    }

    /** Appends `device` to the device list and returns its id, the position
        it was stored at. */
    method AddMMIOD(device: MMIODevice) returns (id: int)
      modifies this
      ensures devices == old(devices) + [device]
      ensures 0 <= id < |devices| && devices[id] == device && id == |old(devices)|
    {
      id := |devices|;
      devices := devices + [device];
    }

    /** Removes the device with identifier `id`; an unknown id is ignored. */
    method RemoveMMIOD(id: int)
      modifies this
      ensures devices == Unregistered(old(devices), id)
    {
      if 0 <= id < |devices| {
        devices := devices[..id] + devices[id + 1..];
      }
    }
  }
}
