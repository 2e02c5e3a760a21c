/** Bytes, little-endian integers and the EFI status codes shared by every component. */
module Bytes {

  type byte = b: int | 0 <= b < 0x100
  type uint16 = w: int | 0 <= w < 0x1_0000
  type uint32 = d: int | 0 <= d < 0x1_0000_0000

  datatype Option<+T> = None | Some(value: T)

  datatype EfiStatus =
    | Success
    | InvalidParameter
    | Unsupported
    | BadBufferSize
    | BufferTooSmall
    | NotReady
    | DeviceError
    | OutOfResources
    | NotFound
    | Timeout
    | NotStarted
    | AlreadyStarted
    | ProtocolError
    | SecurityViolation

  /** The completion code of a command that was carried out (section 5.2 of the IPMI v2.0
      specification). */
  const COMP_NORMAL: byte := 0x00

  /** Least significant byte first, as every multi-byte IPMI field is stored. */
  function Le16(w: uint16): (s: seq<byte>)
    ensures |s| == 2
  {
    [w % 0x100, w / 0x100]
  }

  function FromLe16(s: seq<byte>): uint16
    requires |s| == 2
  {
    s[0] as int + 0x100 * (s[1] as int)
  }

  function Le32(d: uint32): (s: seq<byte>)
    ensures |s| == 4
  {
    Le16(d % 0x1_0000) + Le16(d / 0x1_0000)
  }

  function FromLe32(s: seq<byte>): uint32
    requires |s| == 4
  {
    FromLe16(s[..2]) as int + 0x1_0000 * (FromLe16(s[2..]) as int)
  }

  lemma Le16RoundTrip(w: uint16)
    ensures FromLe16(Le16(w)) == w
  {
  }

  lemma Le32RoundTrip(d: uint32)
    ensures FromLe32(Le32(d)) == d
  {
    assert Le32(d)[..2] == Le16(d % 0x1_0000);
    assert Le32(d)[2..] == Le16(d / 0x1_0000);
  }

  // ---- Bits ----

  predicate Bit(a: nat, k: nat) {
    if k == 0 then a % 2 == 1 else Bit(a / 2, k - 1)
  }

  /** The bits of `flags` that are not in the mask. */
  function Cleared(flags: byte, mask: byte): (c: byte)
    ensures c <= flags
  {
    if flags == 0 then 0
    else 2 * Cleared(flags / 2, mask / 2) + if flags % 2 == 1 && mask % 2 == 0 then 1 else 0
  }

  lemma {:induction false} ClearedBits(flags: byte, mask: byte, k: nat)
    ensures Bit(Cleared(flags, mask), k) <==> Bit(flags, k) && !Bit(mask, k)
    decreases k
  {
    if flags == 0 { NoBits(k); } else if k > 0 { ClearedBits(flags / 2, mask / 2, k - 1); }
  }

  lemma {:induction false} NoBits(k: nat)
    ensures !Bit(0, k)
  {
    if k > 0 { NoBits(k - 1); }
  }

  // ---- Buffers ----

  /** Copy n bytes between buffers, which may be the same one. */
  method CopyMem(data: array<byte>, offset: nat, buffer: array<byte>, from: nat, n: nat)
    requires offset + n <= data.Length && from + n <= buffer.Length
    modifies data
    ensures data[..offset + n] == old(data[..offset]) + old(buffer[from..from + n])
    ensures forall i :: offset + n <= i < data.Length ==> data[i] == old(data[i])
  {
    forall i | 0 <= i < n { data[offset + i] := buffer[from + i]; }
  }

  method ZeroMem(data: array<byte>)
    modifies data
    ensures forall i :: 0 <= i < data.Length ==> data[i] == 0
  {
    forall i | 0 <= i < data.Length { data[i] := 0; }
  }

  /** Write a sequence into a buffer. */
  method StoreMem(data: array<byte>, offset: nat, bytes: seq<byte>)
    requires offset + |bytes| <= data.Length
    modifies data
    ensures data[..offset + |bytes|] == old(data[..offset]) + bytes
    ensures forall i :: offset + |bytes| <= i < data.Length ==> data[i] == old(data[i])
  {
    forall i | 0 <= i < |bytes| { data[offset + i] := bytes[i]; }
  }
}
