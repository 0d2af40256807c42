/**
 What a server reads and prints during the connection sequence, in the bytes of sections 2.2.1.5 to 2.2.1.9 and
 2.2.8.1.1 of [MS-RDPBCGR], without the client's own functions.
 */
module RdpServer {
  import opened Prelude

  /** The MCS requests a client sends, as a server understands them. */
  datatype Request =
    | ErectDomain
    | AttachUser
    | JoinChannel(user: u16, channel: u16)
    | SendData(user: u16, channel: u16, data: bytes)

  /** Sixteen bits, high byte first. */
  function Word(b: bytes, i: nat): u16
    requires i + 2 <= |b|
  {
    0x100 * b[i] as int + b[i + 1] as int
  }

  function Bytes(v: u16): (r: bytes)
    ensures |r| == 2
  {
    [v / 0x100, v % 0x100]
  }

  /** User ids travel as their offset from 1001, modulo 2^16. */
  function UserAt(b: bytes, i: nat): u16
    requires i + 2 <= |b|
  {
    (Word(b, i) + 1001) % 0x1_0000
  }

  function WireUser(user: u16): (r: bytes)
    ensures |r| == 2
  {
    Bytes(if user >= 1001 then user - 1001 else user + 0x1_0000 - 1001)
  }

  /** A length in one byte below 0x80, in two below 0x4000. */
  function Sized(data: bytes): (r: bytes)
    requires |data| < 0x4000
  {
    (if |data| < 0x80 then [|data|] else [0x80 + |data| / 0x100, |data| % 0x100]) + data
  }

  /** The data behind its length; nothing may follow it. */
  function Unsized(b: bytes): Option<bytes> {
    if b == [] then None
    else if b[0] < 0x80 then if |b| == 1 + b[0] as int then Some(b[1..]) else None
    else if b[0] < 0xC0 && |b| >= 2 && |b| == 2 + 0x100 * (b[0] as int - 0x80) + b[1] as int then Some(b[2..])
    else None
  }

  /** The first byte is the number of the request, shifted left by two. */
  function ReadRequest(pdu: bytes): Option<Request> {
    if pdu == [0x04, 1, 0, 1, 0] then Some(ErectDomain)
    else if pdu == [0x28] then Some(AttachUser)
    else if |pdu| == 5 && pdu[0] == 0x38 then Some(JoinChannel(UserAt(pdu, 1), Word(pdu, 3)))
    else if |pdu| >= 6 && pdu[0] == 0x64 && pdu[5] == 0x70 then
      match Unsized(pdu[6..])
      case Some(data) => Some(SendData(UserAt(pdu, 1), Word(pdu, 3), data))
      case None => None
    else None
  }

  // ----- What it prints -----

  function AttachConfirm(user: u16): bytes {
    [0x2E, 0] + WireUser(user)
  }

  /** The answer to a join: the channel asked for, confirmed. */
  function JoinConfirm(user: u16, channel: u16): bytes {
    [0x3E, 0] + WireUser(user) + Bytes(channel) + Bytes(channel)
  }

  function Indication(user: u16, channel: u16, data: bytes): bytes
    requires |data| < 0x4000
  {
    [0x68] + WireUser(user) + Bytes(channel) + [0x70] + Sized(data)
  }

  // ----- Share control PDUs -----

  /** Sixteen bits, low byte first. */
  function Low(v: u16): (r: bytes)
    ensures |r| == 2
  {
    [v % 0x100, v / 0x100]
  }

  /** Total length, type with the protocol version 1 above it, source. */
  function Share(kind: u16, source: u16, body: bytes): bytes
    requires kind < 0x10 && |body| + 6 < 0x1_0000
  {
    Low(|body| + 6) + Low(0x10 + kind) + Low(source) + body
  }

  /** Share id, padding, stream priority low, length from the second type on, second type, no compression. */
  function Data(source: u16, shareId: u32, kind: byte, body: bytes): bytes
    requires |body| + 18 < 0x1_0000
  {
    Share(7, source, U32Le(shareId) + [0, 1] + Low(|body| + 4) + [kind, 0, 0, 0] + body)
  }

  function Joined(parts: seq<bytes>): bytes {
    if parts == [] then [] else Joined(parts[..|parts| - 1]) + parts[|parts| - 1]
  }

  /** Originator 0x03EA, the source descriptor with its length, the length and number of the capability sets. */
  function ConfirmActive(user: u16, shareId: u32, sets: seq<bytes>): bytes
    requires |Joined(sets)| + 26 < 0x1_0000 && |sets| < 0x1_0000
  {
    Share(3, user, U32Le(shareId) + [0xEA, 0x03, 6, 0] + Low(|Joined(sets)| + 4) + [0x4D, 0x53, 0x54, 0x53, 0x43, 0]
                   + Low(|sets|) + [0, 0] + Joined(sets))
  }

  /** What a client sends on the I/O channel once it has joined its channels, ending with the finalization PDUs. */
  function ClosingPayloads(user: u16, info: bytes, shareId: u32, sets: seq<bytes>): (r: seq<bytes>)
    requires |Joined(sets)| + 26 < 0x1_0000 && |sets| < 0x1_0000
    ensures |r| == 6
  {
    [info, ConfirmActive(user, shareId, sets),
     Data(user, shareId, 31, [1, 0, 0xEB, 0x03]),
     Data(user, shareId, 20, [4, 0, 0, 0, 0, 0, 0, 0]),
     Data(user, shareId, 20, [1, 0, 0, 0, 0, 0, 0, 0]),
     Data(user, shareId, 39, [0, 0, 0, 0, 3, 0, 0x32, 0])]
  }
}
