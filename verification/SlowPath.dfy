/** The slow-path stack: TPKT, X.224 data, MCS Send Data, share control and share data. */
module SlowPath {
  import opened Prelude
  import Tpkt
  import X224
  import Mcs
  import SharePdu

  /** A data PDU as a server sends it to a channel. */
  function Packet(user: u16, channel: u16, source: u16, shareId: u32, pduType2: byte, body: bytes): Result<bytes> {
    Tpkt.Encoded(X224.Wrapped(Mcs.AsIndication(
      Mcs.SendDataRequest(user, channel, SharePdu.ShareData(source, shareId, pduType2, body)))))
  }

  /** Channel, type and body of a data PDU, through every layer. */
  function Unwrapped(packet: bytes): Result<(u16, byte, bytes)> {
    var tpdu :- Tpkt.Decoded(packet);
    var pdu :- X224.Unwrapped(tpdu);
    var (channel, share) :- Mcs.Indicated(pdu);
    var (header, data) :- SharePdu.ParsedControl(share);
    var (pduType2, body) :- SharePdu.ParsedData(data);
    Ok((channel, pduType2, body))
  }

  /** Size of a data PDU and of the X.224 payload it becomes. */
  lemma Sizes(user: u16, channel: u16, source: u16, shareId: u32, pduType2: byte, body: bytes)
    ensures |SharePdu.ShareData(source, shareId, pduType2, body)| == |body| + 18
    ensures var n := |body| + 18;
            |X224.Wrapped(Mcs.AsIndication(Mcs.SendDataRequest(user, channel,
              SharePdu.ShareData(source, shareId, pduType2, body))))|
            == n + 9 + if n < 0x80 then 1 else if n < 0x4000 then 2 else 3
  {
    hide SharePdu.ShareData, U16Be;
    SharePdu.DataSize(source, shareId, pduType2, body);
  }

  /**
   Through the whole stack the same channel, type and body come back exactly when the share PDU is shorter
   than 0x4000 bytes. A longer one is refused, never misread: by the PER reader, or already by the TPKT
   writer when it does not fit a packet.
   */
  lemma StackRoundTrip(user: u16, channel: u16, source: u16, shareId: u32, pduType2: byte, body: bytes)
    ensures var share := |SharePdu.ShareData(source, shareId, pduType2, body)|;
            var packet := Packet(user, channel, source, shareId, pduType2, body);
            && (packet.Ok? <==> share + 12 <= Tpkt.MAX_TPKT_PAYLOAD)
            && (packet.Ok? ==>
                  Unwrapped(packet.value)
                  == if share < 0x4000 then Ok((channel, pduType2, body)) else Err(Protocol(FragmentedPerLength)))
            && (packet.Err? ==> packet.error == Protocol(TpktTooLong))
  {
    hide Tpkt.Decoded, X224.Unwrapped, Mcs.Indicated, SharePdu.ParsedControl, SharePdu.ParsedData, SharePdu.ShareData,
      Mcs.SendDataRequest, Mcs.AsIndication, X224.Wrapped;
    Sizes(user, channel, source, shareId, pduType2, body);
    var share := SharePdu.ShareData(source, shareId, pduType2, body);
    var request := Mcs.SendDataRequest(user, channel, share);
    var pdu := Mcs.AsIndication(request);
    var tpdu := X224.Wrapped(pdu);
    if |tpdu| <= Tpkt.MAX_TPKT_PAYLOAD {
      Tpkt.PacketReadsBack(tpdu, []);
      assert Tpkt.Encoded(tpdu).value + [] == Tpkt.Encoded(tpdu).value;
      X224.WrappedReadsBack(pdu);
      Mcs.IndicationReadsBack(user, channel, share);
      if |share| < 0x4000 {
        SharePdu.DataReadsBack(source, shareId, pduType2, body);
      }
    }
  }
}
