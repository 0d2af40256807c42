/** Static virtual channel chunks: section 2.2.6.1 of [MS-RDPBCGR]. */
module VChannel {
  import opened Prelude
  import Mcs

  const CHANNEL_CHUNK_LENGTH := 1600
  const CHANNEL_FLAG_FIRST := 1
  const CHANNEL_FLAG_LAST := 2
  const CHANNEL_HEADER := 8

  function Flags(first: bool, last: bool): u32 {
    (if first then CHANNEL_FLAG_FIRST else 0) + if last then CHANNEL_FLAG_LAST else 0
  }

  /** A chunk of a message of `total` bytes; the header stores the total in 32 bits. */
  function Chunk(total: nat, flags: u32, part: bytes): (r: bytes)
    ensures |r| == CHANNEL_HEADER + |part|
  {
    U32Le(total % 0x1_0000_0000) + U32Le(flags) + part
  }

  function Wrapped(data: bytes): bytes {
    Chunk(|data|, Flags(true, true), data)
  }

  /** The chunks from `offset` on. */
  function ChunksFrom(data: bytes, offset: nat): seq<bytes>
    requires offset <= |data|
    decreases |data| - offset
  {
    if offset == |data| then []
    else
      var end := Min(offset + CHANNEL_CHUNK_LENGTH, |data|);
      [Chunk(|data|, Flags(offset == 0, end == |data|), data[offset..end])] + ChunksFrom(data, end)
  }

  function Chunks(data: bytes): seq<bytes> {
    if |data| <= CHANNEL_CHUNK_LENGTH then [Wrapped(data)] else ChunksFrom(data, 0)
  }

  method SplitIntoChunks(data: bytes) returns (chunks: seq<bytes>)
    ensures chunks == Chunks(data)
  {
    if |data| <= CHANNEL_CHUNK_LENGTH {
      return [Wrapped(data)];
    }
    chunks := [];
    var offset: nat := 0;
    while offset < |data|
      invariant offset <= |data|
      invariant chunks + ChunksFrom(data, offset) == Chunks(data)
    {
      var end: nat := Min(offset + CHANNEL_CHUNK_LENGTH, |data|);
      var flags: u32 := 0;
      if offset == 0 {
        flags := flags + CHANNEL_FLAG_FIRST;
      }
      if end == |data| {
        flags := flags + CHANNEL_FLAG_LAST;
      }
      var out := U32Le(|data| % 0x1_0000_0000);
      out := out + U32Le(flags);
      out := out + data[offset..end];
      chunks := chunks + [out];
      offset := end;
    }
  }

  // ----- The shape of the chunks -----

  /** How many chunks carry `n` bytes: ceil(n / 1600), and one for an empty message. */
  function ChunkCount(n: nat): nat {
    Max(1, (n + 1599) / 1600)
  }

  /** The k-th chunk of a message, written down directly. */
  function ChunkAt(data: bytes, k: nat): bytes
    requires 1600 * k <= |data|
  {
    var flags := (if k == 0 then 1 else 0) + if k == ChunkCount(|data|) - 1 then 2 else 0;
    U32Le(|data| % 0x1_0000_0000) + [flags, 0, 0, 0] + data[1600 * k..Min(1600 * (k + 1), |data|)]
  }

  lemma ChunkIsStandard(total: nat, first: bool, last: bool, part: bytes)
    ensures Chunk(total, Flags(first, last), part)
            == U32Le(total % 0x1_0000_0000) + [(if first then 1 else 0) + (if last then 2 else 0), 0, 0, 0] + part
  {
  }

  /** The chunk at `1600 * k` is the k-th, and the others follow. */
  lemma FirstChunk(data: bytes, k: nat)
    requires 1600 * k < |data|
    ensures ChunksFrom(data, 1600 * k) == [ChunkAt(data, k)] + ChunksFrom(data, Min(1600 * (k + 1), |data|))
  {
    hide Chunk, U32Le;
    var start, end: nat := 1600 * k, Min(1600 * (k + 1), |data|);
    ChunkIsStandard(|data|, k == 0, end == |data|, data[start..end]);
    LastChunk(|data|, k);
  }

  lemma LastChunk(n: nat, k: nat)
    requires 1600 * k < n
    ensures 1600 * (k + 1) >= n <==> k == ChunkCount(n) - 1
  {
  }

  /** The chunks from the k-th on, in order and complete. */
  ghost predicate ShapeFrom(chunks: seq<bytes>, data: bytes, k: nat) {
    && 1600 * k <= |data| && |chunks| == (|data| - 1600 * k + 1599) / 1600
    && forall j :: 0 <= j < |chunks| ==> 1600 * (k + j) <= |data| && chunks[j] == ChunkAt(data, k + j)
  }

  lemma ShapeNext(rest: seq<bytes>, data: bytes, k: nat)
    requires 1600 * k < |data|
    requires if 1600 * (k + 1) <= |data| then ShapeFrom(rest, data, k + 1) else rest == []
    ensures ShapeFrom([ChunkAt(data, k)] + rest, data, k)
  {
    hide ChunkAt;
    var all := [ChunkAt(data, k)] + rest;
    forall j | 0 <= j < |all|
      ensures 1600 * (k + j) <= |data| && all[j] == ChunkAt(data, k + j)
    {
      if j > 0 {
        assert all[j] == rest[j - 1] && k + j == k + 1 + (j - 1);
      }
    }
  }

  lemma {:induction false} ChunksFromShape(data: bytes, k: nat)
    requires 1600 * k <= |data|
    ensures ShapeFrom(ChunksFrom(data, 1600 * k), data, k)
    decreases |data| - 1600 * k
  {
    hide ChunkAt, ShapeFrom;
    NoChunks(data, k);
    if 1600 * k < |data| {
      FirstChunk(data, k);
      if 1600 * (k + 1) <= |data| {
        ChunksFromShape(data, k + 1);
      }
      ShapeNext(ChunksFrom(data, Min(1600 * (k + 1), |data|)), data, k);
    }
  }

  lemma NoChunks(data: bytes, k: nat)
    ensures ChunksFrom(data, |data|) == []
    ensures 1600 * k == |data| ==> ShapeFrom([], data, k)
  {
  }

  /** A message becomes max(1, ceil(n / 1600)) chunks; only the first is flagged FIRST and only the last LAST. */
  lemma ChunksShape(data: bytes)
    ensures |Chunks(data)| == ChunkCount(|data|)
    ensures forall k :: 0 <= k < |Chunks(data)| ==>
              CHANNEL_CHUNK_LENGTH * k <= |data| && Chunks(data)[k] == ChunkAt(data, k)
  {
    hide Chunk, ChunksFrom;
    if |data| > CHANNEL_CHUNK_LENGTH {
      ChunksFromShape(data, 0);
    } else {
      ChunkIsStandard(|data|, true, true, data);
      assert data[0..|data|] == data;
    }
  }

  /** Every chunk fits a Send Data PDU's length, so it crosses the MCS layer unharmed. */
  lemma ChunksCrossMcs(user: u16, channel: u16, data: bytes)
    ensures forall k :: 0 <= k < |Chunks(data)| ==>
              Mcs.Indicated(Mcs.AsIndication(Mcs.SendDataRequest(user, channel, Chunks(data)[k])))
                == Ok((channel, Chunks(data)[k]))
  {
    hide Mcs.Indicated, Mcs.SendDataRequest, Mcs.AsIndication, Chunks, Chunk;
    ChunksShape(data);
    forall k | 0 <= k < |Chunks(data)|
      ensures Mcs.Indicated(Mcs.AsIndication(Mcs.SendDataRequest(user, channel, Chunks(data)[k])))
              == Ok((channel, Chunks(data)[k]))
    {
      Mcs.IndicationReadsBack(user, channel, Chunks(data)[k]);
    }
  }

  // ----- Reassembly -----

  datatype Reassembly = Reassembly(buffer: bytes, expected: nat, inProgress: bool)

  /** One chunk: the whole message when it is flagged LAST. The declared total is remembered but never compared. */
  function Pushed(st: Reassembly, pdu: bytes): (Result<Option<bytes>>, Reassembly) {
    if |pdu| < CHANNEL_HEADER then (Err(Short(CHANNEL_HEADER, |pdu|)), st)
    else
      var total, flags, data := U32LeAt(pdu, 0), U32LeAt(pdu, 4), pdu[CHANNEL_HEADER..];
      var st := if flags % 2 == 1 then Reassembly([], total, true) else st;
      if !st.inProgress then (Err(Protocol(ChunkWithoutFirst)), st)
      else
        var all := st.buffer + data;
        if flags / 2 % 2 == 1 then (Ok(Some(all)), Reassembly([], st.expected, false))
        else (Ok(None), st.(buffer := all))
  }

  class Reassembler {
    var buffer: bytes
    var expected: nat
    var inProgress: bool

    ghost function View(): Reassembly
      reads this
    {
      Reassembly(buffer, expected, inProgress)
    }

    constructor ()
      ensures View() == Reassembly([], 0, false)
    {
      buffer, expected, inProgress := [], 0, false;
    }

    method Push(pdu: bytes) returns (r: Result<Option<bytes>>)
      modifies this
      ensures (r, View()) == Pushed(old(View()), pdu)
    {
      if |pdu| < CHANNEL_HEADER {
        return Err(Short(CHANNEL_HEADER, |pdu|));
      }
      var total := U32LeAt(pdu, 0);
      var flags := U32LeAt(pdu, 4);
      var data := pdu[CHANNEL_HEADER..];
      if flags % 2 == 1 {
        buffer := [];
        expected := total;
        inProgress := true;
      }
      if !inProgress {
        return Err(Protocol(ChunkWithoutFirst));
      }
      buffer := buffer + data;
      if flags / 2 % 2 == 1 {
        inProgress := false;
        var msg := buffer;
        buffer := [];
        return Ok(Some(msg));
      }
      r := Ok(None);
    }
  }

  /** What each of several chunks returns, and the state after them. */
  function PushedAll(st: Reassembly, pdus: seq<bytes>): (r: (seq<Result<Option<bytes>>>, Reassembly))
    ensures |r.0| == |pdus|
    decreases |pdus|
  {
    if pdus == [] then ([], st)
    else
      var (first, next) := Pushed(st, pdus[0]);
      var (others, last) := PushedAll(next, pdus[1..]);
      ([first] + others, last)
  }

  lemma PushedChunk(st: Reassembly, total: nat, first: bool, last: bool, part: bytes)
    ensures Pushed(st, Chunk(total, Flags(first, last), part))
            == var st := if first then Reassembly([], total % 0x1_0000_0000, true) else st;
               if !st.inProgress then (Err(Protocol(ChunkWithoutFirst)), st)
               else if last then (Ok(Some(st.buffer + part)), Reassembly([], st.expected, false))
               else (Ok(None), st.(buffer := st.buffer + part))
  {
    hide U32Le, U32LeAt;
    var pdu := Chunk(total, Flags(first, last), part);
    U32LeIn(pdu, 0, total % 0x1_0000_0000);
    U32LeIn(pdu, 4, Flags(first, last));
    assert pdu[CHANNEL_HEADER..] == part;
  }

  /** Nothing until the last chunk, then the message. */
  ghost predicate Delivers(results: seq<Result<Option<bytes>>>, message: bytes) {
    results != [] && results[|results| - 1] == Ok(Some(message))
    && forall k :: 0 <= k < |results| - 1 ==> results[k] == Ok(None)
  }

  lemma {:induction false} RestReassembles(st: Reassembly, data: bytes, offset: nat)
    requires 0 <= offset < |data|
    requires offset > 0 ==> st.inProgress && st.buffer == data[..offset] && st.expected == |data| % 0x1_0000_0000
    ensures var (results, after) := PushedAll(st, ChunksFrom(data, offset));
            Delivers(results, data) && after == Reassembly([], |data| % 0x1_0000_0000, false)
    decreases |data| - offset
  {
    hide Pushed, PushedAll, ChunksFrom, Delivers;
    var end: nat := Min(offset + CHANNEL_CHUNK_LENGTH, |data|);
    var chunk, next := NextChunk(st, data, offset, end);
    var rest := ChunksFrom(data, end);
    PushedFirst(st, chunk, rest);
    if end == |data| {
      NoMoreChunks(next, data);
    } else {
      RestReassembles(next, data, end);
    }
    DeliversLater(Pushed(st, chunk).0, PushedAll(next, rest).0, data);
  }

  /** Pushing the chunk at `offset`: nothing comes out until the last. */
  lemma NextChunk(st: Reassembly, data: bytes, offset: nat, end: nat) returns (chunk: bytes, next: Reassembly)
    requires offset < |data| && end == Min(offset + CHANNEL_CHUNK_LENGTH, |data|)
    requires offset > 0 ==> st.inProgress && st.buffer == data[..offset] && st.expected == |data| % 0x1_0000_0000
    ensures ChunksFrom(data, offset) == [chunk] + ChunksFrom(data, end)
    ensures Pushed(st, chunk) == (if end == |data| then Ok(Some(data)) else Ok(None), next)
    ensures ChunksFrom(data, end) == [] <==> end == |data|
    ensures next == Reassembly(if end == |data| then [] else data[..end], |data| % 0x1_0000_0000, end < |data|)
  {
    hide Pushed, Chunk;
    var part := data[offset..end];
    chunk := Chunk(|data|, Flags(offset == 0, end == |data|), part);
    PushedChunk(st, |data|, offset == 0, end == |data|, part);
    SliceJoins(data, 0, offset, end);
    assert offset == 0 ==> [] + part == data[..end];
    assert data[..|data|] == data;
    next := Reassembly(if end == |data| then [] else data[..end], |data| % 0x1_0000_0000, end < |data|);
  }

  lemma PushedFirst(st: Reassembly, chunk: bytes, rest: seq<bytes>)
    ensures var (first, next) := Pushed(st, chunk);
            PushedAll(st, [chunk] + rest) == ([first] + PushedAll(next, rest).0, PushedAll(next, rest).1)
  {
    hide Pushed;
    assert ([chunk] + rest)[1..] == rest;
  }

  lemma NoMoreChunks(st: Reassembly, data: bytes)
    ensures PushedAll(st, ChunksFrom(data, |data|)) == ([], st)
  {
  }

  lemma DeliversLater(first: Result<Option<bytes>>, others: seq<Result<Option<bytes>>>, message: bytes)
    requires if others == [] then first == Ok(Some(message)) else first == Ok(None) && Delivers(others, message)
    ensures Delivers([first] + others, message)
  {
  }

  /** From any prior state, a message of any size arrives whole with its last chunk and not before. */
  lemma MessageReassembles(st: Reassembly, data: bytes)
    ensures var (results, after) := PushedAll(st, Chunks(data));
            Delivers(results, data) && after == Reassembly([], |data| % 0x1_0000_0000, false)
  {
    hide Pushed, ChunksFrom, Chunk;
    if |data| <= CHANNEL_CHUNK_LENGTH {
      PushedChunk(st, |data|, true, true, data);
      assert [] + data == data;
      var next := Pushed(st, Wrapped(data)).1;
      assert Chunks(data)[1..] == [];
      assert PushedAll(next, []) == ([], next);
    } else {
      RestReassembles(st, data, 0);
    }
  }

  // ----- Many messages -----

  function ChunksOfAll(messages: seq<bytes>): seq<bytes> {
    if messages == [] then [] else Chunks(messages[0]) + ChunksOfAll(messages[1..])
  }

  function MessageIn(result: Result<Option<bytes>>): seq<bytes> {
    if result.Ok? && result.value.Some? then [result.value.value] else []
  }

  /** The messages that came out. */
  function Delivered(results: seq<Result<Option<bytes>>>): seq<bytes> {
    if results == [] then [] else MessageIn(results[0]) + Delivered(results[1..])
  }

  lemma {:induction false} PushedAppend(st: Reassembly, a: seq<bytes>, b: seq<bytes>)
    ensures PushedAll(st, a + b)
            == (PushedAll(st, a).0 + PushedAll(PushedAll(st, a).1, b).0, PushedAll(PushedAll(st, a).1, b).1)
    decreases |a|
  {
    hide Pushed;
    if a == [] {
      assert a + b == b;
      assert PushedAll(st, a).0 + PushedAll(st, b).0 == PushedAll(st, b).0;
    } else {
      var (first, next) := Pushed(st, a[0]);
      PushedAppend(next, a[1..], b);
      assert (a + b)[0] == a[0] && (a + b)[1..] == a[1..] + b;
      var middle := PushedAll(next, a[1..]);
      assert [first] + (middle.0 + PushedAll(middle.1, b).0) == ([first] + middle.0) + PushedAll(middle.1, b).0;
    }
  }

  lemma {:induction false} DeliveredAppend(a: seq<Result<Option<bytes>>>, b: seq<Result<Option<bytes>>>)
    ensures Delivered(a + b) == Delivered(a) + Delivered(b)
    decreases |a|
  {
    hide MessageIn;
    if a == [] {
      assert a + b == b;
    } else {
      DeliveredAppend(a[1..], b);
      assert a + b == [a[0]] + (a[1..] + b);
    }
  }

  lemma {:induction false} DeliveredOne(results: seq<Result<Option<bytes>>>, message: bytes)
    requires Delivers(results, message)
    ensures Delivered(results) == [message]
    decreases |results|
  {
    if |results| > 1 {
      DeliveredOne(results[1..], message);
    }
  }

  /** Messages sent one after the other, each in its chunks, come out in order and complete. */
  lemma {:induction false} MessagesReassemble(st: Reassembly, messages: seq<bytes>)
    ensures Delivered(PushedAll(st, ChunksOfAll(messages)).0) == messages
    decreases |messages|
  {
    hide Chunks, Pushed, PushedAll, Delivered;
    if messages == [] {
      NothingDelivered(st);
    } else {
      var first, others := Chunks(messages[0]), ChunksOfAll(messages[1..]);
      PushedAppend(st, first, others);
      MessageReassembles(st, messages[0]);
      var (results, after) := PushedAll(st, first);
      DeliveredAppend(results, PushedAll(after, others).0);
      DeliveredOne(results, messages[0]);
      MessagesReassemble(after, messages[1..]);
      assert messages == [messages[0]] + messages[1..];
    }
  }

  lemma NothingDelivered(st: Reassembly)
    ensures Delivered(PushedAll(st, []).0) == []
  {
  }

  // ----- Errors -----

  /** A chunk without its header changes nothing; nor does one that continues what was never begun. */
  lemma PushErrs(st: Reassembly, pdu: bytes)
    ensures |pdu| < 8 ==> Pushed(st, pdu) == (Err(Short(8, |pdu|)), st)
    ensures |pdu| >= 8 && U32LeAt(pdu, 4) % 2 == 0 && !st.inProgress ==>
              Pushed(st, pdu) == (Err(Protocol(ChunkWithoutFirst)), st)
  {
    hide U32LeAt;
  }
}
