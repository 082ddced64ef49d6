/** The datagram bridge: sealed packets in frames over a network that may drop, duplicate,
    reorder and forge them. */
module Datagram {
  import opened Wrappers
  import opened Bytes
  import opened Buffers
  import opened Frame
  import opened Replay
  import opened Session

  // ----- Packets -----

  function Packet(number: u32, ciphertext: bytes): bytes {
    Encode(FrameHeader(TYPE_L3_TUN_DATAGRAM, 0, 0, number)) + ciphertext
  }

  /** The number and ciphertext of a datagram; None if it is malformed or of another type. */
  function Parse(datagram: bytes): Option<(u32, bytes)> {
    match Decode(datagram)
    case Failure(_) => None
    case Success(h) =>
      if h.frameType != TYPE_L3_TUN_DATAGRAM then None else Some((h.seqNum, datagram[HEADER_SIZE..]))
  }

  /** The receiver recovers exactly the number and ciphertext that were framed. */
  lemma ParsePacket(number: u32, ciphertext: bytes)
    ensures Parse(Packet(number, ciphertext)) == Some((number, ciphertext))
  {
    DecodeEncoded(FrameHeader(TYPE_L3_TUN_DATAGRAM, 0, 0, number), ciphertext);
  }

  /** The packet byte by byte. */
  lemma PacketLayout(number: u32, ciphertext: bytes)
    ensures Packet(number, ciphertext)
         == [0x49, 0x01, 0x04, 0x00, 0x00, 0x00, number / 0x100_0000, number / 0x1_0000 % 0x100,
             number / 0x100 % 0x100, number % 0x100] + ciphertext
  {
    Layout(FrameHeader(TYPE_L3_TUN_DATAGRAM, 0, 0, number));
  }

  /** Which datagrams parse: those of ten bytes or more that begin with the magic byte, the
      version and the datagram type. All others are ignored. */
  lemma ParsesIff(datagram: bytes)
    ensures Parse(datagram).Some? <==>
              |datagram| >= 10 && datagram[0] == 0x49 && datagram[1] == 0x01 && datagram[2] == 0x04
    ensures Parse(datagram).Some? ==>
      var (number, ciphertext) := Parse(datagram).value;
      && U32ToBe(number) == datagram[6..10] && ciphertext == datagram[10..]
  {
    RefusedBecause(datagram);
    if Parse(datagram).Some? {
      U32RoundTrip(0, datagram[6..10]);
    }
  }

  // ----- One round of each loop -----

  /** A packet from the TUN device: sealed, framed and dispatched, unless sealing fails. */
  method SealAndFrame(tx: SessionTx, plaintext: bytes, fits: bool) returns (packet: Option<bytes>)
    modifies tx, tx.state.outgoing
    ensures tx.txSeq == Successor(old(tx.txSeq))
    ensures packet
         == if fits then Some(Packet(old(tx.txSeq), tx.state.outgoing.cipher(old(tx.txSeq), plaintext))) else None
    ensures tx.state.outgoing.sealed
         == if fits then old(tx.state.outgoing.sealed) + [Sealed(old(tx.txSeq), plaintext)]
            else old(tx.state.outgoing.sealed)
  {
    var r := tx.Encrypt(plaintext, fits);
    if r.Failure? {
      return None;
    }
    var (number, ciphertext) := r.value;
    var buf := new ByteBuffer();
    EncodeHeader(FrameHeader(TYPE_L3_TUN_DATAGRAM, 0, 0, number), buf);
    buf.PutSlice(ciphertext);
    assert buf.data == Packet(number, ciphertext);
    packet := Some(buf.data);
  }

  /** What a datagram does to the receiver: the numbers accepted after it, and the sealed message
      it delivers. */
  ghost function Receive(cipher: Cipher, sealed: seq<Sealed>, accepted: set<u64>, datagram: bytes):
    (r: (set<u64>, Option<nat>))
    ensures r.1.Some? ==> r.1.value < |sealed|
  {
    match Parse(datagram)
    case None => (accepted, None)
    case Some((number, ciphertext)) =>
      if !Admits(accepted, number) then (accepted, None)
      else (accepted + {number}, Open(cipher, sealed, number, ciphertext))
  }

  /** A datagram from the network: its plaintext goes to the TUN device if it opens. */
  method ParseAndOpen(rx: SessionRx, datagram: bytes) returns (plaintext: Option<bytes>)
    requires rx.Valid()
    modifies rx.replayFilter
    ensures rx.Valid()
    ensures var peer := rx.state.incoming;
            var (accepted, delivered) := Receive(peer.cipher, peer.sealed, old(rx.Accepted()), datagram);
            && rx.Accepted() == accepted
            && plaintext == if delivered.Some? then Some(peer.sealed[delivered.value].plaintext) else None
  {
    var cursor := new Cursor(datagram);
    var header := DecodeHeader(cursor);
    assert datagram[0..] == datagram;
    if header.Failure? {
      return None;
    }
    if header.value.frameType != TYPE_L3_TUN_DATAGRAM {
      return None;
    }
    var ciphertext := cursor.data[cursor.pos..];
    var r := rx.Decrypt(header.value.seqNum, ciphertext);
    plaintext := if r.Success? then Some(r.value) else None;
  }

  // ----- Whole runs over an arbitrary network -----

  /** A sender, a receiver and what lies between. `numbers` lists the number of every encrypt
      call, `sealed` what the successful ones sealed; `delivered` lists the messages delivered, as
      positions in `sealed`. */
  datatype Network = Network(
    txSeq: u32, numbers: seq<u32>, sealed: seq<Sealed>, accepted: set<u64>, delivered: seq<nat>)

  /** The network may present any bytes at any time: a sent packet late, twice or never, or one
      that nobody sent. */
  datatype Step = Send(plaintext: bytes, fits: bool) | Arrive(datagram: bytes)

  const START := Network(0, [], [], {}, [])

  ghost function Next(cipher: Cipher, w: Network, step: Step): Network {
    match step
    case Send(plaintext, fits) =>
      w.(txSeq := Successor(w.txSeq), numbers := w.numbers + [w.txSeq],
         sealed := if fits then w.sealed + [Sealed(w.txSeq, plaintext)] else w.sealed)
    case Arrive(datagram) =>
      var (accepted, message) := Receive(cipher, w.sealed, w.accepted, datagram);
      w.(accepted := accepted, delivered := if message.Some? then w.delivered + [message.value] else w.delivered)
  }

  ghost function Run(cipher: Cipher, steps: seq<Step>): Network {
    if steps == [] then START
    else Next(cipher, Run(cipher, steps[..|steps| - 1]), steps[|steps| - 1])
  }

  lemma RunNext(cipher: Cipher, steps: seq<Step>, step: Step)
    ensures Run(cipher, steps + [step]) == Next(cipher, Run(cipher, steps), step)
  {
    assert (steps + [step])[..|steps|] == steps;
  }

  ghost predicate Inv(w: Network) {
    && w.txSeq == |w.numbers| % U32_LIMIT
    && (forall i :: 0 <= i < |w.numbers| ==> w.numbers[i] == i % U32_LIMIT)
    && (forall j :: 0 <= j < |w.sealed| ==> w.sealed[j].nonce in w.numbers)
    && (forall k :: 0 <= k < |w.delivered| ==>
          w.delivered[k] < |w.sealed| && w.sealed[w.delivered[k]].nonce in w.accepted)
    && (forall k, l :: 0 <= k < l < |w.delivered| ==>
          w.sealed[w.delivered[k]].nonce != w.sealed[w.delivered[l]].nonce)
  }

  lemma SendKeepsInv(cipher: Cipher, w: Network, plaintext: bytes, fits: bool)
    requires Inv(w)
    ensures Inv(Next(cipher, w, Send(plaintext, fits)))
  {
    var w' := Next(cipher, w, Send(plaintext, fits));
    assert w'.numbers[|w.numbers|] == w.txSeq;
    forall j | 0 <= j < |w'.sealed|
      ensures w'.sealed[j].nonce in w'.numbers
    {
      if j < |w.sealed| {
        assert w.sealed[j].nonce in w.numbers;
      }
    }
  }

  lemma AcceptKeepsInv(w: Network, number: u64)
    requires Inv(w)
    ensures Inv(w.(accepted := w.accepted + {number}))
  {
  }

  lemma DeliverKeepsInv(w: Network, j: nat)
    requires Inv(w) && j < |w.sealed| && w.sealed[j].nonce !in w.accepted
    ensures Inv(w.(accepted := w.accepted + {w.sealed[j].nonce}, delivered := w.delivered + [j]))
  {
    AcceptKeepsInv(w, w.sealed[j].nonce);
  }

  lemma ArriveKeepsInv(cipher: Cipher, w: Network, datagram: bytes)
    requires Inv(w)
    ensures Inv(Next(cipher, w, Arrive(datagram)))
  {
    var parsed := Parse(datagram);
    if parsed.Some? && Admits(w.accepted, parsed.value.0) {
      var message := Open(cipher, w.sealed, parsed.value.0, parsed.value.1);
      if message.Some? {
        DeliverKeepsInv(w, message.value);
      } else {
        AcceptKeepsInv(w, parsed.value.0);
      }
    }
  }

  lemma {:induction false} InvHolds(cipher: Cipher, steps: seq<Step>)
    ensures Inv(Run(cipher, steps))
  {
    if steps != [] {
      var last := |steps| - 1;
      InvHolds(cipher, steps[..last]);
      match steps[last]
      case Send(plaintext, fits) => SendKeepsInv(cipher, Run(cipher, steps[..last]), plaintext, fits);
      case Arrive(datagram) => ArriveKeepsInv(cipher, Run(cipher, steps[..last]), datagram);
    }
  }

  /** The i-th encrypt call uses i modulo 2^32, failed calls included, so any 2^32 consecutive
      calls use different numbers. */
  lemma NonceFreshness(cipher: Cipher, steps: seq<Step>, i: nat, j: nat)
    requires i < j < |Run(cipher, steps).numbers| && j - i < 0x1_0000_0000
    ensures Run(cipher, steps).numbers[i] == i % 0x1_0000_0000
    ensures Run(cipher, steps).numbers[i] != Run(cipher, steps).numbers[j]
  {
    InvHolds(cipher, steps);
    ResiduesDiffer(i, j);
  }

  lemma ResiduesDiffer(i: nat, j: nat)
    requires i < j && j - i < U32_LIMIT
    ensures i % U32_LIMIT != j % U32_LIMIT
  {
  }

  /** The plaintexts handed to successful encrypt calls. */
  function Plaintexts(steps: seq<Step>): seq<bytes> {
    if steps == [] then []
    else
      var earlier := Plaintexts(steps[..|steps| - 1]);
      match steps[|steps| - 1]
      case Send(plaintext, fits) => if fits then earlier + [plaintext] else earlier
      case Arrive(_) => earlier
  }

  lemma {:induction false} SealedWereSent(cipher: Cipher, steps: seq<Step>)
    ensures |Run(cipher, steps).sealed| == |Plaintexts(steps)|
    ensures forall j :: 0 <= j < |Plaintexts(steps)| ==> Run(cipher, steps).sealed[j].plaintext == Plaintexts(steps)[j]
  {
    if steps != [] {
      SealedWereSent(cipher, steps[..|steps| - 1]);
    }
  }

  /** Whatever the network does, every delivery is of a message the sender encrypted. */
  lemma DeliveredWasSent(cipher: Cipher, steps: seq<Step>, k: nat)
    requires k < |Run(cipher, steps).delivered|
    ensures var w := Run(cipher, steps);
            && w.delivered[k] < |Plaintexts(steps)| == |w.sealed|
            && w.sealed[w.delivered[k]].plaintext == Plaintexts(steps)[w.delivered[k]]
  {
    InvHolds(cipher, steps);
    SealedWereSent(cipher, steps);
  }

  /** No encrypt call's message is delivered twice, nor are two messages of the same number; also
      once the sender's numbers have wrapped around. */
  lemma AtMostOnceDelivery(cipher: Cipher, steps: seq<Step>, k: nat, l: nat)
    requires k < l < |Run(cipher, steps).delivered|
    ensures var w := Run(cipher, steps);
            && w.delivered[k] < |w.sealed| && w.delivered[l] < |w.sealed|
            && w.delivered[k] != w.delivered[l]
            && w.sealed[w.delivered[k]].nonce != w.sealed[w.delivered[l]].nonce
  {
    InvHolds(cipher, steps);
  }

  function PacketOf(cipher: Cipher, s: Sealed): bytes
    requires s.nonce < U32_LIMIT
  {
    Packet(s.nonce, cipher(s.nonce, s.plaintext))
  }

  /** A datagram delivers a message only if it is, after the flags and stream bytes the receiver
      does not look at, that message's packet: same number, same ciphertext. */
  lemma ForgeriesAreNotDelivered(cipher: Cipher, sealed: seq<Sealed>, accepted: set<u64>, datagram: bytes)
    requires Receive(cipher, sealed, accepted, datagram).1.Some?
    ensures var s := sealed[Receive(cipher, sealed, accepted, datagram).1.value];
            s.nonce < U32_LIMIT && Parse(datagram) == Parse(PacketOf(cipher, s))
  {
    var s := sealed[Receive(cipher, sealed, accepted, datagram).1.value];
    ParsePacket(s.nonce, cipher(s.nonce, s.plaintext));
  }

  /** With a cipher that can be decrypted, a packet identifies its message. */
  lemma PacketIdentifiesMessage(cipher: Cipher, s: Sealed, t: Sealed)
    requires Injective(cipher) && s.nonce < U32_LIMIT && t.nonce < U32_LIMIT
    requires Parse(PacketOf(cipher, s)) == Parse(PacketOf(cipher, t))
    ensures s == t
  {
    ParsePacket(s.nonce, cipher(s.nonce, s.plaintext));
    ParsePacket(t.nonce, cipher(t.nonce, t.plaintext));
    assert cipher(s.nonce, s.plaintext) == cipher(s.nonce, t.plaintext);
  }

  // ----- What arrivals, genuine and forged, do to the window -----

  function Arrivals(steps: seq<Step>): seq<bytes> {
    if steps == [] then []
    else
      var earlier := Arrivals(steps[..|steps| - 1]);
      match steps[|steps| - 1]
      case Send(_, _) => earlier
      case Arrive(datagram) => earlier + [datagram]
  }

  function NumberOf(datagram: bytes): u32 {
    match Parse(datagram)
    case Some((number, _)) => number
    case None => 0
  }

  ghost predicate IsSentPacket(cipher: Cipher, sealed: seq<Sealed>, datagram: bytes) {
    exists j :: 0 <= j < |sealed| && sealed[j].nonce < U32_LIMIT && datagram == PacketOf(cipher, sealed[j])
  }

  /** A genuine packet delivers its message exactly if the replay window admits its number. */
  lemma GenuineReceive(cipher: Cipher, sealed: seq<Sealed>, accepted: set<u64>, datagram: bytes)
    requires IsSentPacket(cipher, sealed, datagram)
    ensures var (accepted', message) := Receive(cipher, sealed, accepted, datagram);
            var number := NumberOf(datagram);
            && accepted' == (if Admits(accepted, number) then accepted + {number} else accepted)
            && (message.Some? <==> Admits(accepted, number))
            && (message.Some? ==>
                  sealed[message.value].nonce == number && datagram == PacketOf(cipher, sealed[message.value]))
  {
    var j :| 0 <= j < |sealed| && sealed[j].nonce < U32_LIMIT && datagram == PacketOf(cipher, sealed[j]);
    var number, ciphertext := sealed[j].nonce, cipher(sealed[j].nonce, sealed[j].plaintext);
    ParsePacket(number, ciphertext);
    assert IsSealing(cipher, sealed[j], number, ciphertext);
  }

  /** The numbers of the datagrams that parse, genuine or forged. */
  function ParsedNumbers(datagrams: seq<bytes>): seq<u64> {
    if datagrams == [] then []
    else
      var earlier := ParsedNumbers(datagrams[..|datagrams| - 1]);
      match Parse(datagrams[|datagrams| - 1])
      case Some((number, _)) => earlier + [number]
      case None => earlier
  }

  /** In every run the window is that of all numbers that arrived in a well-formed frame, whether
      or not the frame was genuine. */
  lemma {:induction false} WindowOfAllArrivals(cipher: Cipher, steps: seq<Step>)
    ensures Run(cipher, steps).accepted == AcceptedBy(ParsedNumbers(Arrivals(steps)))
  {
    if steps != [] {
      var front, step := steps[..|steps| - 1], steps[|steps| - 1];
      WindowOfAllArrivals(cipher, front);
      if step.Arrive? {
        var earlier := Arrivals(front);
        assert (earlier + [step.datagram])[..|earlier|] == earlier;
        if Parse(step.datagram).Some? {
          AcceptedByNext(ParsedNumbers(earlier), NumberOf(step.datagram));
        }
      }
    }
  }

  /** After any run, forged frames included, a genuine packet that arrives next delivers its
      message if and only if its number has not arrived before and none that is 128 or more above
      it has; and then it delivers that very message. */
  lemma GenuineArrivalDelivers(cipher: Cipher, steps: seq<Step>, datagram: bytes)
    requires IsSentPacket(cipher, Run(cipher, steps).sealed, datagram)
    ensures var w, w' := Run(cipher, steps), Run(cipher, steps + [Arrive(datagram)]);
            var numbers, number := ParsedNumbers(Arrivals(steps)), NumberOf(datagram);
            if forall i :: 0 <= i < |numbers| ==> numbers[i] != number && numbers[i] < number + 128
            then |w'.delivered| == |w.delivered| + 1 && w'.delivered[..|w.delivered|] == w.delivered
                 && var j := w'.delivered[|w.delivered|];
                 j < |w.sealed| && w.sealed[j].nonce < U32_LIMIT && datagram == PacketOf(cipher, w.sealed[j])
            else w'.delivered == w.delivered
  {
    var w := Run(cipher, steps);
    RunNext(cipher, steps, Arrive(datagram));
    WindowOfAllArrivals(cipher, steps);
    GenuineReceive(cipher, w.sealed, w.accepted, datagram);
    AdmitsIff(ParsedNumbers(Arrivals(steps)), NumberOf(datagram));
  }

  /** A forged frame that arrives first uses up the number of a genuine packet, which is then not
      delivered; without the forged frame it is. */
  lemma ForgedFrameUsesUpANumber(cipher: Cipher, plaintext: bytes, forged: bytes)
    requires forged != cipher(0, plaintext)
    ensures var genuine := Packet(0, cipher(0, plaintext));
            && Run(cipher, [Send(plaintext, true), Arrive(Packet(0, forged)), Arrive(genuine)]).delivered == []
            && Run(cipher, [Send(plaintext, true), Arrive(genuine)]).delivered == [0]
  {
    var genuine := Packet(0, cipher(0, plaintext));
    var send, forgery, arrival := Send(plaintext, true), Arrive(Packet(0, forged)), Arrive(genuine);
    ParsePacket(0, forged);
    ParsePacket(0, cipher(0, plaintext));
    RunNext(cipher, [], send);
    RunNext(cipher, [send], forgery);
    RunNext(cipher, [send, forgery], arrival);
    RunNext(cipher, [send], arrival);
    assert [] + [send] == [send] && [send] + [forgery] == [send, forgery] && [send] + [arrival] == [send, arrival];
    assert [send, forgery] + [arrival] == [send, forgery, arrival];
    assert Run(cipher, [send]).sealed == [Sealed(0, plaintext)];
    assert Run(cipher, [send, forgery]).accepted == {0};
  }

  // ----- No loss when only genuine packets arrive -----

  /** The datagrams that arrive are packets sealed earlier: no forged frame is processed. */
  ghost predicate OnlyGenuine(cipher: Cipher, steps: seq<Step>) {
    forall k :: 0 <= k < |steps| && steps[k].Arrive? ==>
      IsSentPacket(cipher, Run(cipher, steps[..k]).sealed, steps[k].datagram)
  }

  function Numbers(datagrams: seq<bytes>): (r: seq<u64>)
    ensures |r| == |datagrams|
  {
    seq(|datagrams|, i requires 0 <= i < |datagrams| => NumberOf(datagrams[i]))
  }

  /** The messages delivered are those of the arrivals, in order of arrival. */
  ghost predicate DeliversAll(cipher: Cipher, w: Network, arrivals: seq<bytes>) {
    && |w.delivered| == |arrivals|
    && forall k :: 0 <= k < |arrivals| ==>
         && w.delivered[k] < |w.sealed| && w.sealed[w.delivered[k]].nonce < U32_LIMIT
         && arrivals[k] == PacketOf(cipher, w.sealed[w.delivered[k]])
  }

  ghost predicate AllAnsweredTrue(calls: seq<u64>) {
    forall k :: 0 <= k < |calls| ==> AnsweredTrue(calls, k)
  }

  ghost predicate Tracks(cipher: Cipher, w: Network, arrivals: seq<bytes>) {
    && w.accepted == AcceptedBy(Numbers(arrivals))
    && |w.delivered| <= |arrivals|
    && (|w.delivered| == |arrivals| <==> AllAnsweredTrue(Numbers(arrivals)))
    && (|w.delivered| == |arrivals| ==> DeliversAll(cipher, w, arrivals))
  }

  lemma AllAnsweredTrueSnoc(calls: seq<u64>, last: u64)
    ensures AllAnsweredTrue(calls + [last]) <==> AllAnsweredTrue(calls) && Admits(AcceptedBy(calls), last)
    ensures AcceptedBy(calls + [last])
         == if Admits(AcceptedBy(calls), last) then AcceptedBy(calls) + {last} else AcceptedBy(calls)
  {
    var all := calls + [last];
    assert all[..|calls|] == calls;
    forall k | 0 <= k < |calls|
      ensures AnsweredTrue(all, k) == AnsweredTrue(calls, k)
    {
      assert all[..k] == calls[..k];
    }
    assert AnsweredTrue(all, |calls|) == Admits(AcceptedBy(calls), last);
    if AllAnsweredTrue(all) {
      forall k | 0 <= k < |calls|
        ensures AnsweredTrue(calls, k)
      {
        assert AnsweredTrue(all, k);
      }
    }
  }

  lemma OneMoreDelivery(cipher: Cipher, w: Network, w': Network, arrivals: seq<bytes>, datagram: bytes, j: nat)
    requires DeliversAll(cipher, w, arrivals) && w'.sealed == w.sealed && w'.delivered == w.delivered + [j]
    requires j < |w.sealed| && w.sealed[j].nonce < U32_LIMIT && datagram == PacketOf(cipher, w.sealed[j])
    ensures DeliversAll(cipher, w', arrivals + [datagram])
  {
  }

  lemma GenuineArrival(cipher: Cipher, w: Network, arrivals: seq<bytes>, datagram: bytes)
    requires Tracks(cipher, w, arrivals) && IsSentPacket(cipher, w.sealed, datagram)
    ensures Tracks(cipher, Next(cipher, w, Arrive(datagram)), arrivals + [datagram])
  {
    var w', number := Next(cipher, w, Arrive(datagram)), NumberOf(datagram);
    var (_, message) := Receive(cipher, w.sealed, w.accepted, datagram);
    GenuineReceive(cipher, w.sealed, w.accepted, datagram);
    assert Numbers(arrivals + [datagram]) == Numbers(arrivals) + [number];
    AllAnsweredTrueSnoc(Numbers(arrivals), number);
    if message.Some? && |w.delivered| == |arrivals| {
      OneMoreDelivery(cipher, w, w', arrivals, datagram, message.value);
    }
  }

  lemma {:induction false} GenuineRunTracks(cipher: Cipher, steps: seq<Step>)
    requires OnlyGenuine(cipher, steps)
    ensures Tracks(cipher, Run(cipher, steps), Arrivals(steps))
  {
    if steps != [] {
      var front := steps[..|steps| - 1];
      assert OnlyGenuine(cipher, front) by {
        forall k | 0 <= k < |front| && front[k].Arrive?
          ensures IsSentPacket(cipher, Run(cipher, front[..k]).sealed, front[k].datagram)
        {
          assert front[..k] == steps[..k] && steps[k] == front[k];
        }
      }
      GenuineRunTracks(cipher, front);
      var step := steps[|steps| - 1];
      if step.Arrive? {
        GenuineArrival(cipher, Run(cipher, front), Arrivals(front), step.datagram);
      }
    }
  }

  /** When only genuine packets arrive, every arrival delivers its message if and only if the
      arrivals are orderly: no number twice and none after one that is 128 or more larger. */
  lemma NoLossIffOrderlyArrivals(cipher: Cipher, steps: seq<Step>)
    requires OnlyGenuine(cipher, steps)
    ensures DeliversAll(cipher, Run(cipher, steps), Arrivals(steps)) <==> Orderly(Numbers(Arrivals(steps)))
  {
    GenuineRunTracks(cipher, steps);
    NoLossIffOrderly(Numbers(Arrivals(steps)));
  }
}
