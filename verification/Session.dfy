/** The two halves of an encrypted session: a sender that numbers its messages and a receiver that
    checks the number against the replay window before it opens anything. */
module Session {
  import opened Wrappers
  import opened Bytes
  import opened Replay

  /** The ciphertext of a plaintext under a nonce. */
  type Cipher = (u64, bytes) -> bytes

  /** Under one nonce, different plaintexts have different ciphertexts. */
  ghost predicate Injective(cipher: Cipher) {
    forall nonce: u64, p: bytes, q: bytes :: cipher(nonce, p) == cipher(nonce, q) ==> p == q
  }

  datatype Sealed = Sealed(nonce: u64, plaintext: bytes)

  predicate IsSealing(cipher: Cipher, s: Sealed, nonce: u64, ciphertext: bytes) {
    s.nonce == nonce && cipher(nonce, s.plaintext) == ciphertext
  }

  /** Ideal opening: succeeds exactly on a nonce and ciphertext that were really sealed. */
  function Open(cipher: Cipher, sealed: seq<Sealed>, nonce: u64, ciphertext: bytes): (r: Option<nat>)
    ensures r.Some? ==> r.value < |sealed| && IsSealing(cipher, sealed[r.value], nonce, ciphertext)
    ensures r.None? ==> forall j :: 0 <= j < |sealed| ==> !IsSealing(cipher, sealed[j], nonce, ciphertext)
  {
    if sealed == [] then None
    else
      var last := |sealed| - 1;
      if IsSealing(cipher, sealed[last], nonce, ciphertext) then Some(last)
      else Open(cipher, sealed[..last], nonce, ciphertext)
  }

  /** What one side sends to the other: the cipher under that direction's key, and the messages
      sealed with it so far. It belongs to both sides, as the outgoing direction of one and the
      incoming direction of the other. */
  class Direction {
    const cipher: Cipher
    var sealed: seq<Sealed>

    constructor (cipher: Cipher)
      ensures this.cipher == cipher && sealed == []
    {
      this.cipher := cipher;
      sealed := [];
    }
  }

  /** One side's transport, which its two halves share, as an ideal authenticated cipher. */
  class Transport {
    const outgoing: Direction
    const incoming: Direction

    constructor (outgoing: Direction, incoming: Direction)
      ensures this.outgoing == outgoing && this.incoming == incoming
    {
      this.outgoing := outgoing;
      this.incoming := incoming;
    }

    /** `fits` says whether the message is within the length limits of the library. */
    method WriteMessage(nonce: u64, plaintext: bytes, fits: bool) returns (r: Option<bytes>)
      modifies outgoing
      ensures r == if fits then Some(outgoing.cipher(nonce, plaintext)) else None
      ensures outgoing.sealed
           == if fits then old(outgoing.sealed) + [Sealed(nonce, plaintext)] else old(outgoing.sealed)
    {
      if !fits {
        return None;
      }
      outgoing.sealed := outgoing.sealed + [Sealed(nonce, plaintext)];
      r := Some(outgoing.cipher(nonce, plaintext));
    }

    method ReadMessage(nonce: u64, ciphertext: bytes) returns (r: Option<bytes>)
      ensures var j := Open(incoming.cipher, incoming.sealed, nonce, ciphertext);
              r == if j.Some? then Some(incoming.sealed[j.value].plaintext) else None
    {
      var j := Open(incoming.cipher, incoming.sealed, nonce, ciphertext);
      r := if j.Some? then Some(incoming.sealed[j.value].plaintext) else None;
    }
  }

  datatype SessionError = EncryptionFailed | DroppedByReplayFilter(number: u32) | DecryptionFailed

  function Successor(x: u32): u32 {
    (x + 1) % U32_LIMIT
  }

  class SessionTx {
    const state: Transport
    var txSeq: u32

    constructor (state: Transport)
      ensures this.state == state && txSeq == 0
    {
      this.state := state;
      txSeq := 0;
    }

    /** Takes the next number, also when the encryption then fails. */
    method Encrypt(plaintext: bytes, fits: bool) returns (r: Result<(u32, bytes), SessionError>)
      modifies this, state.outgoing
      ensures txSeq == Successor(old(txSeq))
      ensures r == if fits then Success((old(txSeq), state.outgoing.cipher(old(txSeq), plaintext)))
                   else Failure(EncryptionFailed)
      ensures state.outgoing.sealed
           == if fits then old(state.outgoing.sealed) + [Sealed(old(txSeq), plaintext)]
              else old(state.outgoing.sealed)
    {
      var number := txSeq;
      txSeq := if txSeq == U32_LIMIT - 1 then 0 else txSeq + 1;
      var ciphertext := state.WriteMessage(number, plaintext, fits);
      r := if ciphertext.Some? then Success((number, ciphertext.value)) else Failure(EncryptionFailed);
    }
  }

  class SessionRx {
    const state: Transport
    const replayFilter: ReplayFilter

    ghost predicate Valid()
      reads replayFilter
    {
      replayFilter.Valid()
    }

    ghost function Accepted(): set<u64>
      reads replayFilter
    {
      replayFilter.accepted
    }

    constructor (state: Transport)
      ensures this.state == state && fresh(replayFilter) && Valid() && Accepted() == {}
    {
      this.state := state;
      replayFilter := new ReplayFilter();
    }

    /** Marks the number first: it counts as accepted whether or not the opening succeeds. */
    method Decrypt(number: u32, ciphertext: bytes) returns (r: Result<bytes, SessionError>)
      requires Valid()
      modifies replayFilter
      ensures Valid()
      ensures Accepted() == if Admits(old(Accepted()), number) then old(Accepted()) + {number} else old(Accepted())
      ensures r == if !Admits(old(Accepted()), number) then Failure(DroppedByReplayFilter(number))
                   else
                     var j := Open(state.incoming.cipher, state.incoming.sealed, number, ciphertext);
                     if j.Some? then Success(state.incoming.sealed[j.value].plaintext) else Failure(DecryptionFailed)
    {
      var ok := replayFilter.CheckAndMark(number);
      if !ok {
        return Failure(DroppedByReplayFilter(number));
      }
      var plaintext := state.ReadMessage(number, ciphertext);
      r := if plaintext.Some? then Success(plaintext.value) else Failure(DecryptionFailed);
    }
  }

  method SplitSession(transport: Transport) returns (tx: SessionTx, rx: SessionRx)
    ensures fresh(tx) && fresh(rx) && fresh(rx.replayFilter) && rx.Valid()
    ensures tx.state == transport && rx.state == transport
    ensures tx.txSeq == 0 && rx.Accepted() == {}
  {
    tx := new SessionTx(transport);
    rx := new SessionRx(transport);
  }

  /** What was sealed opens to what was sealed, and to nothing else. */
  lemma OpensTo(cipher: Cipher, sealed: seq<Sealed>, i: nat)
    requires Injective(cipher) && i < |sealed|
    ensures var j := Open(cipher, sealed, sealed[i].nonce, cipher(sealed[i].nonce, sealed[i].plaintext));
            j.Some? && sealed[j.value] == sealed[i]
  {
    var j := Open(cipher, sealed, sealed[i].nonce, cipher(sealed[i].nonce, sealed[i].plaintext));
    assert IsSealing(cipher, sealed[i], sealed[i].nonce, cipher(sealed[i].nonce, sealed[i].plaintext));
    assert cipher(sealed[i].nonce, sealed[j.value].plaintext) == cipher(sealed[i].nonce, sealed[i].plaintext);
  }
}
