/** The 512-byte mix packet: three nested layers of authenticated encryption and their peeling.

    Nonces and padding noise, which the source draws at random, are parameters. */
module MixPacket {
  import opened Bytes
  import opened Wrappers
  import opened Aeads

  const MIX_PACKET_SIZE := 512
  const MIX_HOP_OVERHEAD := 17   // 4 bytes of epoch, 1 of hop counter, 12 of nonce
  const EPOCH_LEN := 4
  const NONCE_LEN := 12
  const CAPACITY := MIX_PACKET_SIZE - 3 * MIX_HOP_OVERHEAD - 3 * TAG_SIZE

  datatype Error = TooLarge | SizeMismatch | TooSmall | Rejected

  datatype Hop = Hop(key: seq<Byte>, nonce: seq<Byte>) {
    predicate Valid() { |nonce| == NONCE_LEN }
  }

  /** What a hop prepends to its ciphertext. */
  function Framed(epoch: seq<Byte>, hopsLeft: Byte, nonce: seq<Byte>, ciphertext: seq<Byte>): seq<Byte> {
    epoch + [hopsLeft] + nonce + ciphertext
  }

  /** One layer: encrypt for the hop and frame. */
  function Wrap(aead: Aead, hop: Hop, epoch: seq<Byte>, hopsLeft: Byte, inner: seq<Byte>): seq<Byte> {
    Framed(epoch, hopsLeft, hop.nonce, aead.seal(hop.key, hop.nonce, [], inner))
  }

  /** Reads the counter, the nonce and the ciphertext at their offsets and decrypts. */
  function Peel(aead: Aead, key: seq<Byte>, data: seq<Byte>): Result<(Byte, seq<Byte>), Error> {
    if |data| < MIX_HOP_OVERHEAD then Err(TooSmall)
    else
      match aead.open(key, data[5..17], [], data[17..])
      case Some(plaintext) => Ok((data[4], plaintext))
      case None => Err(Rejected)
  }

  /** The payload filled up with noise. */
  function Inner(payload: seq<Byte>, noise: nat -> Byte): (p: seq<Byte>)
    requires |payload| <= CAPACITY
    ensures |p| == CAPACITY && payload <= p
  {
    payload + seq(CAPACITY - |payload|, i requires i >= 0 => noise(i))
  }

  /** Wrapping and peeling one layer. The layer costs 33 bytes. */
  lemma PeelUndoesWrap(aead: Aead, hop: Hop, epoch: seq<Byte>, hopsLeft: Byte, inner: seq<Byte>)
    requires aead.Correct() && hop.Valid() && |epoch| == EPOCH_LEN
    ensures |Wrap(aead, hop, epoch, hopsLeft, inner)| == |inner| + MIX_HOP_OVERHEAD + TAG_SIZE
    ensures Peel(aead, hop.key, Wrap(aead, hop, epoch, hopsLeft, inner)) == Ok((hopsLeft, inner))
  {
    var ct := aead.seal(hop.key, hop.nonce, [], inner);
    var data := Wrap(aead, hop, epoch, hopsLeft, inner);
    assert data[5..17] == hop.nonce && data[17..] == ct;
  }

  /** What lies where in a layer: the epoch in bytes 0 to 3, the hop counter in byte 4, the nonce in bytes 5 to 16,
      and from byte 17 on the inner layer, sealed under the hop's key and nonce with no associated data. */
  lemma LayerLayout(aead: Aead, hop: Hop, epoch: seq<Byte>, hopsLeft: Byte, inner: seq<Byte>)
    requires hop.Valid() && |epoch| == 4
    ensures var data := Wrap(aead, hop, epoch, hopsLeft, inner);
            && |hop.nonce| == 12 && |data| >= 17
            && data[..4] == epoch && data[4] == hopsLeft && data[5..17] == hop.nonce
            && data[17..] == aead.seal(hop.key, hop.nonce, [], inner)
  {
    var data := Wrap(aead, hop, epoch, hopsLeft, inner);
    assert data[5..17] == hop.nonce && data[17..] == aead.seal(hop.key, hop.nonce, [], inner);
  }

  /** When peeling fails: too small exactly below 17 bytes, rejected exactly when the cipher does not open what follows
      them; otherwise it yields byte 4 and the opened rest. */
  lemma PeelExact(aead: Aead, key: seq<Byte>, data: seq<Byte>)
    ensures Peel(aead, key, data) == Err(TooSmall) <==> |data| < 17
    ensures |data| >= 17 ==>
              match aead.open(key, data[5..17], [], data[17..])
              case None => Peel(aead, key, data) == Err(Rejected)
              case Some(inner) => Peel(aead, key, data) == Ok((data[4], inner))
  {
  }

  /** `build`: exit, middle, guard, in that order. */
  method Build(aead: Aead, payload: seq<Byte>, guard: Hop, middle: Hop, exit: Hop, epoch: seq<Byte>, noise: nat -> Byte)
      returns (r: Result<seq<Byte>, Error>)
    requires aead.Correct() && guard.Valid() && middle.Valid() && exit.Valid() && |epoch| == EPOCH_LEN
    ensures r.Ok? <==> |payload| <= 413
    ensures r.Err? ==> r == Err(TooLarge)
    ensures r.Ok? ==> |r.value| == 512 && r.value == Onion(aead, payload, guard, middle, exit, epoch, noise)
  {
    if |payload| > CAPACITY {
      return Err(TooLarge);
    }
    PeelUndoesWrap(aead, exit, epoch, 0, Inner(payload, noise));
    PeelUndoesWrap(aead, middle, epoch, 1, Wrap(aead, exit, epoch, 0, Inner(payload, noise)));
    PeelUndoesWrap(aead, guard, epoch, 2, Wrap(aead, middle, epoch, 1, Wrap(aead, exit, epoch, 0, Inner(payload, noise))));
    var inner := payload;
    var pad := CAPACITY - |inner|;
    if pad > 0 {
      inner := inner + seq(pad, i requires i >= 0 => noise(i));
    }
    assert inner == Inner(payload, noise);
    var ct3 := aead.seal(exit.key, exit.nonce, [], inner);
    var pt2 := epoch + [0] + exit.nonce + ct3;
    var ct2 := aead.seal(middle.key, middle.nonce, [], pt2);
    var pt1 := epoch + [1] + middle.nonce + ct2;
    var ct1 := aead.seal(guard.key, guard.nonce, [], pt1);
    var packet := epoch + [2] + guard.nonce + ct1;
    if |packet| != MIX_PACKET_SIZE {
      return Err(SizeMismatch);
    }
    r := Ok(packet);
  }

  function Onion(aead: Aead, payload: seq<Byte>, guard: Hop, middle: Hop, exit: Hop, epoch: seq<Byte>, noise: nat -> Byte): seq<Byte>
    requires |payload| <= CAPACITY
  {
    Wrap(aead, guard, epoch, 2, Wrap(aead, middle, epoch, 1, Wrap(aead, exit, epoch, 0, Inner(payload, noise))))
  }

  /** The three hops, peeling in order with their own keys, read the counters 2, 1, 0; the sizes shrink by 33
      each time, from 512 to 413; and what the exit is left with starts with the payload. */
  lemma OnionRoundTrip(aead: Aead, payload: seq<Byte>, guard: Hop, middle: Hop, exit: Hop, epoch: seq<Byte>, noise: nat -> Byte)
    requires aead.Correct() && guard.Valid() && middle.Valid() && exit.Valid() && |epoch| == EPOCH_LEN
    requires |payload| <= CAPACITY
    ensures var packet := Onion(aead, payload, guard, middle, exit, epoch, noise);
            && CAPACITY == 413 && |packet| == 512
            && exists pt1, pt2, inner ::
                 && Peel(aead, guard.key, packet) == Ok((2, pt1)) && |pt1| == 479
                 && Peel(aead, middle.key, pt1) == Ok((1, pt2)) && |pt2| == 446
                 && Peel(aead, exit.key, pt2) == Ok((0, inner)) && |inner| == CAPACITY && payload <= inner
  {
    var inner := Inner(payload, noise);
    var pt2 := Wrap(aead, exit, epoch, 0, inner);
    var pt1 := Wrap(aead, middle, epoch, 1, pt2);
    PeelUndoesWrap(aead, exit, epoch, 0, inner);
    PeelUndoesWrap(aead, middle, epoch, 1, pt2);
    PeelUndoesWrap(aead, guard, epoch, 2, pt1);
  }
}
