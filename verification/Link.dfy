/**
 The encrypted link: the adapter as the host knows it, a port with such an adapter behind
 it, and the handshake that installs a key. The adapter answers OPEN with a new key and
 then encrypts; a second OPEN turns encryption off again; a plaintext frame without
 payload returns it to plaintext from anywhere.
 */
module Link {
  import opened Prelude
  import opened Codec
  import opened Inner
  import opened Framing

  datatype Adapter = Plain | Keyed(key: Bytes)

  function ResetFrame(): Bytes {
    EncodePlain([]).value
  }

  function IdentFrame(): Bytes {
    EncodePlain(Build(Identify).value).value
  }

  /** What a written frame does to the adapter; `nextKey` is the key it would announce. */
  function AfterFrame(c: Cipher, a: Adapter, frame: Bytes, nextKey: Bytes): Adapter {
    if frame == ResetFrame() then Plain
    else if frame == IdentFrame() then (if a.Plain? then Keyed(nextKey) else Plain)
    else
      var payload := if a.Plain? then DecodePlain(frame) else DecodedEncrypted(c, a.key, frame);
      if payload.Err? || |payload.value| < 3 then a
      else if payload.value[2] == OPEN then (if a.Plain? then Keyed(nextKey) else Plain)
      else if payload.value[2] == CLOSE_SESSION then Plain
      else a
  }

  function ChallengeIn(frame: Bytes): Result<Bytes, CodecError> {
    var payload := DecodePlain(frame);
    if payload.Err? then Err(payload.error) else ParseChallenge(payload.value)
  }

  /** What stands between the length and the checksum of a plain frame, if it is one. */
  predicate IsPlain(frame: Bytes) {
    |frame| >= 3 && EncodePlain(frame[2..|frame| - 1]) == Ok(frame)
  }

  /** The adapter's answer to an OPEN that turned encryption on: count, command and key, with anything behind them. */
  predicate Challenges(frame: Bytes, key: Bytes) {
    IsPlain(frame) && |key| == 8 && [0x09, 0x00, 0x01] + key <= frame[2..|frame| - 1]
  }

  /** A plain frame with the count of a challenge in its first byte and room for the rest of one. */
  predicate LooksLikeChallenge(frame: Bytes) {
    IsPlain(frame) && |frame| >= 14 && frame[2] == 0x09
  }

  /** A key is read from every challenge, and it is the one announced; none is read from what does not look like one. */
  lemma ChallengeRead(frame: Bytes)
    ensures ChallengeIn(frame).Ok? <==> LooksLikeChallenge(frame)
    ensures forall key :: Challenges(frame, key) ==> ChallengeIn(frame) == Ok(key) && LooksLikeChallenge(frame)
  {
    hide DecodePlain, EncodePlain;
    if |frame| >= 3 {
      PlainLayout(frame[2..|frame| - 1], frame);
    }
    if ChallengeIn(frame).Ok? {
      PlainExactly(frame, DecodePlain(frame).value);
    }
    forall key | Challenges(frame, key) ensures ChallengeIn(frame) == Ok(key) && |frame| >= 14 && frame[2] == 0x09 {
      var payload := frame[2..|frame| - 1];
      assert payload[..11] == [0x09, 0x00, 0x01] + key && payload[3..11] == payload[..11][3..];
    }
  }

  lemma HandshakeFrames()
    ensures |ResetFrame()| == 3 && |IdentFrame()| == 12
    ensures DecodePlain(IdentFrame()) == Build(Identify) && Build(Identify).value[2] == OPEN
  {
    var inner := Build(Identify).value;
    assert |inner| == 9;
    PlainRoundTrip(inner);
    OnlyIdentifyOpens(Identify);
  }

  /** The two frames of the handshake as captured from the vendor's driver, up to their checksums. */
  lemma CapturedFrames()
    ensures |ResetFrame()| == 3 && ResetFrame()[..2] == [0x03, 0x00]
    ensures |IdentFrame()| == 12
    ensures IdentFrame()[..11] == [0x0c, 0x00, 0x07, 0x00, 0x01, 0x4d, 0x56, 0x43, 0x49, 0x2d, 0x54]
  {
    hide Checksum.XorSum, Build, U16;
    SessionBytes(Can, 0, 0);
    SmallCount(3);
    SmallCount(12);
  }

  /** Reset and identify: from any state at all the adapter ends up with the key it announced. */
  lemma HandshakeKeys(c: Cipher, a: Adapter, k0: Bytes, k1: Bytes)
    ensures AfterFrame(c, a, ResetFrame(), k0) == Plain
    ensures AfterFrame(c, Plain, IdentFrame(), k1) == Keyed(k1)
  {
    HandshakeFrames();
  }

  /** Of all commands under the adapter's own key, only OPEN and the session close would end the keyed state. */
  lemma UnderKey(c: Cipher, key: Bytes, inner: Bytes, nextKey: Bytes)
    requires c.Lawful() && |inner| >= 3 && EncodedEncrypted(c, key, inner).Ok?
    ensures var frame := EncodedEncrypted(c, key, inner).value;
            && frame != ResetFrame() && frame != IdentFrame()
            && AfterFrame(c, Keyed(key), frame, nextKey)
               == if inner[2] == OPEN || inner[2] == CLOSE_SESSION then Plain else Keyed(key)
  {
    hide EncodedEncrypted, DecodedEncrypted, ResetFrame, IdentFrame, PaddedLen, Cipher.Lawful;
    HandshakeFrames();
    EncryptedRoundTrip(c, key, inner);
    PaddedLenFits(|inner|);
  }

  /** The adapter got the frame. */
  ghost predicate Arrived(c: Cipher, a: Adapter, frame: Bytes, a': Adapter) {
    exists nextKey: Bytes :: |nextKey| == 8 && a' == AfterFrame(c, a, frame, nextKey)
  }

  /** The wire and the adapter at its end. */
  class Port {
    const c: Cipher
    var adapter: Adapter
    /** Every frame written, and what came of every read. */
    var writes: seq<Bytes>
    var replies: seq<Result<Bytes, ReadError>>
    /** Frames written since the input was last purged. */
    var unread: nat

    ghost predicate Valid()
      reads this
    {
      c.Lawful() && (adapter.Keyed? ==> |adapter.key| == 8)
    }

    method Purge() returns (ok: bool)
      requires Valid()
      modifies this`unread
      ensures Valid() && (ok ==> unread == 0)
    {
      ok := *;
      if ok {
        unread := 0;
      }
    }

    /** A write that fails may still have arrived. */
    method Write(frame: Bytes) returns (ok: bool)
      requires Valid()
      modifies this`writes, this`adapter, this`unread
      ensures Valid() && writes == old(writes) + [frame] && unread == old(unread) + 1
      ensures (!ok && adapter == old(adapter)) || Arrived(c, old(adapter), frame, adapter)
    {
      var nextKey: Bytes := [0, 0, 0, 0, 0, 0, 0, 0];
      nextKey :| |nextKey| == 8;
      ok := *;
      var arrives: bool := *;
      if ok || arrives {
        assert Arrived(c, adapter, frame, AfterFrame(c, adapter, frame, nextKey));
        adapter := AfterFrame(c, adapter, frame, nextKey);
      }
      writes, unread := writes + [frame], unread + 1;
    }

    /**
     What a framed read may bring: anything at all, except that what looks like a challenge in answer
     to a lone OPEN is the one the adapter gave.
     */
    predicate Possible(r: Result<Bytes, ReadError>)
      reads this`unread, this`writes, this`adapter
    {
      r.Ok? ==>
        && Proper(r.value)
        && (unread == 1 && writes != [] && writes[|writes| - 1] == IdentFrame() && adapter.Keyed? ==>
              LooksLikeChallenge(r.value) ==> Challenges(r.value, adapter.key))
    }

    method Read() returns (r: Result<Bytes, ReadError>)
      requires Valid()
      modifies this`replies
      ensures replies == old(replies) + [r] && Possible(r)
    {
      r := Err(ReadError.Timeout);
      assert Possible(r);
      hide *;
      r :| Possible(r);
      replies := replies + [r];
    }
  }

  /** A failure of the session layer. */
  datatype Failure =
    | Timeout
    | Io
    | BadFrame(error: CodecError)
    | Rejected(op: byte, status: byte)
    | Wedged(exchanges: byte)

  function FailureOf(e: ReadError): Failure {
    match e
    case Timeout => Failure.Timeout
    case Io => Failure.Io
    case Codec(error) => BadFrame(error)
  }

  // ---- the handshake --------------------------------------------------------

  /**
   The states the adapter may be in after the writes `w` of a handshake: every write but the
   last is known to have arrived, and the last one may have been lost.
   */
  ghost predicate MayBe(c: Cipher, a: Adapter, w: seq<Bytes>, a': Adapter) {
    if w == [] then a' == a
    else if |w| == 1 then a' == a || Arrived(c, a, w[0], a')
    else exists m :: Arrived(c, a, w[0], m) && (a' == m || Arrived(c, m, w[1], a'))
  }

  /** What a handshake wrote, and the adapter after it. */
  ghost predicate Shaken(c: Cipher, a: Adapter, a': Adapter, before: seq<Bytes>, after: seq<Bytes>) {
    exists w: seq<Bytes> :: w <= [ResetFrame(), IdentFrame()] && after == before + w && MayBe(c, a, w, a')
  }

  lemma ShakenBy(c: Cipher, a: Adapter, a': Adapter, before: seq<Bytes>, w: seq<Bytes>)
    requires w <= [ResetFrame(), IdentFrame()] && MayBe(c, a, w, a')
    ensures Shaken(c, a, a', before, before + w)
  {
  }

  lemma TwoWrites(c: Cipher, a: Adapter, m: Adapter, a': Adapter, w: seq<Bytes>)
    requires |w| == 2 && Arrived(c, a, w[0], m) && (a' == m || Arrived(c, m, w[1], a'))
    ensures MayBe(c, a, w, a')
  {
  }

  lemma ResetArrived(c: Cipher, a: Adapter, a': Adapter)
    ensures Arrived(c, a, ResetFrame(), a') <==> a' == Plain
  {
    if a' == Plain {
      HandshakeKeys(c, a, [0, 0, 0, 0, 0, 0, 0, 0], []);
      assert Plain == AfterFrame(c, a, ResetFrame(), [0, 0, 0, 0, 0, 0, 0, 0]);
    }
  }

  lemma IdentArrived(c: Cipher, a': Adapter)
    ensures Arrived(c, Plain, IdentFrame(), a') <==> a'.Keyed? && |a'.key| == 8
  {
    HandshakeFrames();
    if a'.Keyed? && |a'.key| == 8 {
      HandshakeKeys(c, Plain, [], a'.key);
    }
  }

  /**
   After both writes of a handshake whose challenge was not read the adapter may be in
   plaintext, the identify lost, or have any key at all, the challenge lost; after the reset
   alone it may also be as it was.
   */
  lemma LostHandshake(c: Cipher, a: Adapter, a': Adapter)
    ensures MayBe(c, a, [ResetFrame(), IdentFrame()], a') <==> a'.Plain? || |a'.key| == 8
    ensures MayBe(c, a, [ResetFrame()], a') <==> a' == Plain || a' == a
  {
    hide ResetFrame, IdentFrame, AfterFrame, Arrived;
    ResetArrived(c, a, a');
    ResetArrived(c, a, Plain);
    IdentArrived(c, a');
    forall m | Arrived(c, a, ResetFrame(), m) ensures m == Plain {
      ResetArrived(c, a, m);
    }
    if a'.Plain? || |a'.key| == 8 {
      TwoWrites(c, a, Plain, a', [ResetFrame(), IdentFrame()]);
    }
  }

  /** Host and adapter are sure to agree on the key after a failed handshake if and only if it wrote nothing. */
  lemma AgreementExactly(c: Cipher, key: Bytes, w: seq<Bytes>)
    requires w <= [ResetFrame(), IdentFrame()]
    ensures (forall a' :: MayBe(c, Keyed(key), w, a') ==> a' == Keyed(key)) <==> w == []
  {
    hide ResetFrame, IdentFrame, AfterFrame, Arrived;
    LostHandshake(c, Keyed(key), Plain);
    if w != [] {
      assert w == [ResetFrame()] || w == [ResetFrame(), IdentFrame()];
      assert MayBe(c, Keyed(key), w, Plain);
    }
  }

  /** Reset, identify, install the announced key. */
  method Establish(port: Port) returns (r: Result<Bytes, Failure>)
    requires port.Valid()
    modifies port
    ensures port.Valid()
    ensures Shaken(port.c, old(port.adapter), port.adapter, old(port.writes), port.writes)
    ensures r.Err? ==> !r.error.Wedged?
    ensures r.Ok? ==>
              && port.writes == old(port.writes) + [ResetFrame(), IdentFrame()]
              && |r.value| == 8 && port.adapter == Keyed(r.value)
    ensures old(port.replies) <= port.replies && |port.replies| <= |old(port.replies)| + 1
    ensures forall key ::
              r == Ok(key) <==> var n := |old(port.replies)|;
                                n < |port.replies| && port.replies[n].Ok? && Challenges(port.replies[n].value, key)
    ensures r == Err(Failure.Timeout)
            <==> |old(port.replies)| < |port.replies| && port.replies[|old(port.replies)|] == Err(ReadError.Timeout)
  {
    hide ResetFrame, IdentFrame, ChallengeIn, Challenges, LooksLikeChallenge, DecodedEncrypted, Cipher.Lawful,
         AfterFrame, Arrived, Shaken;
    ghost var before, a, c := port.writes, port.adapter, port.c;
    ghost var both := [ResetFrame(), IdentFrame()];
    assert both[..0] == [] && both[..1] == [ResetFrame()] && both[..2] == both;
    Unit(before);
    ShakenBy(c, a, a, before, []);
    var ok := port.Purge();
    if !ok {
      return Err(Failure.Io);
    }
    ok := port.Write(ResetFrame());
    ShakenBy(c, a, port.adapter, before, both[..1]);
    if !ok {
      return Err(Failure.Io);
    }
    ResetArrived(c, a, port.adapter);
    ok := port.Purge();
    if !ok {
      return Err(Failure.Io);
    }
    ok := port.Write(IdentFrame());
    assert port.writes == before + both;
    TwoWrites(c, a, Plain, port.adapter, both);
    ShakenBy(c, a, port.adapter, before, both);
    if !ok {
      return Err(Failure.Io);
    }
    IdentArrived(c, port.adapter);
    var challenge := port.Read();
    if challenge.Err? {
      return Err(FailureOf(challenge.error));
    }
    ChallengeRead(challenge.value);
    var key := ChallengeIn(challenge.value);
    if key.Err? {
      return Err(BadFrame(key.error));
    }
    return Ok(key.value);
  }
}
