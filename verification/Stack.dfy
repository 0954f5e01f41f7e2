/** A message through the whole codec: built, encrypted, framed, cut out of a stream, decrypted and read. */
module Stack {
  import opened Prelude
  import opened Codec
  import opened Inner
  import opened Framing

  lemma CutSame(frame: Bytes, sent: Bytes, more: Bytes)
    requires 3 < |frame| <= MAX_FRAME && RdU16(frame) == |frame| == |sent|
    requires sent[0] == frame[0] && sent[1] == frame[1]
    ensures CutFrame(sent + more) == Frame(sent)
  {
    assert (sent + more)[..|sent|] == sent;
  }

  lemma PaddedFits(n: nat)
    requires 0 < n <= MAX_INNER
    ensures 8 <= PaddedLen(n) <= MAX_INNER
  {
  }

  /** Whatever fits the largest inner command is cut out of the stream as it was put in, with any checksum byte. */
  lemma FrameIsCut(c: Cipher, key: Bytes, inner: Bytes, sum: byte, more: Bytes)
    requires c.Lawful() && 0 < |inner| <= MAX_INNER
    ensures EncodedEncrypted(c, key, inner).Ok?
    ensures var frame := EncodedEncrypted(c, key, inner).value;
            var sent := frame[|frame| - 1 := sum];
            CutFrame(sent + more) == Frame(sent)
  {
    EncryptedRoundTrip(c, key, inner);
    PaddedFits(|inner|);
    var frame := EncodedEncrypted(c, key, inner).value;
    hide EncodedEncrypted, DecodedEncrypted, PaddedLen;
    CutSame(frame, frame[|frame| - 1 := sum], more);
  }

  lemma Encodes(c: Cipher, key: Bytes, inner: Bytes)
    requires c.Lawful() && 0 < |inner| <= MAX_INNER
    ensures EncodedEncrypted(c, key, inner).Ok? && |EncodedEncrypted(c, key, inner).value| > 0
  {
    FrameIsCut(c, key, inner, 0, []);
    EncryptedRoundTrip(c, key, inner);
  }

  /** Host to adapter: every message that may be written arrives as it was, with only zeros behind it. */
  lemma MessageDown(c: Cipher, key: Bytes, proto: Proto, txflags: u32, msg: Bytes, more: Bytes)
    requires c.Lawful() && |msg| <= MAX_MSG
    ensures var cmd := WriteMsg(proto, txflags, msg);
            && Build(cmd).Ok? && EncodedEncrypted(c, key, Build(cmd).value).Ok?
            && var inner, frame := Build(cmd).value, EncodedEncrypted(c, key, Build(cmd).value).value;
               && CutFrame(frame + more) == Frame(frame)
               && DecodedEncrypted(c, key, frame) == Ok(Resize(inner, PaddedLen(|inner|), 0))
               && Understood(DecodedEncrypted(c, key, frame).value) == Some(cmd)
  {
    var cmd := WriteMsg(proto, txflags, msg);
    var inner := Build(cmd).value;
    assert 0 < |inner| == 11 + |msg| <= MAX_INNER && AsSent(cmd) == cmd;
    hide *;
    Encodes(c, key, inner);
    var frame := EncodedEncrypted(c, key, inner).value;
    FrameIsCut(c, key, inner, frame[|frame| - 1], more);
    EncryptedRoundTrip(c, key, inner);
    CommandArrives(c, key, cmd);
    assert frame[|frame| - 1 := frame[|frame| - 1]] == frame;
  }

  /** Adapter to host: every message that fits comes up whole, under either checksum convention. */
  lemma MessageUp(c: Cipher, key: Bytes, rxStatus: u32, reserved: Bytes, msg: Bytes, sum: byte, more: Bytes)
    requires c.Lawful() && |reserved| == 4 && 0 < |msg| <= MAX_MSG + 1
    ensures var inner := MessageReply(rxStatus, reserved, msg);
            && EncodedEncrypted(c, key, inner).Ok? && |EncodedEncrypted(c, key, inner).value| > 0
            && var frame := EncodedEncrypted(c, key, inner).value;
               var sent := frame[|frame| - 1 := sum];
               && CutFrame(sent + more) == Frame(sent)
               && (sum == frame[|frame| - 1] || sum == XorSumOf(frame, Resize(inner, PaddedLen(|inner|), 0)) ==>
                     DecodedEncrypted(c, key, sent).Ok?
                     && ParseReadReply(DecodedEncrypted(c, key, sent).value) == Ok(RxMsg(rxStatus, msg)))
  {
    hide MessageReply, EncodedEncrypted, DecodedEncrypted, ParseReadReply, CutFrame, XorSumOf, PaddedLen, Cipher.Lawful,
         U32, U16;
    MessageReplyParts(rxStatus, reserved, msg, []);
    var inner := MessageReply(rxStatus, reserved, msg);
    Unit(inner);
    Encodes(c, key, inner);
    var frame := EncodedEncrypted(c, key, inner).value;
    FrameIsCut(c, key, inner, sum, more);
    if sum == frame[|frame| - 1] || sum == XorSumOf(frame, Resize(inner, PaddedLen(|inner|), 0)) {
      MessageArrives(c, key, rxStatus, reserved, msg, sum);
    }
  }
}
