/**
 The outer wire frame: a 16-bit little-endian length that counts itself and the
 checksum, the payload, and the XOR of everything before it. After the handshake the
 payload is the inner command, zero-padded to whole blocks and encrypted block by block.
 */
module Codec {
  import opened Prelude
  import opened Checksum

  datatype CodecError =
    | TooShort(len: nat)
    | TooLong(len: nat)
    | LengthMismatch(field: nat, actual: nat)
    | BadChecksum(wire: byte, computed: byte)
    | BadEncryptedChecksum(wire: byte, cipher: byte, plain: byte)
    | BadCipherLength(len: nat)
    | BadIdLen(idlen: nat)
    | FilterFieldTooShort(have: nat, need: nat)
    | MsgTooLong(len: nat)
    | MalformedReply

  /** Largest message of a WriteMsgs, largest inner command, largest frame. */
  const MAX_MSG: nat := 4100

  const MAX_INNER: nat := 4112

  const MAX_FRAME: nat := 3 + MAX_INNER

  function U16(n: nat): (s: Bytes)
    ensures |s| == 2
  {
    [n % 256, (n / 256) % 256]
  }

  function RdU16(s: Bytes): nat
    requires |s| >= 2
  {
    s[0] as nat + 256 * s[1] as nat
  }

  lemma U16RoundTrip(n: nat, rest: Bytes)
    ensures RdU16(U16(n) + rest) == n % 0x10000
  {
    assert (n % 0x10000) % 256 == n % 256 && (n % 0x10000) / 256 == (n / 256) % 256;
  }

  lemma RdInverse(s: Bytes)
    requires |s| >= 2
    ensures U16(RdU16(s)) == s[..2] && RdU16(s) < 0x10000
  {
  }

  // ---- plaintext frames -----------------------------------------------------

  function EncodePlain(payload: Bytes): Result<Bytes, CodecError> {
    var total := |payload| + 3;
    if total > 0xffff then Err(TooLong(total))
    else
      var body := U16(total) + payload;
      Ok(body + [XorSum(body)])
  }

  function DecodePlain(frame: Bytes): Result<Bytes, CodecError> {
    var n := |frame|;
    if n < 3 then Err(TooShort(n))
    else if RdU16(frame) != n then Err(LengthMismatch(RdU16(frame), n))
    else
      var wire, computed := frame[n - 1], XorSum(frame[..n - 1]);
      if computed != wire then Err(BadChecksum(wire, computed)) else Ok(frame[2..n - 1])
  }

  /** The parts of a frame built from a payload and a checksum byte. */
  lemma FrameParts(mid: Bytes, sum: byte)
    requires |mid| + 3 <= 0xffff
    ensures var n := |mid| + 3;
            var frame := U16(n) + mid + [sum];
            && |frame| == n == RdU16(frame)
            && frame[..n - 1] == U16(n) + mid && frame[2..n - 1] == mid && frame[n - 1] == sum
            && frame[0] == U16(n)[0] && frame[1] == U16(n)[1]
  {
    var n := |mid| + 3;
    var frame := U16(n) + mid + [sum];
    Assoc(U16(n), mid, [sum]);
    U16RoundTrip(n, mid + [sum]);
    hide U16;
    assert frame[..n - 1] == U16(n) + mid && frame[2..n - 1] == mid;
  }

  lemma PlainRoundTrip(payload: Bytes)
    requires |payload| + 3 <= 0xffff
    ensures EncodePlain(payload).Ok?
    ensures DecodePlain(EncodePlain(payload).value) == Ok(payload)
  {
    FrameParts(payload, XorSum(U16(|payload| + 3) + payload));
  }

  /** What is accepted as a payload is exactly what has a true length in front and the checksum behind. */
  lemma PlainExactly(frame: Bytes, payload: Bytes)
    ensures DecodePlain(frame) == Ok(payload)
            <==> var n := |payload| + 3;
                 && n <= 0xffff && |frame| == n && frame[2..n - 1] == payload
                 && frame[0] as int + 0x100 * frame[1] as int == n
                 && frame[n - 1] == XorSum(frame[..n - 1])
  {
    hide XorSum;
  }

  /** And every payload is sent as just that. */
  lemma PlainLayout(payload: Bytes, frame: Bytes)
    ensures EncodePlain(payload) == Ok(frame) <==> DecodePlain(frame) == Ok(payload)
    ensures EncodePlain(payload).Err? <==> |payload| > 0xfffc
  {
    if |payload| + 3 <= 0xffff {
      PlainRoundTrip(payload);
      var body := U16(|payload| + 3) + payload;
      FrameParts(payload, XorSum(body));
      if DecodePlain(frame) == Ok(payload) {
        PlainExactly(frame, payload);
        hide XorSum;
        RdInverse(frame);
        assert frame[..|frame| - 1] == body;
        assert frame == body + [XorSum(body)];
      }
    } else {
      PlainExactly(frame, payload);
    }
  }

  /** Any change to any one byte of an accepted frame makes it rejected. */
  lemma OneByteChangeRejected(frame: Bytes, i: nat, v: byte)
    requires DecodePlain(frame).Ok? && i < |frame| && v != frame[i]
    ensures DecodePlain(frame[i := v]).Err?
  {
    var n, bad := |frame|, frame[i := v];
    if 2 <= i < n - 1 {
      assert bad[..n - 1] == frame[..n - 1][i := v];
      OneChangeShows(frame[..n - 1], i, v);
    } else if i == n - 1 {
      assert bad[..n - 1] == frame[..n - 1];
    }
  }

  // ---- encrypted frames -----------------------------------------------------

  /** A keyed permutation of 8-byte blocks. */
  datatype Cipher = Cipher(enc: (Bytes, Bytes) -> Bytes, dec: (Bytes, Bytes) -> Bytes) {
    ghost predicate Lawful() {
      forall k: Bytes, b: Bytes :: |b| == 8 ==>
        && |enc(k, b)| == 8 && dec(k, enc(k, b)) == b
        && |dec(k, b)| == 8 && enc(k, dec(k, b)) == b
    }
  }

  /** Every whole block of `s` through `f`; a trailing partial block stays as it is. */
  function Blocks(f: (Bytes, Bytes) -> Bytes, key: Bytes, s: Bytes): Bytes {
    if |s| < 8 then s else f(key, s[..8]) + Blocks(f, key, s[8..])
  }

  lemma {:induction false} BlocksLength(c: Cipher, key: Bytes, s: Bytes)
    requires c.Lawful()
    ensures |Blocks(c.enc, key, s)| == |s| == |Blocks(c.dec, key, s)|
  {
    if |s| >= 8 {
      BlocksLength(c, key, s[8..]);
    }
  }

  lemma {:induction false} DecryptInverts(c: Cipher, key: Bytes, s: Bytes)
    requires c.Lawful()
    ensures Blocks(c.dec, key, Blocks(c.enc, key, s)) == s
  {
    if |s| >= 8 {
      DecryptInverts(c, key, s[8..]);
      BlocksLength(c, key, s[8..]);
      var e := c.enc(key, s[..8]);
      var t := Blocks(c.enc, key, s);
      assert t[..8] == e && t[8..] == Blocks(c.enc, key, s[8..]);
    }
  }

  /** Block `i` of `t` is the image of block `i` of `s`. */
  predicate Image(f: (Bytes, Bytes) -> Bytes, key: Bytes, s: Bytes, t: Bytes, i: nat)
    requires 8 * i + 8 <= |s| == |t|
  {
    t[8 * i..8 * i + 8] == f(key, s[8 * i..8 * i + 8])
  }

  /** `t` is `s` with every whole block put through `f` by itself, in its place, and what is left over kept. */
  ghost predicate BlockByBlock(f: (Bytes, Bytes) -> Bytes, key: Bytes, s: Bytes, t: Bytes) {
    && |t| == |s| && t[|s| / 8 * 8..] == s[|s| / 8 * 8..]
    && forall i: nat :: i < |s| / 8 ==> Image(f, key, s, t, i)
  }

  lemma NextImage(f: (Bytes, Bytes) -> Bytes, key: Bytes, s: Bytes, t: Bytes, i: nat)
    requires 8 * i + 16 <= |s| == |t|
    ensures Image(f, key, s, t, i + 1) <==> Image(f, key, s[8..], t[8..], i)
  {
    assert s[8..][8 * i..8 * i + 8] == s[8 * (i + 1)..8 * (i + 1) + 8];
    assert t[8..][8 * i..8 * i + 8] == t[8 * (i + 1)..8 * (i + 1) + 8];
  }

  lemma FirstBlock(f: (Bytes, Bytes) -> Bytes, key: Bytes, s: Bytes, t: Bytes)
    requires |s| >= 8 && |t| == |s|
    ensures BlockByBlock(f, key, s, t) <==> t[..8] == f(key, s[..8]) && BlockByBlock(f, key, s[8..], t[8..])
  {
    var n, s', t' := |s| / 8, s[8..], t[8..];
    assert |s'| / 8 == n - 1 && s'[8 * (n - 1)..] == s[8 * n..] && t'[8 * (n - 1)..] == t[8 * n..];
    assert Image(f, key, s, t, 0) <==> t[..8] == f(key, s[..8]);
    forall i: nat | i < n - 1 ensures Image(f, key, s, t, i + 1) <==> Image(f, key, s', t', i) {
      NextImage(f, key, s, t, i);
    }
    if BlockByBlock(f, key, s', t') && Image(f, key, s, t, 0) {
      forall i: nat | i < n ensures Image(f, key, s, t, i) {
        if i > 0 {
          NextImage(f, key, s, t, i - 1);
          assert Image(f, key, s', t', i - 1);
        }
      }
    }
  }

  /** No block is left out, and none depends on another. */
  lemma {:induction false} BlocksExactly(f: (Bytes, Bytes) -> Bytes, key: Bytes, s: Bytes, t: Bytes)
    requires forall b: Bytes :: |b| == 8 ==> |f(key, b)| == 8
    ensures t == Blocks(f, key, s) <==> BlockByBlock(f, key, s, t)
    decreases |s|
  {
    if |s| >= 8 && |t| == |s| {
      hide BlockByBlock;
      FirstBlock(f, key, s, t);
      BlocksExactly(f, key, s[8..], t[8..]);
      assert t == t[..8] + t[8..];
    } else if |s| >= 8 {
      BlocksExactly(f, key, s[8..], Blocks(f, key, s[8..]));
    }
  }

  method PutBlock(buf: array<byte>, i: nat, block: Bytes)
    requires |block| == 8 && i + 8 <= buf.Length
    modifies buf
    ensures buf[..] == old(buf[..i]) + block + old(buf[i + 8..])
  {
    forall k | 0 <= k < 8 {
      buf[i + k] := block[k];
    }
  }

  lemma BlockAt(head: Bytes, tail: Bytes)
    requires |tail| >= 8
    ensures var s, i := head + tail, |head|;
            s[..i] == head && s[i..i + 8] == tail[..8] && s[i + 8..] == tail[8..]
  {
  }

  /** Encrypts or decrypts the buffer in place from `from` on. */
  method CryptInPlace(f: (Bytes, Bytes) -> Bytes, key: Bytes, buf: array<byte>, from: nat)
    requires from <= buf.Length
    requires forall b: Bytes :: |b| == 8 ==> |f(key, b)| == 8
    modifies buf
    ensures buf[..] == old(buf[..from]) + Blocks(f, key, old(buf[from..]))
    ensures BlockByBlock(f, key, old(buf[from..]), buf[from..])
  {
    hide BlockByBlock;
    ghost var head, tail := buf[..from], buf[from..];
    ghost var done, rest := head, tail;
    var i := from;
    assert buf[..] == head + tail;
    while i + 8 <= buf.Length
      invariant from <= i == |done| && i + |rest| == buf.Length
      invariant buf[..] == done + rest
      invariant head + Blocks(f, key, tail) == done + Blocks(f, key, rest)
    {
      BlockAt(done, rest);
      var block := f(key, buf[..][i..i + 8]);
      PutBlock(buf, i, block);
      Assoc(done, block, Blocks(f, key, rest[8..]));
      done, rest, i := done + block, rest[8..], i + 8;
    }
    BlocksExactly(f, key, tail, buf[from..]);
  }

  /** Length rounded up to whole blocks. */
  function PaddedLen(n: nat): nat {
    (n + 7) / 8 * 8
  }

  function EncodedEncrypted(c: Cipher, key: Bytes, inner: Bytes): Result<Bytes, CodecError> {
    var clen := PaddedLen(|inner|);
    if clen + 3 > 0xffff then Err(TooLong(clen + 3))
    else
      var body := U16(clen + 3) + Blocks(c.enc, key, Resize(inner, clen, 0));
      Ok(body + [XorSum(body)])
  }

  lemma LawfulLengths(c: Cipher)
    requires c.Lawful()
    ensures forall k: Bytes, b: Bytes :: |b| == 8 ==> |c.enc(k, b)| == 8
  {
  }

  method EncodeEncrypted(c: Cipher, key: Bytes, inner: Bytes) returns (r: Result<Bytes, CodecError>)
    requires c.Lawful()
    ensures r == EncodedEncrypted(c, key, inner)
  {
    hide Blocks, XorSum, U16, Cipher.Lawful;
    LawfulLengths(c);
    var clen := (|inner| + 7) / 8 * 8;
    var total := clen + 3;
    if total > 0xffff {
      return Err(TooLong(total));
    }
    var start := U16(total) + Resize(inner, clen, 0);
    var buf := new byte[|start|](i requires 0 <= i < |start| => start[i]);
    assert buf[..] == start;
    assert buf[..2] == U16(total) && buf[2..] == Resize(inner, clen, 0);
    CryptInPlace(c.enc, key, buf, 2);
    var out := buf[..];
    return Ok(out + [XorSum(out)]);
  }

  function DecodedEncrypted(c: Cipher, key: Bytes, frame: Bytes): Result<Bytes, CodecError> {
    var n := |frame|;
    if n < 3 then Err(TooShort(n))
    else if RdU16(frame) != n then Err(LengthMismatch(RdU16(frame), n))
    else if n - 3 == 0 || (n - 3) % 8 != 0 then Err(BadCipherLength(n - 3))
    else
      var wire := frame[n - 1];
      var inner := Blocks(c.dec, key, frame[2..n - 1]);
      var cipherSum, plainSum := XorSum(frame[..n - 1]), Xor(Xor(frame[0], frame[1]), XorSum(inner));
      if wire != cipherSum && wire != plainSum then Err(BadEncryptedChecksum(wire, cipherSum, plainSum))
      else Ok(inner)
  }

  method DecryptCopy(c: Cipher, key: Bytes, s: Bytes) returns (r: Bytes)
    requires c.Lawful()
    ensures r == Blocks(c.dec, key, s)
  {
    var buf := new byte[|s|](i requires 0 <= i < |s| => s[i]);
    assert buf[..] == s && buf[0..] == s && buf[..0] == [];
    Unit(Blocks(c.dec, key, s));
    CryptInPlace(c.dec, key, buf, 0);
    r := buf[..];
  }

  method DecodeEncrypted(c: Cipher, key: Bytes, frame: Bytes) returns (r: Result<Bytes, CodecError>)
    requires c.Lawful()
    ensures r == DecodedEncrypted(c, key, frame)
  {
    hide Blocks, XorSum, Xor;
    if |frame| < 3 {
      return Err(TooShort(|frame|));
    }
    if RdU16(frame) != |frame| {
      return Err(LengthMismatch(RdU16(frame), |frame|));
    }
    var plen := |frame| - 3;
    if plen == 0 || plen % 8 != 0 {
      return Err(BadCipherLength(plen));
    }
    var wire := frame[|frame| - 1];
    var cipherSum := XorSum(frame[..|frame| - 1]);
    var inner := DecryptCopy(c, key, frame[2..|frame| - 1]);
    var plainSum := Xor(Xor(frame[0], frame[1]), XorSum(inner));
    if wire != cipherSum && wire != plainSum {
      return Err(BadEncryptedChecksum(wire, cipherSum, plainSum));
    }
    return Ok(inner);
  }

  lemma PaddedLenFits(n: nat)
    ensures n <= PaddedLen(n) < n + 8 && PaddedLen(n) % 8 == 0
    ensures PaddedLen(n) == 0 <==> n == 0
  {
  }

  /** Every non-empty inner that is accepted comes back with nothing but zero padding added. */
  lemma EncryptedRoundTrip(c: Cipher, key: Bytes, inner: Bytes)
    requires c.Lawful() && EncodedEncrypted(c, key, inner).Ok?
    ensures var frame := EncodedEncrypted(c, key, inner).value;
            && |frame| == PaddedLen(|inner|) + 3 == RdU16(frame)
            && DecodedEncrypted(c, key, frame)
               == if inner == [] then Err(BadCipherLength(0)) else Ok(Resize(inner, PaddedLen(|inner|), 0))
  {
    var clen := PaddedLen(|inner|);
    var padded := Resize(inner, clen, 0);
    PaddedLenFits(|inner|);
    BlocksLength(c, key, padded);
    DecryptInverts(c, key, padded);
    var cipher := Blocks(c.enc, key, padded);
    FrameParts(cipher, XorSum(U16(clen + 3) + cipher));
    hide Blocks, XorSum, Xor, U16, RdU16;
  }

  lemma SumOfTwo(s: Bytes)
    requires |s| == 2
    ensures XorSum(s) == Xor(s[0], s[1])
  {
    assert s[..1] == [s[0]] && [s[0]][..0] == [];
    assert XorSum([s[0]]) == Xor(0, s[0]);
    Neutral(s[0]);
  }

  /**
   An encrypted frame by its bytes: a true length, the image of every block of the inner, which is
   filled up with zeros to whole blocks, and the checksum of all that.
   */
  lemma EncryptedLayout(c: Cipher, key: Bytes, inner: Bytes)
    requires c.Lawful() && EncodedEncrypted(c, key, inner).Ok?
    ensures var frame, padded := EncodedEncrypted(c, key, inner).value, Resize(inner, PaddedLen(|inner|), 0);
            var n := |frame|;
            && |padded| % 8 == 0 && |inner| <= |padded| < |inner| + 8 && n == |padded| + 3
            && frame[0] as int + 0x100 * frame[1] as int == n
            && BlockByBlock(c.enc, key, padded, frame[2..n - 1])
            && frame[n - 1] == XorSum(frame[..n - 1])
  {
    var padded := Resize(inner, PaddedLen(|inner|), 0);
    var cipher := Blocks(c.enc, key, padded);
    PaddedLenFits(|inner|);
    BlocksLength(c, key, padded);
    BlocksExactly(c.enc, key, padded, cipher);
    FrameParts(cipher, XorSum(U16(|cipher| + 3) + cipher));
    hide Blocks, XorSum, BlockByBlock;
  }

  /** Up to this length an inner can be sent. */
  lemma EncodesExactly(c: Cipher, key: Bytes, inner: Bytes)
    ensures EncodedEncrypted(c, key, inner).Ok? <==> |inner| <= 0xfff8
  {
    hide Blocks, XorSum;
  }

  /** What is accepted as an inner is exactly what every block of such a frame decrypts to, under either checksum. */
  lemma DecryptedExactly(c: Cipher, key: Bytes, frame: Bytes, inner: Bytes)
    requires c.Lawful()
    ensures DecodedEncrypted(c, key, frame) == Ok(inner)
            <==> var n := |frame|;
                 && n > 3 && (n - 3) % 8 == 0 && frame[0] as int + 0x100 * frame[1] as int == n
                 && BlockByBlock(c.dec, key, frame[2..n - 1], inner)
                 && (frame[n - 1] == XorSum(frame[..n - 1]) || frame[n - 1] == XorSum(frame[..2] + inner))
  {
    var n := |frame|;
    if n > 3 {
      BlocksExactly(c.dec, key, frame[2..n - 1], inner);
      XorSumAppend(frame[..2], inner);
      SumOfTwo(frame[..2]);
      hide Blocks, XorSum, BlockByBlock, Xor;
    }
  }

  lemma SumDecides(c: Cipher, key: Bytes, len: Bytes, cipher: Bytes, plain: Bytes, sum: byte)
    requires |len| == 2 && |cipher| > 0 && |cipher| % 8 == 0 && |cipher| + 3 <= 0xffff && len == U16(|cipher| + 3)
    requires plain == Blocks(c.dec, key, cipher)
    ensures var got := DecodedEncrypted(c, key, len + cipher + [sum]);
            && (got.Ok? <==> sum == XorSum(len + cipher) || sum == XorSum(len + plain))
            && (got.Ok? ==> got.value == plain)
  {
    FrameParts(cipher, sum);
    XorSumAppend(len, plain);
    SumOfTwo(len);
    hide Blocks, XorSum, Xor, U16, RdU16;
  }

  /** The parts of an encrypted frame, and of one with another checksum byte. */
  lemma EncodedParts(c: Cipher, key: Bytes, inner: Bytes, sum: byte)
    requires c.Lawful() && EncodedEncrypted(c, key, inner).Ok?
    ensures var clen := PaddedLen(|inner|);
            var cipher := Blocks(c.enc, key, Resize(inner, clen, 0));
            var frame, body := EncodedEncrypted(c, key, inner).value, U16(clen + 3) + cipher;
            && clen + 3 <= 0xffff && |cipher| == clen && |frame| == clen + 3
            && frame == body + [XorSum(body)] && frame[|frame| - 1] == XorSum(body)
            && frame[|frame| - 1 := sum] == body + [sum]
  {
    hide Blocks, XorSum, PaddedLen, U16, Cipher.Lawful;
    BlocksLength(c, key, Resize(inner, PaddedLen(|inner|), 0));
  }

  /** Exactly two checksum bytes are accepted, over the ciphertext and over the plaintext, with the same result. */
  lemma BothChecksumsAccepted(c: Cipher, key: Bytes, inner: Bytes, sum: byte)
    requires c.Lawful() && inner != [] && EncodedEncrypted(c, key, inner).Ok?
    ensures var frame := EncodedEncrypted(c, key, inner).value;
            var last, padded := |frame| - 1, Resize(inner, PaddedLen(|inner|), 0);
            var got := DecodedEncrypted(c, key, frame[last := sum]);
            && (got.Ok? <==> sum == frame[last] || sum == XorSum(U16(|frame|) + padded))
            && (got.Ok? ==> got.value == padded)
  {
    hide Blocks, XorSum, EncodedEncrypted, DecodedEncrypted, PaddedLen, U16, Cipher.Lawful;
    var padded := Resize(inner, PaddedLen(|inner|), 0);
    PaddedLenFits(|inner|);
    BlocksLength(c, key, padded);
    DecryptInverts(c, key, padded);
    EncodedParts(c, key, inner, sum);
    SumDecides(c, key, U16(PaddedLen(|inner|) + 3), Blocks(c.enc, key, padded), padded, sum);
  }
}
