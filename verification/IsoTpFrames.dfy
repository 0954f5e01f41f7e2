/**
 The frame layouts of ISO 15765-2:2016, sections 9.6.2 to 9.6.5, as the host-side
 machines build and read them, with the two pure functions that say what one
 transfer is: `Segment` (payload to frames) and `Reassemble` (frames to payload).

 `h` is the number of extended-address bytes in front of every frame, 0 or 1.
 */
module IsoTpFrames {
  import opened Prelude

  const MAX_PAYLOAD := 4095

  /** Clock readings and durations are in microseconds. */
  type Time = nat

  const MS: nat := 1000

  type Addr = Option<byte>

  function AddrLen(addr: Addr): (h: int)
    ensures 0 <= h <= 1
  {
    if addr.Some? then 1 else 0
  }

  /** The gap an STmin byte asks for (section 9.6.5.5), `None` for the reserved values. */
  function RequestedGap(b: byte): Option<Time> {
    if b <= 0x7f then Some(b * MS)
    else if 0xf1 <= b <= 0xf9 then Some((b - 0xf0) * 100)
    else None
  }

  /** The pacing actually applied. */
  function DecodeStmin(b: byte): Time {
    if b <= 0x7f then b * MS
    else if 0xf1 <= b <= 0xf9 then MS
    else 0x7f * MS
  }

  /** It is the requested gap rounded up to whole milliseconds, and the longest one for reserved values. */
  lemma DecodeRoundsUp(b: byte)
    ensures DecodeStmin(b) % MS == 0 && DecodeStmin(b) <= 127 * MS
    ensures match RequestedGap(b)
            case Some(gap) => gap <= DecodeStmin(b) < gap + MS
            case None => DecodeStmin(b) == 127 * MS
  {
  }

  // ---- building frames ------------------------------------------------------

  function StartFrame(addr: Addr): (f: Bytes)
    ensures |f| == AddrLen(addr)
  {
    if addr.Some? then [addr.value] else []
  }

  function Pad(f: Bytes, padding: Option<byte>): Bytes {
    if padding.Some? then Resize(f, 8, padding.value) else f
  }

  /**
   Payload bytes carried by the first `k` frames of a long transfer, were all of
   them full: 6 - h in the first frame, 7 - h in every later one.
   */
  function Offset(k: nat, h: int): nat {
    if k == 0 then 0 else if h == 0 then 7 * k - 1 else 6 * k - 1
  }

  function FrameCount(n: nat, h: int): nat {
    if n <= 7 - h then 1 else if h == 0 then 1 + n / 7 else 1 + n / 6
  }

  predicate Sendable(payload: Bytes) {
    1 <= |payload| <= MAX_PAYLOAD
  }

  function FrameAt(payload: Bytes, padding: Option<byte>, addr: Addr, k: nat): Bytes
    requires Sendable(payload)
    requires k < FrameCount(|payload|, AddrLen(addr))
  {
    var n, h := |payload|, AddrLen(addr);
    if n <= 7 - h then
      Pad(StartFrame(addr) + [n] + payload, padding)
    else if k == 0 then
      StartFrame(addr) + [0x10 + n / 256, n % 256] + payload[..6 - h]
    else
      Pad(StartFrame(addr) + [0x20 + Mod16(k)] + payload[Offset(k, h)..Min(Offset(k + 1, h), n)], padding)
  }

  /** The frames one payload is sent as. */
  function Segment(payload: Bytes, padding: Option<byte>, addr: Addr): (fs: seq<Bytes>)
    requires Sendable(payload)
    ensures |fs| == FrameCount(|payload|, AddrLen(addr))
    ensures forall k :: 0 <= k < |fs| ==> fs[k] == FrameAt(payload, padding, addr, k)
  {
    seq(FrameCount(|payload|, AddrLen(addr)),
        k requires 0 <= k < FrameCount(|payload|, AddrLen(addr)) => FrameAt(payload, padding, addr, k))
  }

  function FlowControl(bs: byte, stmin: byte, padding: Option<byte>, addr: Addr): Bytes {
    Pad(StartFrame(addr) + [0x30, bs, stmin], padding)
  }

  // ---- reading frames -------------------------------------------------------

  datatype Why =
    | EmptyPayload
    | EmptyFrame
    | AddressMismatch
    | TooShortForAddress
    | BadSingleFrameLength
    | ShortFirstFrame
    | FitsInSingleFrame
    | NoFirstFrame
    | UnknownPci
    | ShortFlowControl
    | ReservedFlowStatus

  /** What one frame says to a receiver, whatever state the receiver is in. */
  datatype Pci =
    | Single(data: Bytes)
    | First(dl: nat, data: Bytes)
    | Consec(sn: nat, data: Bytes)
    | FlowCtl
    | Bad(why: Why)
  {
    /** Frames that can start, continue or end a transfer. */
    predicate Relevant() {
      Single? || First? || Consec?
    }
  }

  function Parse(addr: Addr, f: Bytes): (p: Pci)
    ensures p.First? ==>
              8 - AddrLen(addr) <= p.dl <= MAX_PAYLOAD && |p.data| == 6 - AddrLen(addr)
    ensures p.Consec? ==> p.sn < 16 && |p.data| <= 7 - AddrLen(addr)
    ensures p.Single? ==> 1 <= |p.data| <= 15
  {
    var h := AddrLen(addr);
    if f == [] then Bad(EmptyFrame)
    else if addr.Some? && f[0] != addr.value then Bad(AddressMismatch)
    else if |f| < h + 1 then Bad(TooShortForAddress)
    else
      var d := f[h..];
      match d[0] / 16
      case 0 =>
        var len := d[0] % 16;
        if len == 0 || 1 + len > |d| then Bad(BadSingleFrameLength) else Single(d[1..1 + len])
      case 1 =>
        if |d| < 8 - h then Bad(ShortFirstFrame)
        else
          var dl: int := (d[0] as int % 16) * 256 + d[1] as int;
          if dl <= 7 - h then Bad(FitsInSingleFrame) else First(dl, d[2..8 - h])
      case 2 =>
        Consec(d[0] % 16, d[1..1 + Min(7 - h, |d| - 1)])
      case 3 => FlowCtl
      case _ => Bad(UnknownPci)
  }

  function ParseAll(addr: Addr, fs: seq<Bytes>): (ps: seq<Pci>)
    ensures |ps| == |fs|
    ensures forall i :: 0 <= i < |fs| ==> ps[i] == Parse(addr, fs[i])
  {
    seq(|fs|, i requires 0 <= i < |fs| => Parse(addr, fs[i]))
  }

  function Data(p: Pci): Bytes {
    if p.Relevant() then p.data else []
  }

  /** All data bytes of a list of frames, in order. */
  function Gather(ps: seq<Pci>): Bytes {
    if ps == [] then [] else Gather(ps[..|ps| - 1]) + Data(ps[|ps| - 1])
  }

  /** One first frame followed by consecutive frames numbered 1, 2, 3, … mod 16. */
  predicate Numbered(ps: seq<Pci>) {
    && ps != []
    && ps[0].First?
    && forall i :: 1 <= i < |ps| ==> ps[i].Consec? && ps[i].sn == Mod16(i)
  }

  /** A transfer under way: numbered so far, FF_DL not reached yet. */
  predicate Partial(ps: seq<Pci>) {
    Numbered(ps) && |Gather(ps)| < ps[0].dl
  }

  /** The payload a complete list of frames stands for. */
  function Reassemble(ps: seq<Pci>): Option<Bytes> {
    if |ps| == 1 && ps[0].Single? then Some(ps[0].data)
    else if |ps| >= 2 && Numbered(ps) && |Gather(ps[..|ps| - 1])| < ps[0].dl <= |Gather(ps)| then
      Some(Gather(ps)[..ps[0].dl])
    else None
  }

  // ---- what segmentation promises -------------------------------------------

  /** The last frame is needed and enough. */
  lemma FrameCountIsExact(n: nat, h: int)
    requires 0 <= h <= 1 && n > 7 - h
    ensures 2 <= FrameCount(n, h)
    ensures Offset(FrameCount(n, h) - 1, h) < n <= Offset(FrameCount(n, h), h)
  {
    if h == 0 {
      assert n == 7 * (n / 7) + n % 7;
    } else {
      assert n == 6 * (n / 6) + n % 6;
    }
  }

  lemma OffsetMonotone(i: nat, j: nat, h: int)
    requires i <= j
    ensures Offset(i, h) <= Offset(j, h)
    ensures i >= 1 ==> Offset(j, h) - Offset(i, h) == (if h == 0 then 7 * (j - i) else 6 * (j - i))
  {
  }

  /** Every frame holds 1 to 8 bytes. */
  lemma FrameSizes(payload: Bytes, padding: Option<byte>, addr: Addr, k: nat)
    requires Sendable(payload)
    requires k < FrameCount(|payload|, AddrLen(addr))
    ensures 1 <= |FrameAt(payload, padding, addr, k)| <= 8
    ensures padding.Some? || (|payload| > 7 - AddrLen(addr) && k == 0)
            ==> |FrameAt(payload, padding, addr, k)| == 8
  {
    var n, h := |payload|, AddrLen(addr);
    if n > 7 - h && k > 0 {
      FrameCountIsExact(n, h);
      OffsetMonotone(k, FrameCount(n, h) - 1, h);
    }
  }

  /** `data` starts with the bytes of frame `k`, padding may follow in the last one. */
  predicate ChunkAt(data: Bytes, payload: Bytes, h: int, k: nat)
    requires 0 <= h <= 1
  {
    && Offset(k, h) < |payload|
    && payload[Offset(k, h)..Min(Offset(k + 1, h), |payload|)] <= data
    && (Offset(k + 1, h) <= |payload| ==> |data| == 7 - h)
  }

  predicate CarriesAt(p: Pci, payload: Bytes, h: int, k: nat)
    requires 0 <= h <= 1 && |payload| > 7 - h
  {
    if k == 0 then p == First(|payload|, payload[..6 - h])
    else p.Consec? && p.sn == Mod16(k) && ChunkAt(p.data, payload, h, k)
  }

  /** Frame by frame, `ps` is what a receiver reads from a long transfer of `payload`. */
  predicate Carries(ps: seq<Pci>, payload: Bytes, h: int)
    requires 0 <= h <= 1 && |payload| > 7 - h
  {
    && |ps| == FrameCount(|payload|, h)
    && forall k :: 0 <= k < |ps| ==> CarriesAt(ps[k], payload, h, k)
  }

  lemma PadKeeps(f: Bytes, padding: Option<byte>)
    requires |f| <= 8
    ensures |f| <= |Pad(f, padding)| <= 8 && forall i :: 0 <= i < |f| ==> Pad(f, padding)[i] == f[i]
  {
  }

  lemma ParseSingle(f: Bytes, addr: Addr, payload: Bytes)
    requires 1 <= |payload| <= 7 - AddrLen(addr)
    requires var start := StartFrame(addr) + [|payload|] + payload;
             |start| <= |f| && forall i :: 0 <= i < |start| ==> f[i] == start[i]
    ensures Parse(addr, f) == Single(payload)
  {
    var n, h := |payload|, AddrLen(addr);
    var start := StartFrame(addr) + [n] + payload;
    assert f[..|start|] == start && start[h + 1..] == payload;
    assert f[h..][1..1 + n] == payload;
  }

  lemma SingleReadsBack(payload: Bytes, padding: Option<byte>, addr: Addr)
    requires 1 <= |payload| <= 7 - AddrLen(addr)
    ensures Parse(addr, Pad(StartFrame(addr) + [|payload|] + payload, padding)) == Single(payload)
  {
    var start := StartFrame(addr) + [|payload|] + payload;
    PadKeeps(start, padding);
    ParseSingle(Pad(start, padding), addr, payload);
  }

  lemma FirstReadsBack(payload: Bytes, addr: Addr)
    requires Sendable(payload) && |payload| > 7 - AddrLen(addr)
    ensures var h := AddrLen(addr);
            Parse(addr, StartFrame(addr) + [0x10 + |payload| / 256, |payload| % 256] + payload[..6 - h])
            == First(|payload|, payload[..6 - h])
  {
    var n, h := |payload|, AddrLen(addr);
    var f := StartFrame(addr) + [0x10 + n / 256, n % 256] + payload[..6 - h];
    assert f[h] == 0x10 + n / 256 && f[h + 1] == n % 256;
    assert f[h..][2..8 - h] == payload[..6 - h];
  }

  lemma ParseConsec(f: Bytes, addr: Addr, sn: byte, chunk: Bytes)
    requires 1 <= |chunk| <= 7 - AddrLen(addr) && sn < 16
    requires var start := StartFrame(addr) + [0x20 + sn] + chunk;
             |start| <= |f| <= 8 && forall i :: 0 <= i < |start| ==> f[i] == start[i]
    ensures var p := Parse(addr, f);
            && p.Consec? && p.sn == sn && chunk <= p.data
            && (|chunk| == 7 - AddrLen(addr) ==> |p.data| == |chunk|)
  {
    var n, h := |chunk|, AddrLen(addr);
    var start := StartFrame(addr) + [0x20 + sn] + chunk;
    assert f[..|start|] == start && start[h + 1..] == chunk;
    assert f[h..][1..][..n] == chunk;
  }

  lemma ConsecReadsBack(chunk: Bytes, k: nat, padding: Option<byte>, addr: Addr)
    requires 1 <= |chunk| <= 7 - AddrLen(addr)
    ensures var p := Parse(addr, Pad(StartFrame(addr) + [0x20 + Mod16(k)] + chunk, padding));
            && p.Consec? && p.sn == Mod16(k) && chunk <= p.data
            && (|chunk| == 7 - AddrLen(addr) ==> |p.data| == |chunk|)
  {
    hide Mod16, Pad;
    var start := StartFrame(addr) + [0x20 + Mod16(k)] + chunk;
    Mod16Next(k);
    PadKeeps(start, padding);
    ParseConsec(Pad(start, padding), addr, Mod16(k), chunk);
  }

  /** What a receiver with the same address byte reads in frame `k`. */
  lemma FrameReadsBack(payload: Bytes, padding: Option<byte>, addr: Addr, k: nat)
    requires Sendable(payload)
    requires k < FrameCount(|payload|, AddrLen(addr))
    ensures var p := Parse(addr, FrameAt(payload, padding, addr, k));
            if |payload| <= 7 - AddrLen(addr) then p == Single(payload)
            else CarriesAt(p, payload, AddrLen(addr), k)
  {
    var n, h := |payload|, AddrLen(addr);
    if n <= 7 - h {
      SingleReadsBack(payload, padding, addr);
    } else if k == 0 {
      FirstReadsBack(payload, addr);
    } else {
      FrameCountIsExact(n, h);
      OffsetMonotone(k, FrameCount(n, h) - 1, h);
      ConsecReadsBack(payload[Offset(k, h)..Min(Offset(k + 1, h), n)], k, padding, addr);
    }
  }

  lemma SegmentCarries(payload: Bytes, padding: Option<byte>, addr: Addr)
    requires Sendable(payload) && |payload| > 7 - AddrLen(addr)
    ensures Carries(ParseAll(addr, Segment(payload, padding, addr)), payload, AddrLen(addr))
  {
    var fs := Segment(payload, padding, addr);
    forall k | 0 <= k < |fs| ensures CarriesAt(Parse(addr, fs[k]), payload, AddrLen(addr), k) {
      FrameReadsBack(payload, padding, addr, k);
    }
  }

  lemma CarriedIsNumbered(ps: seq<Pci>, payload: Bytes, h: int)
    requires 0 <= h <= 1 && |payload| > 7 - h && Carries(ps, payload, h)
    ensures |ps| >= 2 && Numbered(ps) && ps[0].dl == |payload|
  {
    FrameCountIsExact(|payload|, h);
    assert CarriesAt(ps[0], payload, h, 0);
    forall i | 1 <= i < |ps| ensures ps[i].Consec? && ps[i].sn == Mod16(i) {
      assert CarriesAt(ps[i], payload, h, i);
    }
  }

  lemma NumberedPrefix(ps: seq<Pci>, k: nat)
    requires Numbered(ps) && 1 <= k <= |ps|
    ensures Numbered(ps[..k])
  {
  }

  lemma ExtendPrefix(payload: Bytes, h: int, k: nat, data: Bytes)
    requires 0 <= h <= 1 && k >= 1 && Offset(k, h) < |payload|
    requires payload[Offset(k, h)..Min(Offset(k + 1, h), |payload|)] <= data
    requires Offset(k + 1, h) <= |payload| ==> |data| == 7 - h
    ensures Offset(k + 1, h) <= |payload| ==> payload[..Offset(k, h)] + data == payload[..Offset(k + 1, h)]
    ensures Offset(k + 1, h) >= |payload| ==> payload <= payload[..Offset(k, h)] + data
  {
    var lo, hi := Offset(k, h), Min(Offset(k + 1, h), |payload|);
    assert hi - lo <= |data| && data[..hi - lo] == payload[lo..hi];
    assert payload[..lo] + payload[lo..hi] == payload[..hi];
    if Offset(k + 1, h) <= |payload| {
      assert data == payload[lo..hi];
    }
    if Offset(k + 1, h) >= |payload| {
      assert (payload[..lo] + data)[..|payload|] == payload[..lo] + data[..hi - lo];
    }
  }

  lemma {:induction false} ChunksGather(ps: seq<Pci>, payload: Bytes, h: int, k: nat)
    requires 0 <= h <= 1 && |payload| > 7 - h && 1 <= k <= |ps|
    requires Data(ps[0]) == payload[..6 - h]
    requires forall i :: 1 <= i < |ps| ==> ChunkAt(Data(ps[i]), payload, h, i)
    requires |payload| <= Offset(|ps|, h)
    ensures k < |ps| ==> Offset(k, h) < |payload| && Gather(ps[..k]) == payload[..Offset(k, h)]
    ensures k == |ps| ==> payload <= Gather(ps[..k])
  {
    hide Data;
    assert ps[..k][..k - 1] == ps[..k - 1];
    if k == 1 {
      assert ps[..1][..0] == [] && Gather(ps[..0]) == [];
      assert Gather(ps[..1]) == Data(ps[0]);
    } else {
      ChunksGather(ps, payload, h, k - 1);
      assert ChunkAt(Data(ps[k - 1]), payload, h, k - 1);
      ExtendPrefix(payload, h, k - 1, Data(ps[k - 1]));
    }
    if k < |ps| {
      assert ChunkAt(Data(ps[k]), payload, h, k);
    }
  }

  /** A prefix of a long transfer carries the first bytes, and reaches FF_DL only when no frame is missing. */
  lemma PrefixGathers(ps: seq<Pci>, payload: Bytes, h: int, k: nat)
    requires 0 <= h <= 1 && |payload| > 7 - h && Carries(ps, payload, h)
    requires 1 <= k <= |ps|
    ensures k < |ps| ==> Offset(k, h) < |payload| && Gather(ps[..k]) == payload[..Offset(k, h)]
    ensures k == |ps| ==> payload <= Gather(ps[..k])
  {
    FrameCountIsExact(|payload|, h);
    assert CarriesAt(ps[0], payload, h, 0);
    forall i | 1 <= i < |ps| ensures ChunkAt(Data(ps[i]), payload, h, i) {
      assert CarriesAt(ps[i], payload, h, i);
    }
    ChunksGather(ps, payload, h, k);
  }

  lemma CarriedReassembles(ps: seq<Pci>, payload: Bytes, h: int)
    requires 0 <= h <= 1 && |payload| > 7 - h && Carries(ps, payload, h)
    ensures Reassemble(ps) == Some(payload)
  {
    hide Gather, Carries, FrameCount, Offset, Numbered;
    FrameCountIsExact(|payload|, h);
    CarriedIsNumbered(ps, payload, h);
    PrefixGathers(ps, payload, h, |ps|);
    PrefixGathers(ps, payload, h, |ps| - 1);
    assert ps[..|ps|] == ps;
    assert Gather(ps)[..|payload|] == payload;
  }

  /** Reassembly inverts segmentation, for every payload, padding and address byte. */
  lemma RoundTrip(payload: Bytes, padding: Option<byte>, addr: Addr)
    requires Sendable(payload)
    ensures Reassemble(ParseAll(addr, Segment(payload, padding, addr))) == Some(payload)
  {
    var h := AddrLen(addr);
    if |payload| <= 7 - h {
      FrameReadsBack(payload, padding, addr, 0);
    } else {
      SegmentCarries(payload, padding, addr);
      CarriedReassembles(ParseAll(addr, Segment(payload, padding, addr)), payload, h);
    }
  }
}
