/** What a receiver makes of any frames at all, and of a transfer some frames of which were lost. */
module IsoTpReceive {
  import opened Prelude
  import opened IsoTpFrames
  import opened IsoTpSteps

  datatype Arrival = Arrival(frame: Bytes, now: Time)

  /** The state of a fresh receiver after `fed`. */
  function After(cfg: RxCfg, fed: seq<Arrival>): (s: Rx)
    ensures s.Inv(cfg.bs)
  {
    if fed == [] then Idle
    else
      var last := fed[|fed| - 1];
      RxOnFrame(cfg, After(cfg, fed[..|fed| - 1]), last.frame, last.now).rx
  }

  /** What it does on the last frame of `fed`. */
  function Outcome(cfg: RxCfg, fed: seq<Arrival>): (r: RxStep)
    requires fed != []
    ensures r.rx.Inv(cfg.bs)
  {
    var last := fed[|fed| - 1];
    RxOnFrame(cfg, After(cfg, fed[..|fed| - 1]), last.frame, last.now)
  }

  /** The frames among `fed` that can start, continue or end a transfer. */
  function Heard(addr: Addr, fed: seq<Arrival>): (q: seq<Pci>)
    ensures forall p :: p in q ==> p.Relevant()
  {
    if fed == [] then []
    else
      var p := Parse(addr, fed[|fed| - 1].frame);
      Heard(addr, fed[..|fed| - 1]) + if p.Relevant() then [p] else []
  }

  /** When the last of these was heard. */
  function LastHeardAt(addr: Addr, fed: seq<Arrival>): Time {
    if fed == [] then 0
    else
      var last := fed[|fed| - 1];
      if Parse(addr, last.frame).Relevant() then last.now else LastHeardAt(addr, fed[..|fed| - 1])
  }

  /** The frames heard from some point on are one complete transfer of `payload`. */
  predicate Completes(q: seq<Pci>, payload: Bytes) {
    exists j :: 0 <= j < |q| && Reassemble(q[j..]) == Some(payload)
  }

  predicate UnderWay(ps: seq<Pci>, dl: nat, buf: Bytes) {
    Partial(ps) && ps[0].dl == dl && Gather(ps) == buf
  }

  /** The state is what the frames heard say it is. */
  predicate Explains(q: seq<Pci>, s: Rx) {
    match s
    case Idle => forall j :: 0 <= j < |q| ==> !Partial(q[j..])
    case Receiving(dl, buf, cfs, _, _) =>
      0 <= |q| - cfs - 1 < |q| && UnderWay(q[|q| - cfs - 1..], dl, buf)
  }

  lemma GatherNext(ps: seq<Pci>, p: Pci)
    ensures Gather(ps + [p]) == Gather(ps) + Data(p)
  {
    assert (ps + [p])[..|ps|] == ps;
  }

  lemma NumberedNext(ps: seq<Pci>, p: Pci)
    requires ps != []
    ensures Numbered(ps + [p]) <==> Numbered(ps) && p.Consec? && p.sn == Mod16(|ps|)
  {
    var next := ps + [p];
    assert next[|ps|] == p && next[..|ps|] == ps;
    if Numbered(next) {
      assert forall i :: 1 <= i < |ps| ==> ps[i] == next[i];
    }
  }

  /** A numbered run of frames that `p` extends can start in one place only. */
  lemma OneStart(q: seq<Pci>, i: nat, j: nat)
    requires i < |q| && j < |q|
    ensures Numbered(q[i..]) && Numbered(q[j..]) ==> i == j
  {
    assert q[i..][0] == q[i] && q[j..][0] == q[j];
    assert i < j ==> q[i..][j - i] == q[j];
    assert j < i ==> q[j..][i - j] == q[i];
  }

  /** A frame that starts a transfer, or is one, forgets whatever was under way. */
  lemma FreshStart(cfg: RxCfg, q: seq<Pci>, s: Rx, p: Pci, now: Time)
    requires p.Single? || (p.First? && |p.data| < p.dl)
    ensures var r := RxOnPci(cfg, s, p, now);
            && Explains(q + [p], r.rx)
            && forall payload :: r.res == Ok(Done(payload)) <==> Completes(q + [p], payload)
  {
    var next := q + [p];
    var r := RxOnPci(cfg, s, p, now);
    forall j | 0 <= j < |q| ensures !Numbered(next[j..]) && Reassemble(next[j..]) == None {
      assert next[j..] == q[j..] + [p];
      NumberedNext(q[j..], p);
    }
    assert next[|q|..] == [p];
    assert [p][..0] == [];
    assert Gather([p]) == p.data by {
      GatherNext([], p);
      assert [] + [p] == [p];
    }
    if p.Single? {
      assert Reassemble(next[|q|..]) == Some(p.data);
    }
  }

  /** What one more consecutive frame does to the frames heard since `j`. */
  lemma ExtendFrom(q: seq<Pci>, p: Pci, j: nat)
    requires j <= |q| && p.Consec?
    ensures var ps, next := q[j..], (q + [p])[j..];
            && next == ps + [p]
            && (ps == [] ==> !Numbered(next) && Reassemble(next) == None)
            && (ps != [] ==>
                  var total := Gather(ps) + p.data;
                  var fits := Numbered(ps) && p.sn == Mod16(|ps|);
                  && Gather(next) == total
                  && (Numbered(next) <==> fits)
                  && Reassemble(next)
                     == (if fits && |Gather(ps)| < ps[0].dl <= |total| then Some(total[..ps[0].dl]) else None))
  {
    var ps, next := q[j..], (q + [p])[j..];
    assert next == ps + [p] && next[..|ps|] == ps;
    if ps != [] {
      NumberedNext(ps, p);
      GatherNext(ps, p);
    }
  }

  lemma ExtendOpen(cfg: RxCfg, q: seq<Pci>, s: Rx, p: Pci, now: Time, start: nat)
    requires s.Receiving? && start == |q| - s.cfs - 1 && Explains(q, s) && p.Consec? && s.Inv(cfg.bs)
    ensures var r, ps := RxOnPci(cfg, s, p, now), (q + [p])[start..];
            && (Partial(ps) <==> r.rx.Receiving?)
            && (r.rx.Receiving? ==> r.rx.cfs == s.cfs + 1 && UnderWay(ps, r.rx.dl, r.rx.buf))
            && forall payload :: r.res == Ok(Done(payload)) <==> Reassemble(ps) == Some(payload)
  {
    ExtendFrom(q, p, start);
    var total := s.buf + p.data;
    assert |total| >= s.dl ==> Cut(total, s.dl) == total[..s.dl];
    assert (q + [p])[start..][0] == q[start];
  }

  lemma Extends(cfg: RxCfg, q: seq<Pci>, s: Rx, p: Pci, now: Time)
    requires Explains(q, s) && p.Consec? && s.Inv(cfg.bs)
    ensures var r := RxOnPci(cfg, s, p, now);
            && Explains(q + [p], r.rx)
            && forall payload :: r.res == Ok(Done(payload)) <==> Completes(q + [p], payload)
  {
    var next := q + [p];
    var r := RxOnPci(cfg, s, p, now);
    var start := if s.Receiving? then |q| - s.cfs - 1 else |q|;
    forall j | 0 <= j < |next| && j != start ensures !Partial(next[j..]) && Reassemble(next[j..]) == None {
      ExtendFrom(q, p, j);
      if s.Receiving? && j < |q| {
        OneStart(q, j, start);
      }
    }
    ExtendFrom(q, p, start);
    if s.Receiving? {
      ExtendOpen(cfg, q, s, p, now, start);
    }
  }

  lemma OutcomeStep(cfg: RxCfg, fed: seq<Arrival>)
    requires fed != [] && Explains(Heard(cfg.addr, fed[..|fed| - 1]), After(cfg, fed[..|fed| - 1]))
    ensures Explains(Heard(cfg.addr, fed), Outcome(cfg, fed).rx)
    ensures forall payload ::
              Outcome(cfg, fed).res == Ok(Done(payload))
              <==> Parse(cfg.addr, fed[|fed| - 1].frame).Relevant() && Completes(Heard(cfg.addr, fed), payload)
  {
    var q, s := Heard(cfg.addr, fed[..|fed| - 1]), After(cfg, fed[..|fed| - 1]);
    var last := fed[|fed| - 1];
    var p := Parse(cfg.addr, last.frame);
    if p.Consec? {
      Extends(cfg, q, s, p, last.now);
    } else if p.Relevant() {
      FreshStart(cfg, q, s, p, last.now);
    } else {
      assert Heard(cfg.addr, fed) == q;
    }
  }

  /** The state of a receiver is exactly what the frames heard so far say, whatever they are. */
  lemma {:induction false} StateExplained(cfg: RxCfg, fed: seq<Arrival>)
    ensures Explains(Heard(cfg.addr, fed), After(cfg, fed))
  {
    if fed != [] {
      StateExplained(cfg, fed[..|fed| - 1]);
      OutcomeStep(cfg, fed);
    }
  }

  /** The deadline of a transfer under way is N_Cr after the last frame that counted. */
  lemma {:induction false} DeadlineIsLastHeard(cfg: RxCfg, fed: seq<Arrival>)
    ensures After(cfg, fed).Receiving? ==> After(cfg, fed).deadline == LastHeardAt(cfg.addr, fed) + cfg.nCr
  {
    hide Parse, Cut;
    if fed != [] {
      DeadlineIsLastHeard(cfg, fed[..|fed| - 1]);
    }
  }

  /** The frames heard end in a transfer that has begun and is not complete. */
  predicate MidTransfer(q: seq<Pci>) {
    exists j :: 0 <= j < |q| && Partial(q[j..])
  }

  /** N_Cr has run out exactly when a transfer is under way and its last frame is more than N_Cr ago. */
  lemma CfTimeoutExact(cfg: RxCfg, fed: seq<Arrival>, now: Time)
    ensures CfTimedOut(After(cfg, fed), now)
            <==> MidTransfer(Heard(cfg.addr, fed)) && now > LastHeardAt(cfg.addr, fed) + cfg.nCr
  {
    hide Heard, LastHeardAt, Partial;
    DeadlineIsLastHeard(cfg, fed);
    StateExplained(cfg, fed);
    var q, s := Heard(cfg.addr, fed), After(cfg, fed);
    if s.Receiving? {
      assert Partial(q[|q| - s.cfs - 1..]);
    }
  }

  /**
   Receiver integrity: for every sequence of frames whatsoever, a payload is
   delivered exactly when the frame just heard completes one transfer, and it is
   the payload of that transfer.
   */
  lemma DeliversExactlyTransfers(cfg: RxCfg, fed: seq<Arrival>, payload: Bytes)
    requires fed != []
    ensures Outcome(cfg, fed).res == Ok(Done(payload))
            <==> Parse(cfg.addr, fed[|fed| - 1].frame).Relevant() && Completes(Heard(cfg.addr, fed), payload)
  {
    StateExplained(cfg, fed[..|fed| - 1]);
    OutcomeStep(cfg, fed);
  }

  lemma {:induction false} HeardBounds(addr: Addr, fed: seq<Arrival>, j: nat)
    requires j < |Heard(addr, fed)| && Heard(addr, fed)[j].First?
    ensures 8 - AddrLen(addr) <= Heard(addr, fed)[j].dl <= MAX_PAYLOAD
  {
    var before := Heard(addr, fed[..|fed| - 1]);
    if j < |before| {
      HeardBounds(addr, fed[..|fed| - 1], j);
    }
  }

  /** A multi-frame payload has exactly the announced length, which one first frame fixes. */
  lemma DeliveredLength(cfg: RxCfg, fed: seq<Arrival>, payload: Bytes)
    requires fed != [] && Outcome(cfg, fed).res == Ok(Done(payload))
    requires Parse(cfg.addr, fed[|fed| - 1].frame).Consec?
    ensures 8 - AddrLen(cfg.addr) <= |payload| <= MAX_PAYLOAD
    ensures exists j :: 0 <= j < |Heard(cfg.addr, fed)| && Heard(cfg.addr, fed)[j].First?
                        && Heard(cfg.addr, fed)[j].dl == |payload|
  {
    hide Parse, Outcome, Gather;
    DeliversExactlyTransfers(cfg, fed, payload);
    var q := Heard(cfg.addr, fed);
    var j :| 0 <= j < |q| && Reassemble(q[j..]) == Some(payload);
    assert q[|q| - 1].Consec?;
    assert q[j..][0] == q[j] && q[j..][|q| - j - 1] == q[|q| - 1];
    HeardBounds(cfg.addr, fed, j);
  }

  // ---- losses ---------------------------------------------------------------

  /** `kept` lists, in order, the frames of a transfer of `total` frames that got through. */
  predicate Subsequence(kept: seq<nat>, total: nat) {
    && (forall i :: 0 <= i < |kept| ==> kept[i] < total)
    && forall i, j :: 0 <= i < j < |kept| ==> kept[i] < kept[j]
  }

  predicate NothingLost(kept: seq<nat>, total: nat) {
    |kept| == total
  }

  predicate Feeds(fed: seq<Arrival>, fs: seq<Bytes>, kept: seq<nat>) {
    && Subsequence(kept, |fs|)
    && |fed| == |kept|
    && forall i :: 0 <= i < |fed| ==> fed[i].frame == fs[kept[i]]
  }

  lemma {:induction false} AtLeast(kept: seq<nat>, total: nat, i: nat)
    requires Subsequence(kept, total) && i < |kept|
    ensures i <= kept[i]
  {
    if i > 0 {
      AtLeast(kept, total, i - 1);
    }
  }

  lemma {:induction false} IncreasingBounds(kept: seq<nat>, total: nat, i: nat)
    requires Subsequence(kept, total) && i < |kept|
    ensures i <= kept[i] && kept[i] + |kept| - i <= total
    decreases |kept| - i
  {
    if i + 1 < |kept| {
      IncreasingBounds(kept, total, i + 1);
    }
    AtLeast(kept, total, i);
  }

  lemma {:induction false} HeardAll(addr: Addr, fed: seq<Arrival>)
    requires forall i :: 0 <= i < |fed| ==> Parse(addr, fed[i].frame).Relevant()
    ensures |Heard(addr, fed)| == |fed|
    ensures forall i :: 0 <= i < |fed| ==> Heard(addr, fed)[i] == Parse(addr, fed[i].frame)
  {
    hide Parse;
    if fed != [] {
      HeardAll(addr, fed[..|fed| - 1]);
    }
  }

  /** `m` frames of a transfer carry at most `Offset(m, h)` bytes: padding never makes up for a missing frame. */
  lemma {:induction false} GatherBound(ps: seq<Pci>, h: int)
    requires 0 <= h <= 1 && ps != [] && ps[0].First? && |ps[0].data| == 6 - h
    requires forall i :: 1 <= i < |ps| ==> ps[i].Consec? && |ps[i].data| <= 7 - h
    ensures |Gather(ps)| <= Offset(|ps|, h)
  {
    if |ps| == 1 {
      assert Gather(ps[..0]) == [];
    } else {
      GatherBound(ps[..|ps| - 1], h);
    }
  }

  lemma ParsedTransfer(payload: Bytes, padding: Option<byte>, addr: Addr, k: nat)
    requires Sendable(payload) && k < FrameCount(|payload|, AddrLen(addr))
    ensures var p := Parse(addr, FrameAt(payload, padding, addr, k));
            && p.Relevant()
            && (|payload| > 7 - AddrLen(addr) ==> if k == 0 then p.First? && p.dl == |payload| else p.Consec?)
  {
    FrameReadsBack(payload, padding, addr, k);
  }

  lemma TooFew(q: seq<Pci>, n: nat, h: int)
    requires 0 <= h <= 1 && n > 7 - h && 1 <= |q| < FrameCount(n, h)
    requires q[0].First? && q[0].dl == n && |q[0].data| == 6 - h
    requires forall i :: 1 <= i < |q| ==> q[i].Consec? && |q[i].data| <= 7 - h
    ensures |Gather(q)| < n && Reassemble(q) == None
  {
    hide Gather;
    FrameCountIsExact(n, h);
    GatherBound(q, h);
    OffsetMonotone(|q|, FrameCount(n, h) - 1, h);
  }

  lemma GatherTooShort(cfg: RxCfg, payload: Bytes, padding: Option<byte>, fed: seq<Arrival>, kept: seq<nat>)
    requires Sendable(payload) && fed != []
    requires Feeds(fed, Segment(payload, padding, cfg.addr), kept)
    requires |Heard(cfg.addr, fed)| == |fed|
    requires forall i :: 0 <= i < |fed| ==> Heard(cfg.addr, fed)[i] == Parse(cfg.addr, fed[i].frame)
    requires kept[0] == 0 && |kept| < FrameCount(|payload|, AddrLen(cfg.addr))
    ensures Reassemble(Heard(cfg.addr, fed)) == None
  {
    hide FrameAt, Parse, Heard;
    var addr, h := cfg.addr, AddrLen(cfg.addr);
    forall i | 0 <= i < |fed|
      ensures var p := Parse(cfg.addr, fed[i].frame);
              if i == 0 then p.First? && p.dl == |payload| && |p.data| == 6 - h else p.Consec? && |p.data| <= 7 - h
    {
      ParsedTransfer(payload, padding, addr, kept[i]);
    }
    TooFew(Heard(cfg.addr, fed), |payload|, h);
  }

  /** Only the first frame can start the transfer that completes. */
  lemma StartsAtFirst(cfg: RxCfg, payload: Bytes, padding: Option<byte>, fed: seq<Arrival>, kept: seq<nat>, j: nat)
    requires Sendable(payload) && fed != []
    requires Feeds(fed, Segment(payload, padding, cfg.addr), kept)
    requires |Heard(cfg.addr, fed)| == |fed|
    requires forall i :: 0 <= i < |fed| ==> Heard(cfg.addr, fed)[i] == Parse(cfg.addr, fed[i].frame)
    requires j < |fed| && Reassemble(Heard(cfg.addr, fed)[j..]).Some?
    ensures j == 0 && kept[0] == 0
  {
    hide FrameAt, Parse, Heard, Gather;
    var q := Heard(cfg.addr, fed);
    assert q[j..][0] == q[j];
    ParsedTransfer(payload, padding, cfg.addr, kept[j]);
    FrameReadsBack(payload, padding, cfg.addr, kept[j]);
    AtLeast(kept, FrameCount(|payload|, AddrLen(cfg.addr)), j);
  }

  /**
   Loss never corrupts: fed any frames of one transfer in order, a fresh receiver
   delivers on the last of them exactly when none is missing, and then the payload.
   */
  lemma LossNeverCorrupts(
    cfg: RxCfg, payload: Bytes, padding: Option<byte>, fed: seq<Arrival>, kept: seq<nat>, got: Bytes)
    requires Sendable(payload) && fed != []
    requires Feeds(fed, Segment(payload, padding, cfg.addr), kept)
    ensures Outcome(cfg, fed).res == Ok(Done(got))
            <==> NothingLost(kept, FrameCount(|payload|, AddrLen(cfg.addr))) && got == payload
  {
    var addr, h := cfg.addr, AddrLen(cfg.addr);
    var fs := Segment(payload, padding, addr);
    forall i | 0 <= i < |fed| ensures Parse(addr, fed[i].frame).Relevant() {
      ParsedTransfer(payload, padding, addr, kept[i]);
    }
    HeardAll(addr, fed);
    var q := Heard(addr, fed);
    DeliversExactlyTransfers(cfg, fed, got);
    if |kept| == |fs| {
      forall i | 0 <= i < |fed| ensures kept[i] == i {
        IncreasingBounds(kept, |fs|, i);
      }
      assert q == ParseAll(addr, fs);
      RoundTrip(payload, padding, addr);
      assert q[0..] == q;
      assert Completes(q, payload);
      if Completes(q, got) {
        var j :| 0 <= j < |q| && Reassemble(q[j..]) == Some(got);
        StartsAtFirst(cfg, payload, padding, fed, kept, j);
      }
    } else {
      IncreasingBounds(kept, |fs|, 0);
      if Completes(q, got) {
        var j :| 0 <= j < |q| && Reassemble(q[j..]) == Some(got);
        StartsAtFirst(cfg, payload, padding, fed, kept, j);
        assert q[0..] == q;
        GatherTooShort(cfg, payload, padding, fed, kept);
      }
    }
  }

  /** The first frame got through, and every run lost since has a length divisible by 16. */
  predicate Unnoticed(kept: seq<nat>) {
    kept != [] && kept[0] == 0 && forall i :: 0 <= i < |kept| ==> Mod16(kept[i]) == Mod16(i)
  }

  lemma IdleRefuses(cfg: RxCfg, p: Pci, now: Time)
    requires p.Consec?
    ensures RxOnPci(cfg, Idle, p, now).res == Err(Malformed(NoFirstFrame))
  {
  }

  /** What is heard of the frames kept. */
  predicate Kept(q: seq<Pci>, kept: seq<nat>, payload: Bytes, h: int) {
    && |q| == |kept|
    && forall i :: 0 <= i < |q| ==>
         && i <= kept[i]
         && if kept[i] == 0 then q[i].First? && q[i].dl == |payload| && |q[i].data| == 6 - h
            else q[i].Consec? && q[i].sn == Mod16(kept[i]) && |q[i].data| <= 7 - h
  }

  lemma KeptHeard(cfg: RxCfg, payload: Bytes, padding: Option<byte>, fed: seq<Arrival>, kept: seq<nat>)
    requires Sendable(payload) && |payload| > 7 - AddrLen(cfg.addr)
    requires Feeds(fed, Segment(payload, padding, cfg.addr), kept)
    ensures Kept(Heard(cfg.addr, fed), kept, payload, AddrLen(cfg.addr))
  {
    hide FrameAt, Parse, Mod16, Heard;
    forall i | 0 <= i < |fed| ensures Parse(cfg.addr, fed[i].frame).Relevant() {
      ParsedTransfer(payload, padding, cfg.addr, kept[i]);
    }
    HeardAll(cfg.addr, fed);
    forall i | 0 <= i < |fed|
      ensures var p := Parse(cfg.addr, fed[i].frame);
              if kept[i] == 0 then p.First? && p.dl == |payload| else p.Consec? && p.sn == Mod16(kept[i])
    {
      ParsedTransfer(payload, padding, cfg.addr, kept[i]);
      FrameReadsBack(payload, padding, cfg.addr, kept[i]);
    }
    forall i | 0 <= i < |kept| ensures i <= kept[i] {
      AtLeast(kept, FrameCount(|payload|, AddrLen(cfg.addr)), i);
    }
  }

  lemma Mod16Of0()
    ensures Mod16(0) == 0
  {
  }

  lemma KeptNumbered(q: seq<Pci>, kept: seq<nat>)
    requires exists payload, h :: Kept(q, kept, payload, h)
    ensures Numbered(q) <==> Unnoticed(kept)
  {
    hide Mod16;
    var payload, h :| Kept(q, kept, payload, h);
    Mod16Of0();
  }

  lemma KeptTooShort(q: seq<Pci>, payload: Bytes, h: int)
    requires 0 <= h <= 1 && |payload| > 7 - h && 1 <= |q| < FrameCount(|payload|, h)
    requires Numbered(q) && q[0].dl == |payload| && |q[0].data| == 6 - h
    requires forall i :: 1 <= i < |q| ==> |q[i].data| <= 7 - h
    ensures Partial(q)
  {
    TooFew(q, |payload|, h);
  }

  lemma OnlyFirstStarts(q: seq<Pci>, kept: seq<nat>, start: nat)
    requires exists payload, h :: Kept(q, kept, payload, h)
    requires start < |q| && Partial(q[start..])
    ensures start == 0 && Numbered(q)
  {
    hide Gather, Mod16;
    var payload, h :| Kept(q, kept, payload, h);
    assert q[start..][0] == q[start] && q[start].First? && kept[start] == 0;
    assert q[0..] == q;
  }

  lemma MiddleState(q: seq<Pci>, s: Rx)
    requires Partial(q) && Explains(q, s)
    ensures s.Receiving? && s.cfs == |q| - 1 && s.dl == q[0].dl && s.buf == Gather(q)
  {
    assert q[0..] == q;
    if s.Receiving? {
      OneStart(q, 0, |q| - s.cfs - 1);
    }
  }

  lemma StateOfKept(q: seq<Pci>, kept: seq<nat>, payload: Bytes, h: int, s: Rx)
    requires 0 <= h <= 1 && |payload| > 7 - h && |kept| < FrameCount(|payload|, h)
    requires Kept(q, kept, payload, h) && Explains(q, s)
    ensures if Unnoticed(kept) then s.Receiving? && s.cfs == |kept| - 1 else s.Idle?
  {
    hide Mod16, Gather, Partial;
    KeptNumbered(q, kept);
    assert q[0..] == q;
    if Unnoticed(kept) {
      KeptTooShort(q, payload, h);
      MiddleState(q, s);
    } else if s.Receiving? {
      OnlyFirstStarts(q, kept, |q| - s.cfs - 1);
    }
  }

  /** Before frame `k` the receiver is in the transfer, or has given it up. */
  lemma KeptState(cfg: RxCfg, payload: Bytes, padding: Option<byte>, fed: seq<Arrival>, kept: seq<nat>, k: nat)
    requires Sendable(payload) && |payload| > 7 - AddrLen(cfg.addr) && 1 <= k < FrameCount(|payload|, AddrLen(cfg.addr))
    requires Feeds(fed, Segment(payload, padding, cfg.addr), kept) && forall i :: 0 <= i < |kept| ==> kept[i] < k
    ensures |kept| <= k
    ensures var s := After(cfg, fed);
            if Unnoticed(kept) then s.Receiving? && s.cfs == |kept| - 1 else s.Idle?
  {
    hide FrameAt, Parse, Mod16, Gather, Heard, After, Partial, Numbered, Unnoticed, Kept;
    KeptHeard(cfg, payload, padding, fed, kept);
    if kept != [] {
      IncreasingBounds(kept, k, 0);
    }
    StateExplained(cfg, fed);
    StateOfKept(Heard(cfg.addr, fed), kept, payload, AddrLen(cfg.addr), After(cfg, fed));
  }

  lemma NumberDecides(cfg: RxCfg, s: Rx, p: Pci, now: Time)
    requires s.Receiving? && p.Consec?
    ensures var res := RxOnPci(cfg, s, p, now).res;
            if p.sn == Mod16(s.cfs + 1) then res.Ok? else res == Err(SequenceError(Mod16(s.cfs + 1), p.sn))
  {
  }

  lemma SameResidue(k: nat, gap: nat)
    ensures Mod16(k) == Mod16(k + gap) <==> gap % 16 == 0
  {
  }

  /**
   What the next frame of a transfer meets after any losses: a sequence error exactly when
   the frames lost before it are not a multiple of 16 for the first time; a receiver that
   has noticed a loss, or has not heard the first frame, refuses every frame that follows.
   */
  lemma GapDetected(
    cfg: RxCfg, payload: Bytes, padding: Option<byte>, fed: seq<Arrival>, kept: seq<nat>, k: nat, now: Time)
    requires Sendable(payload) && |payload| > 7 - AddrLen(cfg.addr) && 1 <= k < FrameCount(|payload|, AddrLen(cfg.addr))
    requires Feeds(fed, Segment(payload, padding, cfg.addr), kept) && forall i :: 0 <= i < |kept| ==> kept[i] < k
    ensures var res := RxOnFrame(cfg, After(cfg, fed), FrameAt(payload, padding, cfg.addr, k), now).res;
            if !Unnoticed(kept) then res == Err(Malformed(NoFirstFrame))
            else if (k - |kept|) % 16 == 0 then |kept| <= k && res.Ok?
            else res == Err(SequenceError(Mod16(|kept|), Mod16(k)))
  {
    hide FrameAt, Parse, RxOnPci, Offset, Mod16, Unnoticed;
    var s, p := After(cfg, fed), Parse(cfg.addr, FrameAt(payload, padding, cfg.addr, k));
    KeptState(cfg, payload, padding, fed, kept, k);
    assert p.Consec? && p.sn == Mod16(k) by {
      FrameReadsBack(payload, padding, cfg.addr, k);
    }
    if Unnoticed(kept) {
      NumberDecides(cfg, s, p, now);
      SameResidue(|kept|, k - |kept|);
    } else {
      IdleRefuses(cfg, p, now);
    }
  }

  /** Having heard a proper prefix of a long transfer, the receiver is in the middle of it. */
  lemma PrefixState(cfg: RxCfg, payload: Bytes, padding: Option<byte>, fed: seq<Arrival>)
    requires Sendable(payload)
    requires 1 <= |fed| < FrameCount(|payload|, AddrLen(cfg.addr))
    requires forall i :: 0 <= i < |fed| ==> fed[i].frame == FrameAt(payload, padding, cfg.addr, i)
    ensures var s := After(cfg, fed);
            && s.Receiving? && s.cfs == |fed| - 1 && s.dl == |payload|
            && Offset(|fed|, AddrLen(cfg.addr)) < |payload|
            && s.buf == payload[..Offset(|fed|, AddrLen(cfg.addr))]
  {
    hide FrameAt, Parse, RxOnPci, Gather;
    var addr, h := cfg.addr, AddrLen(cfg.addr);
    var fs := Segment(payload, padding, addr);
    forall i | 0 <= i < |fed| ensures Parse(addr, fed[i].frame).Relevant() {
      ParsedTransfer(payload, padding, addr, i);
    }
    HeardAll(addr, fed);
    SegmentCarries(payload, padding, addr);
    var all := ParseAll(addr, fs);
    CarriedIsNumbered(all, payload, h);
    NumberedPrefix(all, |fed|);
    PrefixGathers(all, payload, h, |fed|);
    StateExplained(cfg, fed);
    var q := Heard(addr, fed);
    assert q == all[..|fed|];
    MiddleState(q, After(cfg, fed));
  }

  // ---- the receiver's counter -----------------------------------------------

  /** A first frame, and then `n` consecutive frames that carry nothing. */
  function Stalling(cfg: RxCfg, n: nat): seq<Arrival> {
    if n == 0 then [Arrival(StartFrame(cfg.addr) + [0x10, 8] + seq(6 - AddrLen(cfg.addr), _ => 0), 0)]
    else Stalling(cfg, n - 1) + [Arrival(StartFrame(cfg.addr) + [0x20 + Mod16(n)], 0)]
  }

  lemma EmptyConsecutive(addr: Addr, n: nat)
    ensures Parse(addr, StartFrame(addr) + [0x20 + Mod16(n)]) == Consec(Mod16(n), [])
  {
    Mod16Next(n);
    hide Mod16;
    var f, h := StartFrame(addr) + [0x20 + Mod16(n)], AddrLen(addr);
    assert f[h..] == [0x20 + Mod16(n)];
  }

  lemma OpensTransfer(cfg: RxCfg)
    ensures After(cfg, Stalling(cfg, 0)).Receiving? && After(cfg, Stalling(cfg, 0)).dl == 8
    ensures After(cfg, Stalling(cfg, 0)).cfs == After(cfg, Stalling(cfg, 0)).block == 0
    ensures |After(cfg, Stalling(cfg, 0)).buf| == 6 - AddrLen(cfg.addr)
  {
    var fed := Stalling(cfg, 0);
    var f, h := fed[0].frame, AddrLen(cfg.addr);
    assert fed[..0] == [] && f[h] == 0x10 && f[h + 1] == 8 && |f| == 8;
    assert Parse(cfg.addr, f) == First(8, f[h..][2..8 - h]);
  }

  lemma TakesNothing(cfg: RxCfg, s: Rx, now: Time)
    requires cfg.bs == 0 && s.Receiving? && |s.buf| < s.dl
    ensures RxOnPci(cfg, s, Consec(Mod16(s.cfs + 1), []), now).rx
            == Receiving(s.dl, s.buf, s.cfs + 1, s.block + 1, now + cfg.nCr)
  {
    hide Mod16;
    Unit(s.buf);
  }

  /** An accepted frame need not carry data, so a peer can make the receiver count as long as it likes. */
  lemma {:induction false} StallingCounts(cfg: RxCfg, n: nat)
    requires cfg.bs == 0
    ensures var s := After(cfg, Stalling(cfg, n));
            s.Receiving? && s.dl == 8 && |s.buf| == 6 - AddrLen(cfg.addr) && s.cfs == s.block == n
  {
    hide Mod16, RxOnPci, Parse;
    if n == 0 {
      OpensTransfer(cfg);
    } else {
      var fed := Stalling(cfg, n);
      assert fed[..|fed| - 1] == Stalling(cfg, n - 1);
      StallingCounts(cfg, n - 1);
      EmptyConsecutive(cfg.addr, n);
      TakesNothing(cfg, After(cfg, Stalling(cfg, n - 1)), 0);
    }
  }

  /**
   The receiver's own 8-bit counter overflows under some peer if and only if it asks for unlimited
   blocks, whatever the length announced.
   */
  lemma RxCounterWrapsExactly(cfg: RxCfg)
    ensures (exists fed :: After(cfg, fed).Receiving? && After(cfg, fed).block >= 256) <==> cfg.bs == 0
  {
    if cfg.bs == 0 {
      StallingCounts(cfg, 256);
    }
  }

  /** With unlimited blocks every accepted consecutive frame counts. */
  lemma {:induction false} UnlimitedCounts(cfg: RxCfg, fed: seq<Arrival>)
    requires cfg.bs == 0
    ensures var s := After(cfg, fed); s.Receiving? ==> s.block == s.cfs
  {
    hide Parse, Cut, Mod16;
    if fed != [] {
      UnlimitedCounts(cfg, fed[..|fed| - 1]);
    }
  }

  /** `fed` is a proper beginning of the transfer. */
  predicate Begins(cfg: RxCfg, payload: Bytes, padding: Option<byte>, fed: seq<Arrival>)
    requires Sendable(payload)
  {
    && 1 <= |fed| < FrameCount(|payload|, AddrLen(cfg.addr))
    && forall i :: 0 <= i < |fed| ==> fed[i].frame == FrameAt(payload, padding, cfg.addr, i)
  }

  /** From a transmitter that follows the standard it takes as long a payload as it takes there. */
  lemma TransferWrapsExactly(cfg: RxCfg, payload: Bytes, padding: Option<byte>)
    requires Sendable(payload)
    ensures (exists fed ::
               Begins(cfg, payload, padding, fed) && After(cfg, fed).Receiving? && After(cfg, fed).block >= 256)
            <==> cfg.bs == 0 && |payload| >= if cfg.addr.None? then 1799 else 1542
  {
    hide After, FrameAt;
    if fed :| Begins(cfg, payload, padding, fed) && After(cfg, fed).Receiving? && After(cfg, fed).block >= 256 {
      PrefixState(cfg, payload, padding, fed);
      UnlimitedCounts(cfg, fed);
    }
    if cfg.bs == 0 && FrameCount(|payload|, AddrLen(cfg.addr)) >= 258 {
      var fed := seq(257, i requires 0 <= i < 257 => Arrival(FrameAt(payload, padding, cfg.addr, i), 0));
      PrefixState(cfg, payload, padding, fed);
      UnlimitedCounts(cfg, fed);
      assert Begins(cfg, payload, padding, fed);
    }
  }
}
