/**
 The two machines by the bytes they get, after any run: what a transmitter makes of the next
 poll or frame, and what a receiver answers to the next frame. The rules refer to the past of
 the run only, never to a machine's state or to what the model reads in a frame.
 */
module IsoTpRules {
  import opened Prelude
  import opened IsoTpFrames
  import opened IsoTpSteps
  import opened T = IsoTpTransmit
  import R = IsoTpReceive

  // ---- frames by their bytes ------------------------------------------------

  /** `body`, filled up to eight bytes if there is padding, and left alone if there is none. */
  predicate Padded(f: Bytes, body: Bytes, padding: Option<byte>)
    requires |body| <= 8
  {
    match padding
    case None => f == body
    case Some(fill) => |f| == 8 && body <= f && forall i :: |body| <= i < 8 ==> f[i] == fill
  }

  /** What every frame begins with: the address byte, if there is one. */
  function Lead(addr: Addr): (s: Bytes)
    ensures |s| == AddrLen(addr)
  {
    match addr
    case None => []
    case Some(a) => [a]
  }

  lemma PadIsPadded(body: Bytes, padding: Option<byte>)
    requires |body| <= 8
    ensures Padded(Pad(body, padding), body, padding)
  {
  }

  /** The full frames before frame `k` carry this many bytes. */
  lemma OffsetAt(k: nat, h: int)
    requires 0 <= h <= 1 && k > 0
    ensures Offset(k, h) == 6 - h + (k - 1) * (7 - h) && Offset(k + 1, h) == Offset(k, h) + 7 - h
  {
  }

  /** The bytes of every frame of a segmentation: address byte, control information, payload, padding. */
  lemma FrameBytes(payload: Bytes, padding: Option<byte>, addr: Addr, k: nat)
    requires Sendable(payload) && k < FrameCount(|payload|, AddrLen(addr))
    ensures var n, f, lead := |payload|, FrameAt(payload, padding, addr, k), Lead(addr);
            var first := 6 - |lead|;
            if n <= first + 1 then Padded(f, lead + [n] + payload, padding)
            else if k == 0 then f == lead + [0x10 + n / 0x100, n % 0x100] + payload[..first]
            else
              var from := first + (k - 1) * (first + 1);
              && from < n
              && Padded(f, lead + [0x20 + k % 16] + payload[from..Min(from + first + 1, n)], padding)
  {
    hide Pad, Padded, Offset, FrameCount;
    var n, h := |payload|, AddrLen(addr);
    if n <= 7 - h {
      PadIsPadded(Lead(addr) + [n] + payload, padding);
    } else if k > 0 {
      FrameCountIsExact(n, h);
      OffsetMonotone(k, FrameCount(n, h) - 1, h);
      OffsetAt(k, h);
      PadIsPadded(Lead(addr) + [0x20 + k % 16] + payload[Offset(k, h)..Min(Offset(k + 1, h), n)], padding);
    }
  }

  /** The bytes of the receiver's flow control. */
  lemma GrantBytes(cfg: RxCfg)
    ensures Padded(cfg.Fc(), Lead(cfg.addr) + [0x30, cfg.bs, cfg.stmin], cfg.padding)
  {
  }

  // ---- the transmitter ------------------------------------------------------

  /** The frame is a flow control of this status, whole or not. */
  predicate HasStatus(addr: Addr, f: Bytes, status: nat) {
    status < 16 && Lead(addr) + [0x30 + status] <= f
  }

  /** It has all three bytes of a flow control. */
  predicate Whole(addr: Addr, f: Bytes) {
    |f| >= |Lead(addr)| + 3
  }

  lemma FcByBytes(addr: Addr, f: Bytes)
    ensures forall bs, stmin :: ParseFc(addr, f) == Cts(bs, stmin) <==> Lead(addr) + [0x30, bs, stmin] <= f
    ensures ParseFc(addr, f).Cts? <==> HasStatus(addr, f, 0) && Whole(addr, f)
    ensures ParseFc(addr, f).Wait? <==> HasStatus(addr, f, 1) && Whole(addr, f)
    ensures ParseFc(addr, f).Ovflw? <==> HasStatus(addr, f, 2) && Whole(addr, f)
    ensures ParseFc(addr, f).Reserved? <==> Whole(addr, f) && exists status :: 3 <= status && HasStatus(addr, f, status)
    ensures ParseFc(addr, f).ShortFc? <==> !Whole(addr, f) && exists status :: HasStatus(addr, f, status)
    ensures ParseFc(addr, f).NotFc? <==> !exists status :: HasStatus(addr, f, status)
  {
    var h := |Lead(addr)|;
    if status :| HasStatus(addr, f, status) {
      assert f[..h + 1] == Lead(addr) + [0x30 + status];
      assert f[h] == 0x30 + status;
    }
    if |f| >= h + 1 && f[h] / 16 == 3 && (addr.Some? ==> f[0] == addr.value) {
      assert Lead(addr) + [f[h]] == f[..h + 1];
      assert HasStatus(addr, f, f[h] % 16);
    }
  }

  /** WAITs heard since the last grant, those that were one too many included. */
  function WaitsHeard(trace: seq<Event>): nat {
    if trace == [] then 0
    else
      var e := trace[|trace| - 1];
      if e.Granted? then 0
      else WaitsHeard(trace[..|trace| - 1]) + if e.Waited? || (e.Failed? && e.error.WaitLimit?) then 1 else 0
  }

  /** When the next frame may go out: at once after a grant, and then with the gap it asks for. */
  function DueAt(trace: seq<Event>): Time {
    if trace == [] then 0
    else
      var e := trace[|trace| - 1];
      match e
      case Granted(_, _, at) => at
      case Sent(_, at) => at + (match LastGrant(trace) case None => 0 case Some(g) => DecodeStmin(g.stmin))
      case _ => DueAt(trace[..|trace| - 1])
  }

  lemma Next(trace: seq<Event>, e: Event)
    ensures var next := trace + [e];
            && WaitsHeard(next)
               == (if e.Granted? then 0
                   else WaitsHeard(trace) + if e.Waited? || (e.Failed? && e.error.WaitLimit?) then 1 else 0)
            && DueAt(next)
               == (if e.Granted? then e.at
                   else if e.Sent? then
                     e.at + (match LastGrant(trace) case None => 0 case Some(g) => DecodeStmin(g.stmin))
                   else DueAt(trace))
  {
    assert (trace + [e])[..|trace|] == trace;
    Append(trace, e);
  }

  /** The WAIT counter and the moment the machine waits for, in terms of the trace. */
  predicate Tracked(t: Tx, trace: seq<Event>) {
    && t.waits == Mod256(WaitsHeard(trace))
    && (t.phase.Consecutive? ==> t.phase.earliest == DueAt(trace))
  }

  lemma PollTracked(t: Tx, trace: seq<Event>, now: Time)
    requires t.Inv() && Coupled(t, trace) && Tracked(t, trace)
    ensures var s := Step(t, Poll(now)); Tracked(s.tx, trace + s.trace)
  {
    hide FrameAt, FrameCount, DecodeStmin, Frames, LastGrant, SinceGrant, WaitsSinceGrant, LastArmed, Clean,
         WaitsHeard, DueAt, BlockOver, Mod256;
    var s := Step(t, Poll(now));
    if s.trace == [] {
      Unit(trace);
    } else {
      assert s.trace == [s.trace[0]];
      Next(trace, s.trace[0]);
    }
  }

  lemma RecvTracked(t: Tx, trace: seq<Event>, f: Bytes, now: Time)
    requires t.Inv() && Coupled(t, trace) && Tracked(t, trace)
    ensures var s := Step(t, Recv(f, now)); Tracked(s.tx, trace + s.trace)
  {
    hide ParseFc, DecodeStmin, Coupled, WaitsHeard, DueAt, Mod256;
    Mod256Next(WaitsHeard(trace));
    Mod256Next(0);
    var s := Step(t, Recv(f, now));
    if s.trace == [] {
      Unit(trace);
    } else {
      assert s.trace == [s.trace[0]];
      Next(trace, s.trace[0]);
    }
  }

  lemma {:induction false} TracesTracked(cfg: TxCfg, ins: seq<Input>)
    requires cfg.Valid()
    ensures var r := RunFrom(cfg, ins); Coupled(r.tx, r.trace) && Tracked(r.tx, r.trace)
  {
    hide Step, Coupled, FrameAt, FrameCount;
    TraceSound(cfg, ins);
    if ins != [] {
      var before, i := RunFrom(cfg, ins[..|ins| - 1]), ins[|ins| - 1];
      TracesTracked(cfg, ins[..|ins| - 1]);
      match i
      case Poll(now) => PollTracked(before.tx, before.trace, now);
      case Recv(f, now) => RecvTracked(before.tx, before.trace, f, now);
    }
  }

  /** The machine waits exactly when the first frame or a whole block is out and more is to come. */
  lemma Waiting(t: Tx, trace: seq<Event>)
    requires t.Inv() && Coupled(t, trace)
    ensures t.phase.AwaitFc? <==> BlockOver(t.cfg, trace)
    ensures t.phase.Finished? <==> |Frames(trace)| == t.cfg.Total()
    ensures t.phase.AwaitFc? ==> t.phase.deadline == LastArmed(trace) + t.cfg.nBs
  {
    hide FrameAt, LastArmed, WaitsSinceGrant, Clean;
  }

  lemma OneEvent(past: seq<Event>, more: seq<Event>)
    requires |more| <= 1
    ensures forall e :: past + more == past + [e] <==> more == [e]
    ensures past + more == past <==> more == []
  {
    if more != [] {
      assert (past + more)[|past|] == more[0];
    }
  }

  /**
   What a frame adds to a run, whatever came before it. A sender that waits takes the grant it
   carries, byte for byte; a WAIT it honours or, the 8-bit count past the limit, refuses; overflow,
   a reserved status and a flow control cut short are errors. Anything else changes nothing.
   */
  lemma ReceivedExactly(cfg: TxCfg, ins: seq<Input>, f: Bytes, now: Time)
    requires cfg.Valid()
    ensures var (run, next) := (RunFrom(cfg, ins), RunFrom(cfg, ins + [Recv(f, now)]));
            var past, a := run.trace, cfg.addr;
            var waiting, limited := BlockOver(cfg, past), (WaitsHeard(past) + 1) % 256 > cfg.wftMax as int;
            && (forall bs, stmin :: next.trace == past + [Granted(bs, stmin, now)]
                                    <==> waiting && Lead(a) + [0x30, bs, stmin] <= f)
            && (next.trace == past + [Waited(now)] <==> waiting && HasStatus(a, f, 1) && Whole(a, f) && !limited)
            && (next.trace == past + [Failed(WaitLimit(cfg.wftMax), now)]
                <==> waiting && HasStatus(a, f, 1) && Whole(a, f) && limited)
            && (next.trace == past + [Failed(Overflow, now)] <==> waiting && HasStatus(a, f, 2) && Whole(a, f))
            && (next.trace == past + [Failed(Malformed(ReservedFlowStatus), now)]
                <==> waiting && Whole(a, f) && exists status :: 3 <= status && HasStatus(a, f, status))
            && (next.trace == past + [Failed(Malformed(ShortFlowControl), now)]
                <==> waiting && !Whole(a, f) && exists status :: HasStatus(a, f, status))
            && (!waiting || (forall status :: !HasStatus(a, f, status)) ==> next == run)
  {
    hide ParseFc, DecodeStmin, BlockOver, HasStatus, Whole, Coupled, WaitsHeard, RunFrom, FrameCount, DueAt;
    var run := RunFrom(cfg, ins);
    TracesTracked(cfg, ins);
    Waiting(run.tx, run.trace);
    RunStep(cfg, ins, Recv(f, now));
    FcByBytes(cfg.addr, f);
    Mod256Next(WaitsHeard(run.trace));
    OneEvent(run.trace, Step(run.tx, Recv(f, now)).trace);
  }

  /**
   What a poll adds to a run: the next frame of the segmentation as soon as it is due, and a timeout
   as soon as N_Bs has run out on a sender that waits. Anything else changes nothing.
   */
  lemma PolledExactly(cfg: TxCfg, ins: seq<Input>, now: Time)
    requires cfg.Valid()
    ensures var (run, next) := (RunFrom(cfg, ins), RunFrom(cfg, ins + [Poll(now)]));
            var past, k := run.trace, |Frames(run.trace)|;
            var due := k < cfg.Total() && !BlockOver(cfg, past) && (k == 0 || now >= DueAt(past));
            var late := BlockOver(cfg, past) && now >= LastArmed(past) + cfg.nBs;
            && k <= cfg.Total()
            && (due ==> next.trace == past + [Sent(cfg.Frame(k), now)])
            && (late ==> next.trace == past + [Failed(FcTimeout, now)] && next.tx == run.tx)
            && (!due && !late ==> next == run)
  {
    hide DecodeStmin, BlockOver, FrameAt, FrameCount, RunFrom, DueAt, LastArmed;
    var run := RunFrom(cfg, ins);
    TracesTracked(cfg, ins);
    Waiting(run.tx, run.trace);
    RunStep(cfg, ins, Poll(now));
    Unit(run.trace);
  }

  // ---- the receiver ---------------------------------------------------------

  /** A frame that carries all of a payload. */
  predicate IsSingle(addr: Addr, f: Bytes, data: Bytes) {
    1 <= |data| <= 15 && Lead(addr) + [|data|] + data <= f
  }

  /** A frame that begins a payload of `dl` bytes. */
  predicate IsFirst(addr: Addr, f: Bytes, dl: nat, data: Bytes) {
    && |data| == 6 - |Lead(addr)| && 8 - |Lead(addr)| <= dl <= 4095
    && Lead(addr) + [0x10 + dl / 0x100, dl % 0x100] + data <= f
  }

  /** A frame that continues one: all its bytes are data, but for what is beyond the eighth. */
  predicate IsConsecutive(addr: Addr, f: Bytes, sn: nat, data: Bytes) {
    && sn < 16 && Lead(addr) + [0x20 + sn] + data <= f
    && |data| == Min(7 - |Lead(addr)|, |f| - |Lead(addr)| - 1)
  }

  /** What makes a frame malformed. */
  predicate IsMalformed(addr: Addr, f: Bytes, why: Why) {
    var lead := Lead(addr);
    match why
    case EmptyFrame => f == []
    case AddressMismatch => f != [] && !(lead <= f)
    case TooShortForAddress => f != [] && f == lead
    case BadSingleFrameLength => exists n: byte :: n < 16 && lead + [n] <= f && (n == 0 || |f| < |lead| + 1 + n as int)
    case ShortFirstFrame => |f| < 8 && exists c: byte :: 0x10 <= c < 0x20 && lead + [c] <= f
    case FitsInSingleFrame => |f| >= 8 && exists n: byte :: n <= 7 - |lead| && lead + [0x10, n] <= f
    case UnknownPci => exists c: byte :: c >= 0x40 && lead + [c] <= f
    case _ => false
  }

  /** The data byte at place `i` of a frame with this lead. */
  lemma AfterLead(addr: Addr, f: Bytes, s: Bytes)
    requires Lead(addr) + s <= f
    ensures (addr.Some? ==> f != [] && f[0] == addr.value) && s <= f[|Lead(addr)|..]
  {
    var h := |Lead(addr)|;
    assert f[h..][..|s|] == f[h..h + |s|];
    assert f[..h + |s|] == Lead(addr) + s;
    assert (Lead(addr) + s)[h..] == s;
  }

  lemma LeadThen(addr: Addr, f: Bytes, s: Bytes)
    requires |f| >= |Lead(addr)| && (addr.Some? ==> f[0] == addr.value) && s <= f[|Lead(addr)|..]
    ensures Lead(addr) + s <= f
  {
    var h := |Lead(addr)|;
    assert f[..h] == Lead(addr);
    assert f[h..][..|s|] == f[h..h + |s|];
    assert f[..h + |s|] == f[..h] + f[h..h + |s|];
  }

  lemma LeadExactly(addr: Addr, f: Bytes, s: Bytes)
    ensures Lead(addr) + s <= f
            <==> |f| >= |Lead(addr)| && (addr.Some? ==> f[0] == addr.value) && s <= f[|Lead(addr)|..]
  {
    if Lead(addr) + s <= f {
      AfterLead(addr, f, s);
    } else if |f| >= |Lead(addr)| && (addr.Some? ==> f[0] == addr.value) && s <= f[|Lead(addr)|..] {
      LeadThen(addr, f, s);
    }
  }

  lemma SingleByBytes(addr: Addr, f: Bytes, data: Bytes)
    ensures Parse(addr, f) == Single(data) <==> IsSingle(addr, f, data)
  {
    if 1 <= |data| <= 15 {
      Assoc(Lead(addr), [|data|], data);
      LeadExactly(addr, f, [|data|] + data);
      if |f| > |Lead(addr)| {
        var d := f[|Lead(addr)|..];
        assert [|data|] + data <= d <==> |d| >= 1 + |data| && d[0] == |data| && d[1..1 + |data|] == data;
      }
    }
  }

  lemma FirstByBytes(addr: Addr, f: Bytes, dl: nat, data: Bytes)
    ensures Parse(addr, f) == First(dl, data) <==> IsFirst(addr, f, dl, data)
  {
    var h := |Lead(addr)|;
    if |data| == 6 - h && dl <= 4095 {
      var pci: Bytes := [0x10 + dl / 0x100, dl % 0x100];
      Assoc(Lead(addr), pci, data);
      LeadExactly(addr, f, pci + data);
      if |f| >= 8 {
        var d := f[h..];
        assert pci + data <= d <==> d[0] == 0x10 + dl / 0x100 && d[1] == dl % 0x100 && d[2..8 - h] == data;
      }
    }
  }

  lemma ConsecutiveByBytes(addr: Addr, f: Bytes, sn: nat, data: Bytes)
    ensures Parse(addr, f) == Consec(sn, data) <==> IsConsecutive(addr, f, sn, data)
  {
    var h := |Lead(addr)|;
    if sn < 16 && |f| > h && |data| == Min(7 - h, |f| - h - 1) {
      var pci: Bytes := [0x20 + sn];
      Assoc(Lead(addr), pci, data);
      LeadExactly(addr, f, pci + data);
      var d := f[h..];
      assert pci + data <= d <==> d[0] == 0x20 + sn && d[1..1 + |data|] == data;
    }
  }

  lemma FlowControlByBytes(addr: Addr, f: Bytes)
    ensures Parse(addr, f) == FlowCtl <==> exists status :: HasStatus(addr, f, status)
  {
    FcByBytes(addr, f);
  }

  /** A frame with a control byte has one control byte, and one byte behind that. */
  lemma ItsControlByte(addr: Addr, f: Bytes)
    requires |f| > |Lead(addr)| && (addr.Some? ==> f[0] == addr.value)
    ensures Lead(addr) <= f && f != Lead(addr)
    ensures forall b: byte :: Lead(addr) + [b] <= f <==> b == f[|Lead(addr)|..][0]
    ensures forall n: byte :: Lead(addr) + [0x10, n] <= f
                              <==> var d := f[|Lead(addr)|..]; |d| > 1 && d[0] == 0x10 && d[1] == n
  {
    var d := f[|Lead(addr)|..];
    LeadThen(addr, f, []);
    Unit(Lead(addr));
    forall b: byte ensures Lead(addr) + [b] <= f <==> b == d[0] {
      LeadExactly(addr, f, [b]);
    }
    forall n: byte ensures Lead(addr) + [0x10, n] <= f <==> |d| > 1 && d[0] == 0x10 && d[1] == n {
      LeadExactly(addr, f, [0x10, n]);
    }
  }

  lemma NoControlByte(addr: Addr, f: Bytes)
    requires !(|f| > |Lead(addr)| && (addr.Some? ==> f[0] == addr.value))
    ensures forall s: Bytes :: s != [] ==> !(Lead(addr) + s <= f)
    ensures f != [] && f != Lead(addr) ==> !(Lead(addr) <= f)
  {
    forall s: Bytes | s != [] ensures !(Lead(addr) + s <= f) {
      LeadExactly(addr, f, s);
    }
  }

  lemma UnaddressedByBytes(addr: Addr, f: Bytes, why: Why)
    requires !(|f| > |Lead(addr)| && (addr.Some? ==> f[0] == addr.value))
    ensures Parse(addr, f) == Bad(why) <==> IsMalformed(addr, f, why)
  {
    NoControlByte(addr, f);
    assert forall c: byte :: !(Lead(addr) + [c] <= f) && !(Lead(addr) + [0x10, c] <= f);
  }

  lemma AddressedByBytes(addr: Addr, f: Bytes, why: Why)
    requires |f| > |Lead(addr)| && (addr.Some? ==> f[0] == addr.value)
    ensures Parse(addr, f) == Bad(why) <==> IsMalformed(addr, f, why)
  {
    hide Lead;
    ItsControlByte(addr, f);
    var d := f[|Lead(addr)|..];
    assert Lead(addr) + [d[0]] <= f;
    assert |d| > 1 && d[0] == 0x10 ==> Lead(addr) + [0x10, d[1]] <= f;
  }

  lemma MalformedByBytes(addr: Addr, f: Bytes, why: Why)
    ensures Parse(addr, f) == Bad(why) <==> IsMalformed(addr, f, why)
  {
    hide Parse, IsMalformed;
    if |f| > |Lead(addr)| && (addr.Some? ==> f[0] == addr.value) {
      AddressedByBytes(addr, f, why);
    } else {
      UnaddressedByBytes(addr, f, why);
    }
  }

  lemma SmallMultiple(m: nat, d: int, x: int)
    requires m * d == x && x + m > 0 && x <= m
    ensures d == 0 || d == 1
  {
    assert d >= 2 ==> m * (d - 2) >= 0;
    assert d < 0 ==> m * (-d - 1) >= 0;
  }

  lemma ModNext(k: nat, m: nat)
    requires m > 0
    ensures (k + 1) % m == if k % m + 1 == m then 0 else k % m + 1
  {
    var d, r, r' := (k + 1) / m - k / m, k % m, (k + 1) % m;
    assert k == m * (k / m) + r && k + 1 == m * ((k + 1) / m) + r';
    assert m * d == r + 1 - r';
    SmallMultiple(m, d, r + 1 - r');
  }

  lemma RemainderStep(cfg: RxCfg, s: Rx, p: Pci, now: Time)
    requires s.Inv(cfg.bs) && cfg.bs != 0 && (s.Receiving? ==> s.block == s.cfs % cfg.bs as int)
    ensures var next := RxOnPci(cfg, s, p, now).rx; next.Receiving? ==> next.block == next.cfs % cfg.bs as int
  {
    hide Cut, FlowControl, Mod16;
    if s.Receiving? {
      ModNext(s.cfs, cfg.bs);
    }
  }

  /** The frames accepted since the last flow control, out of all accepted since the first frame. */
  lemma {:induction false} BlockIsRemainder(cfg: RxCfg, fed: seq<R.Arrival>)
    requires cfg.bs != 0
    ensures var s := R.After(cfg, fed); s.Receiving? ==> s.block == s.cfs % cfg.bs as int
  {
    hide Parse, RxOnPci;
    if fed != [] {
      var last := fed[|fed| - 1];
      BlockIsRemainder(cfg, fed[..|fed| - 1]);
      RemainderStep(cfg, R.After(cfg, fed[..|fed| - 1]), Parse(cfg.addr, last.frame), last.now);
    }
  }

  /** The frames heard of the transfer that is under way, none if there is none. */
  ghost predicate Open(addr: Addr, fed: seq<R.Arrival>, ps: seq<Pci>) {
    var q := R.Heard(addr, fed);
    if ps == [] then !R.MidTransfer(q)
    else |ps| <= |q| && ps == q[|q| - |ps|..] && Partial(ps)
  }

  /** The state of the receiver, told by the transfer under way. */
  lemma OpenMeans(cfg: RxCfg, fed: seq<R.Arrival>, ps: seq<Pci>)
    requires Open(cfg.addr, fed, ps)
    ensures var s := R.After(cfg, fed);
            if ps == [] then s.Idle?
            else
              && s.Receiving? && s.dl == ps[0].dl && s.buf == Gather(ps) && s.cfs == |ps| - 1
              && (cfg.bs != 0 ==> s.block == (|ps| - 1) % cfg.bs as int)
  {
    hide R.Heard, R.After, Gather;
    var q, s := R.Heard(cfg.addr, fed), R.After(cfg, fed);
    R.StateExplained(cfg, fed);
    if s.Receiving? {
      var j := |q| - s.cfs - 1;
      assert Partial(q[j..]);
      if ps != [] {
        R.OneStart(q, j, |q| - |ps|);
      }
      if cfg.bs != 0 {
        BlockIsRemainder(cfg, fed);
      }
    }
  }

  /** Whatever was heard, there is such a list, and only one. */
  lemma OpenIsUnique(cfg: RxCfg, fed: seq<R.Arrival>) returns (ps: seq<Pci>)
    ensures Open(cfg.addr, fed, ps)
    ensures forall other :: Open(cfg.addr, fed, other) ==> other == ps
  {
    hide R.Heard, Partial;
    var q := R.Heard(cfg.addr, fed);
    if j :| 0 <= j < |q| && Partial(q[j..]) {
      ps := q[j..];
      forall other | Open(cfg.addr, fed, other) ensures other == ps {
        OpenMeans(cfg, fed, ps);
        OpenMeans(cfg, fed, other);
      }
    } else {
      ps := [];
    }
  }

  /**
   What becomes of a transfer, of which `ps` were heard, with a consecutive frame: refused without a
   transfer, ended by a wrong number, completed, or going on, granted again after each whole block.
   */
  predicate Continued(cfg: RxCfg, ps: seq<Pci>, sn: nat, data: Bytes, now: Time, r: RxStep)
    requires ps != [] ==> ps[0].First?
  {
    if ps == [] then r == RxStep(Idle, Err(Malformed(NoFirstFrame)))
    else if sn != |ps| % 16 then r == RxStep(Idle, Err(SequenceError(|ps| % 16, sn)))
    else if |Gather(ps) + data| >= ps[0].dl then r == RxStep(Idle, Ok(Done((Gather(ps) + data)[..ps[0].dl])))
    else
      && r.rx.Receiving? && r.rx.deadline == now + cfg.nCr
      && r.res == if cfg.bs != 0 && |ps| % cfg.bs as int == 0 then Ok(SendFc(cfg.Fc())) else Ok(Continue)
  }

  lemma ConsecutiveAnswer(cfg: RxCfg, s: Rx, ps: seq<Pci>, sn: nat, data: Bytes, now: Time)
    requires s.Inv(cfg.bs) && sn < 16
    requires if ps == [] then s.Idle?
             else
               && ps[0].First? && s.Receiving? && s.dl == ps[0].dl && s.buf == Gather(ps) && s.cfs == |ps| - 1
               && (cfg.bs != 0 ==> s.block == (|ps| - 1) % cfg.bs as int)
    ensures Continued(cfg, ps, sn, data, now, RxOnPci(cfg, s, Consec(sn, data), now))
  {
    hide Gather, FlowControl;
    if ps != [] {
      var total := Gather(ps) + data;
      assert |total| >= s.dl ==> Cut(total, s.dl) == total[..s.dl];
    }
    if ps != [] && cfg.bs != 0 {
      ModNext(|ps| - 1, cfg.bs);
    }
  }

  /**
   What a receiver answers to the next frame, whatever it was given before. `ps` are the frames
   heard of the transfer under way. A single frame is delivered and a first frame granted at any
   time, a transfer under way or not; flow control and malformed frames leave it as it is.
   */
  lemma AnswerExactly(cfg: RxCfg, fed: seq<R.Arrival>, ps: seq<Pci>, f: Bytes, now: Time)
    requires Open(cfg.addr, fed, ps)
    ensures var (s, r) := (R.After(cfg, fed), R.Outcome(cfg, fed + [R.Arrival(f, now)]));
            var a, grant := cfg.addr, Ok(SendFc(cfg.Fc()));
            && (forall data :: IsSingle(a, f, data) ==> r == RxStep(Idle, Ok(Done(data))))
            && (forall dl, data :: IsFirst(a, f, dl, data) ==>
                  r == RxStep(Receiving(dl, data, 0, 0, now + cfg.nCr), grant))
            && ((exists status :: HasStatus(a, f, status)) ==> r == RxStep(s, Ok(Continue)))
            && (forall why :: IsMalformed(a, f, why) ==> r == RxStep(s, Err(Malformed(why))))
            && forall sn, data :: IsConsecutive(a, f, sn, data) ==> Continued(cfg, ps, sn, data, now, r)
  {
    hide Parse, R.After, IsSingle, IsFirst, HasStatus, IsMalformed, IsConsecutive, FlowControl, Gather, Continued;
    assert (fed + [R.Arrival(f, now)])[..|fed|] == fed;
    OpenMeans(cfg, fed, ps);
    forall data | IsSingle(cfg.addr, f, data) ensures Parse(cfg.addr, f) == Single(data) {
      SingleByBytes(cfg.addr, f, data);
    }
    forall dl, data | IsFirst(cfg.addr, f, dl, data) ensures Parse(cfg.addr, f) == First(dl, data) {
      FirstByBytes(cfg.addr, f, dl, data);
    }
    forall sn, data | IsConsecutive(cfg.addr, f, sn, data)
      ensures Continued(cfg, ps, sn, data, now, RxOnPci(cfg, R.After(cfg, fed), Parse(cfg.addr, f), now))
    {
      ConsecutiveByBytes(cfg.addr, f, sn, data);
      ConsecutiveAnswer(cfg, R.After(cfg, fed), ps, sn, data, now);
    }
    forall why | IsMalformed(cfg.addr, f, why) ensures Parse(cfg.addr, f) == Bad(why) {
      MalformedByBytes(cfg.addr, f, why);
    }
    FlowControlByBytes(cfg.addr, f);
  }
}
