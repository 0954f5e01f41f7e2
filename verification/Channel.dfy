/**
 A channel of the adapter: size guards before anything is sent, a count of the filters
 installed, and a read that polls until data comes or the time is up. The session behind
 it may answer anything.
 */
module Channel {
  import opened Prelude
  import opened Codec
  import opened Inner
  import opened Link
  import opened Session
  import IsoTpFrames

  datatype ChanError =
    | Device(failure: Failure)
    | Malformed(error: CodecError)
    | NoFilterInstalled
    | FirmwareFfDlLimit(len: nat)

  /** One call of `Read`: how long it could wait, what came of it, and from when to when. */
  datatype Reading = Reading(wait: nat, result: Result<RxMsg, ChanError>, began: nat, ended: nat)

  const POLL_MS: nat := 500

  const PAUSE_MS: nat := 2

  predicate IsData(p: Result<Option<RxMsg>, Failure>) {
    p.Ok? && p.value.Some? && !p.value.value.IsIndication()
  }

  /** Shortest and longest message of a protocol. */
  function SizeBounds(proto: Proto): (nat, nat) {
    match proto
    case Can => (4, 12)
    case Iso15765 => (4, MAX_MSG)
    case J1850Vpw => (1, 12)
    case J1850Pwm => (1, 11)
    case Iso9141 => (1, 64)
    case Iso14230 => (1, 64)
  }

  function WriteRefusal(proto: Proto, msg: Bytes): Option<ChanError> {
    var bounds := SizeBounds(proto);
    if |msg| < bounds.0 || |msg| > bounds.1 then Some(Malformed(MsgTooLong(|msg|)))
    else if proto.Iso15765? && |msg| - 4 > 255 then Some(FirmwareFfDlLimit(|msg| - 4))
    else None
  }

  /**
   The guards by the numbers: raw CAN takes an identifier and at most 8 bytes, the firmware's own
   ISO-TP an identifier and at most 255; more than that, up to the largest message, is the
   firmware's limit and not the channel's.
   */
  lemma GuardsExactly(proto: Proto, msg: Bytes)
    ensures WriteRefusal(proto, msg).None?
            <==> match proto
                 case Can => 4 <= |msg| <= 4 + 8
                 case Iso15765 => 4 <= |msg| <= 4 + 255
                 case J1850Vpw => 1 <= |msg| <= 12
                 case J1850Pwm => 1 <= |msg| <= 11
                 case Iso9141 => 1 <= |msg| <= 64
                 case Iso14230 => 1 <= |msg| <= 64
    ensures WriteRefusal(proto, msg).Some? ==>
              WriteRefusal(proto, msg).value
              == if proto == Iso15765 && 4 + 255 < |msg| <= 4100 then FirmwareFfDlLimit(|msg| - 4)
                 else Malformed(MsgTooLong(|msg|))
  {
  }

  /** Whatever passes the guards is small enough for the builder and for the reader's frame limit. */
  lemma GuardedWritesBuild(proto: Proto, txflags: u32, msg: Bytes)
    requires WriteRefusal(proto, msg).None?
    ensures Build(WriteMsg(proto, txflags, msg)).Ok?
    ensures |Build(WriteMsg(proto, txflags, msg)).value| <= MAX_INNER
  {
  }

  /** Every frame of every ISO-TP segmentation passes the guards of raw CAN behind its identifier. */
  lemma IsoTpFramesPass(id: Bytes, payload: Bytes, padding: Option<byte>, addr: Option<byte>, k: nat)
    requires |id| == 4 && IsoTpFrames.Sendable(payload)
    requires k < IsoTpFrames.FrameCount(|payload|, IsoTpFrames.AddrLen(addr))
    ensures WriteRefusal(Can, id + IsoTpFrames.FrameAt(payload, padding, addr, k)).None?
  {
    IsoTpFrames.FrameSizes(payload, padding, addr, k);
  }

  function Outcome(reply: Result<Bytes, Failure>, op: byte): Result<(), ChanError> {
    var r := Acknowledged(reply, op);
    if r.Ok? then Ok(()) else Err(Device(r.error))
  }

  class RawChannel {
    const proto: Proto
    var filters: nat
    /** Milliseconds. */
    var clock: nat
    /** What was asked of the session and what it answered. */
    var exchanges: seq<Exchange>
    var polls: seq<Result<Option<RxMsg>, Failure>>
    ghost var readings: seq<Reading>

    constructor (proto: Proto)
      ensures this.proto == proto && filters == 0 && exchanges == [] && polls == [] && readings == []
    {
      this.proto := proto;
      filters, clock, exchanges, polls, readings := 0, 0, [], [], [];
    }

    method Transact(inner: Bytes) returns (r: Result<Bytes, Failure>)
      modifies this`exchanges, this`clock
      ensures OneMore(old(exchanges), exchanges, inner) && LastReply(exchanges) == r && clock >= old(clock)
    {
      r := *;
      var took: nat :| true;
      var read: Awaited := *;
      exchanges, clock := exchanges + [Exchange(inner, r, read)], clock + took;
    }

    method TransactStatus(inner: Bytes, op: byte) returns (r: Result<(), ChanError>)
      modifies this`exchanges, this`clock
      ensures clock >= old(clock) && OneMore(old(exchanges), exchanges, inner)
      ensures r == Outcome(LastReply(exchanges), op)
    {
      var resp := Transact(inner);
      if resp.Err? {
        return Err(Device(resp.error));
      }
      var status := StatusOf(resp.value, op);
      if status.Err? {
        return Err(Device(BadFrame(status.error)));
      }
      if status.value == 0 {
        return Ok(());
      }
      return Err(Device(Rejected(op, status.value)));
    }

    /** Counts a filter exactly when the adapter took it; a malformed one is never sent. */
    method StartFilter(id: u32, ftype: u32, mask: Bytes, pattern: Bytes, flow: Option<Bytes>, idlen: nat)
      returns (r: Result<(), ChanError>)
      modifies this`exchanges, this`clock, this`filters
      ensures filters == old(filters) + if r.Ok? then 1 else 0
      ensures var cmd := Build(Command.StartFilter(proto, id, ftype, mask, pattern, flow, idlen));
              if cmd.Err? then r == Err(Malformed(cmd.error)) && exchanges == old(exchanges)
              else OneMore(old(exchanges), exchanges, cmd.value) && r == Outcome(LastReply(exchanges), START_FILTER)
    {
      var cmd := Build(Command.StartFilter(proto, id, ftype, mask, pattern, flow, idlen));
      hide Build;
      if cmd.Err? {
        return Err(Malformed(cmd.error));
      }
      r := TransactStatus(cmd.value, START_FILTER);
      if r.Ok? {
        filters := filters + 1;
      }
    }

    /** Counts one filter less, never below none, when the adapter acknowledges. */
    method StopFilter(id: u32) returns (r: Result<(), ChanError>)
      modifies this`exchanges, this`clock, this`filters
      ensures filters == if r.Ok? then Max(old(filters) - 1, 0) else old(filters)
      ensures OneMore(old(exchanges), exchanges, Build(Command.StopFilter(proto, id)).value)
      ensures r == Outcome(LastReply(exchanges), 0x0c)
    {
      r := TransactStatus(Build(Command.StopFilter(proto, id)).value, 0x0c);
      if r.Ok? && filters > 0 {
        filters := filters - 1;
      }
    }

    /** A message outside the bounds of its protocol is refused before anything is sent. */
    method Write(txflags: u32, msg: Bytes) returns (r: Result<(), ChanError>)
      modifies this`exchanges, this`clock
      ensures clock >= old(clock)
      ensures var no := WriteRefusal(proto, msg);
              if no.Some? then r == Err(no.value) && exchanges == old(exchanges)
              else
                && Build(WriteMsg(proto, txflags, msg)).Ok?
                && OneMore(old(exchanges), exchanges, Build(WriteMsg(proto, txflags, msg)).value)
                && r == Outcome(LastReply(exchanges), WRITE_MSG)
    {
      var bounds := SizeBounds(proto);
      if |msg| < bounds.0 || |msg| > bounds.1 {
        return Err(Malformed(MsgTooLong(|msg|)));
      }
      if proto.Iso15765? && |msg| - 4 > 255 {
        return Err(FirmwareFfDlLimit(|msg| - 4));
      }
      GuardedWritesBuild(proto, txflags, msg);
      r := TransactStatus(Build(WriteMsg(proto, txflags, msg)).value, WRITE_MSG);
    }

    /** One poll of the session; no poll is instantaneous. */
    method Poll(timeout: nat) returns (r: Result<Option<RxMsg>, Failure>)
      modifies this`polls, this`clock
      ensures polls == old(polls) + [r] && clock > old(clock)
    {
      r := *;
      var took: nat :| true;
      polls, clock := polls + [r], clock + took + 1;
    }

    /**
     The first data message, skipping indications; a failing poll ends it. When the time is up,
     silence on a channel without filters is told apart from silence.
     */
    method Read(timeout: nat) returns (r: Result<RxMsg, ChanError>)
      modifies this`polls, this`clock, this`readings
      ensures clock >= old(clock) && readings == old(readings) + [Reading(timeout, r, old(clock), clock)]
      ensures old(polls) <= polls
      ensures forall i :: |old(polls)| <= i < |polls| - 1 ==> polls[i].Ok? && !IsData(polls[i])
      ensures r.Ok? ==> clock > old(clock) && polls != old(polls)
      ensures r.Ok? ==> polls[|polls| - 1] == Ok(Some(r.value)) && IsData(polls[|polls| - 1])
      ensures r.Err? ==>
                || (polls != old(polls) && polls[|polls| - 1].Err? && r.error == Device(polls[|polls| - 1].error))
                || (clock >= old(clock) + timeout
                    && (polls == old(polls) || (polls[|polls| - 1].Ok? && !IsData(polls[|polls| - 1])))
                    && r.error == if filters == 0 then NoFilterInstalled else Device(Failure.Timeout))
    {
      ghost var polls0, began := polls, clock;
      var deadline := clock + timeout;
      while true
        invariant clock >= old(clock) && readings == old(readings) && polls0 <= polls
        invariant deadline == old(clock) + timeout
        invariant forall i :: |polls0| <= i < |polls| ==> polls[i].Ok? && !IsData(polls[i])
        decreases deadline - clock
      {
        if clock >= deadline {
          r := Err(if filters == 0 then NoFilterInstalled else Device(Failure.Timeout));
          break;
        }
        var p := Poll(Min(deadline - clock, POLL_MS));
        if p.Err? {
          r := Err(Device(p.error));
          break;
        }
        if p.value.Some? && !p.value.value.IsIndication() {
          r := Ok(p.value.value);
          break;
        }
        clock := clock + PAUSE_MS;
      }
      readings := readings + [Reading(timeout, r, began, clock)];
    }
  }
}
