/**
 The session actor: the one owner of the port. It serves requests one at a time, keeps the
 messages that idle polls drained until they are asked for, and declares the adapter
 wedged after three exchanges in a row that got no reply.
 */
module Session {
  import opened Prelude
  import opened Codec
  import opened Inner
  import opened Framing
  import opened Link

  const WEDGE_THRESHOLD: nat := 3

  // ---- what a run of exchanges says -----------------------------------------

  /** The read an exchange made, if it came to that: which of the port's reads it was, and what it brought. */
  datatype Awaited = Nothing | Read(at: nat, raw: Result<Bytes, ReadError>)

  datatype Exchange = Exchange(inner: Bytes, reply: Result<Bytes, Failure>, read: Awaited)

  /** Its reply was awaited, and none came in time. */
  predicate Silent(x: Exchange) {
    x.read.Read? && x.read.raw == Err(ReadError.Timeout)
  }

  /** The reads of the exchanges are reads of the port, each its own and in order. */
  ghost predicate Recorded(h: seq<Exchange>, replies: seq<Result<Bytes, ReadError>>) {
    && (forall i :: 0 <= i < |h| && h[i].read.Read? ==>
          h[i].read.at < |replies| && replies[h[i].read.at] == h[i].read.raw)
    && forall i, j :: 0 <= i < j < |h| && h[i].read.Read? && h[j].read.Read? ==> h[i].read.at < h[j].read.at
  }

  lemma RecordedStep(h: seq<Exchange>, x: Exchange, replies: seq<Result<Bytes, ReadError>>,
                     later: seq<Result<Bytes, ReadError>>)
    requires Recorded(h, replies) && replies <= later
    requires x.read.Read? ==> x.read.at == |replies| < |later| && later[|replies|] == x.read.raw
    ensures Recorded(h + [x], later)
  {
  }

  /** How many of the last exchanges got no reply. */
  function Trailing(h: seq<Exchange>): nat {
    if h != [] && Silent(h[|h| - 1]) then 1 + Trailing(h[..|h| - 1]) else 0
  }

  ghost predicate ThreeInARow(h: seq<Exchange>) {
    exists i: nat :: i + 2 < |h| && Silent(h[i]) && Silent(h[i + 1]) && Silent(h[i + 2])
  }

  lemma {:induction false} TrailingMeans(h: seq<Exchange>, k: nat)
    ensures Trailing(h) >= k <==> k <= |h| && forall i :: |h| - k <= i < |h| ==> Silent(h[i])
  {
    if k > 0 && h != [] {
      var init := h[..|h| - 1];
      TrailingMeans(init, k - 1);
      assert forall i :: 0 <= i < |init| ==> init[i] == h[i];
    }
  }

  lemma VerdictStep(h: seq<Exchange>, x: Exchange)
    ensures Trailing(h + [x]) == if Silent(x) then Trailing(h) + 1 else 0
    ensures ThreeInARow(h + [x]) <==> ThreeInARow(h) || Trailing(h + [x]) >= WEDGE_THRESHOLD
  {
    var all := h + [x];
    assert all[..|all| - 1] == h;
    TrailingMeans(all, 3);
    assert forall i :: 0 <= i < |h| ==> all[i] == h[i];
    if Trailing(all) >= 3 {
      assert Silent(all[|all| - 3]) && Silent(all[|all| - 3 + 1]) && Silent(all[|all| - 3 + 2]);
    }
    if i: nat :| i + 2 < |h| && Silent(h[i]) && Silent(h[i + 1]) && Silent(h[i + 2]) {
      assert Silent(all[i]) && Silent(all[i + 1]) && Silent(all[i + 2]);
    }
  }

  function LastReply(h: seq<Exchange>): Result<Bytes, Failure> {
    if h == [] then Err(Failure.Io) else h[|h| - 1].reply
  }

  ghost predicate OneMore(before: seq<Exchange>, after: seq<Exchange>, inner: Bytes) {
    after != [] && after == before + [after[|after| - 1]] && after[|after| - 1].inner == inner
  }

  function PollInner(p: Proto): Bytes {
    Build(ReadPoll(p)).value
  }

  /** The message that an exchange brought for a protocol. */
  function Brought(x: Exchange, p: Proto): seq<RxMsg> {
    if x.inner != PollInner(p) || x.reply.Err? then []
    else
      var m := ParseReadReply(x.reply.value);
      if m.Ok? && m.value.data != [] then [m.value] else []
  }

  /** An exchange brings a message exactly if it was a poll of that protocol answered with just that message. */
  lemma BroughtExactly(x: Exchange, p: Proto, m: RxMsg)
    ensures Brought(x, p) == [m]
            <==> && m.data != [] && x.inner == [5, 0, 0x09] + U32(p.Wire()) + [0] && x.reply.Ok?
                 && 9 + |m.data| < 0x10000 && exists reserved: Bytes, more: Bytes ::
                      |reserved| == 4 && x.reply.value == MessageReply(m.rxStatus, reserved, m.data) + more
    ensures Brought(x, p) == [] || Brought(x, p) == [Brought(x, p)[0]]
  {
    hide ParseReadReply, MessageReply, Proto.Wire, U32, Build;
    SessionBytes(p, 0, 0);
    if m.data != [] && x.reply.Ok? {
      ReadReplyExact(x.reply.value, m.rxStatus, m.data);
    }
  }

  /** Every message that the adapter returned for a protocol. */
  function Returned(h: seq<Exchange>, p: Proto): seq<RxMsg> {
    if h == [] then [] else Returned(h[..|h| - 1], p) + Brought(h[|h| - 1], p)
  }

  lemma ReturnedStep(h: seq<Exchange>, x: Exchange, p: Proto)
    ensures Returned(h + [x], p) == Returned(h, p) + Brought(x, p)
  {
    assert (h + [x])[..|h|] == h;
  }

  lemma PollInnerShape(p: Proto, q: Proto)
    ensures |PollInner(p)| >= 3 && PollInner(p)[2] == READ_MSG && READ_MSG != OPEN && READ_MSG != CLOSE_SESSION
    ensures PollInner(p) == PollInner(q) ==> p == q
  {
    CommandUnderstood(ReadPoll(p), []);
    CommandUnderstood(ReadPoll(q), []);
  }

  // ---- requests -------------------------------------------------------------

  predicate Ordinary(inner: Bytes) {
    |inner| >= 3 && inner[2] != OPEN && inner[2] != CLOSE_SESSION && inner[2] != READ_MSG
  }

  datatype Request =
    | Send(inner: Bytes)
    | Connect(proto: Proto, flags: u32, baud: u32)
    | Disconnect(proto: Proto)
    | Poll(proto: Proto)
  {
    /** Callers send the inners of their own commands: the session's opcodes are the actor's. */
    predicate Fair() {
      Send? ==> Ordinary(inner)
    }
  }

  /** The commands that callers send are exactly those that are not the session's own. */
  lemma CommandsAreOrdinary(cmd: Command)
    requires Build(cmd).Ok?
    ensures Ordinary(Build(cmd).value) <==> !cmd.Identify? && !cmd.SessionClose? && !cmd.ReadPoll?
  {
    OnlyIdentifyOpens(cmd);
    hide Build;
  }

  datatype Payload = Done | Reply(bytes: Bytes) | Message(msg: Option<RxMsg>)

  datatype Served = Served(req: Request, answer: Result<Payload, Failure>)

  predicate Refused(s: Served) {
    s.answer.Err? && s.answer.error.Wedged?
  }

  function Given(s: Served, p: Proto): seq<RxMsg> {
    if s.req == Poll(p) && s.answer.Ok? && s.answer.value.Message? && s.answer.value.msg.Some? then
      [s.answer.value.msg.value]
    else []
  }

  /** Every message that the callers' polls of a protocol were given. */
  function Delivered(served: seq<Served>, p: Proto): seq<RxMsg> {
    if served == [] then [] else Delivered(served[..|served| - 1], p) + Given(served[|served| - 1], p)
  }

  lemma DeliveredStep(served: seq<Served>, s: Served, p: Proto)
    ensures Delivered(served + [s], p) == Delivered(served, p) + Given(s, p)
  {
    assert (served + [s])[..|served|] == served;
  }

  // ---- connected channels ---------------------------------------------------

  predicate Ascending(s: seq<Proto>) {
    forall i, j :: 0 <= i < j < |s| ==> s[i].Wire() < s[j].Wire()
  }

  lemma AscendingCons(p: Proto, s: seq<Proto>)
    ensures Ascending([p] + s) <==> Ascending(s) && forall q :: q in s ==> p.Wire() < q.Wire()
  {
    var all := [p] + s;
    if Ascending(all) {
      assert forall i :: 0 <= i < |s| ==> all[i + 1] == s[i];
      forall q | q in s ensures p.Wire() < q.Wire() {
        var i :| 0 <= i < |s| && s[i] == q;
        assert all[0].Wire() < all[i + 1].Wire();
      }
    } else {
      assert forall i :: 0 < i < |all| ==> all[i] == s[i - 1] && s[i - 1] in s;
    }
  }

  lemma DifferentNumbers(p: Proto, q: Proto)
    ensures p.Wire() == q.Wire() ==> p == q
  {
  }

  lemma Single(p: Proto)
    ensures Ascending([p])
  {
  }

  /** The list with one more protocol, sorted by number. */
  function Insert(s: seq<Proto>, p: Proto): (r: seq<Proto>)
    requires Ascending(s) && p !in s
    ensures Ascending(r) && |r| == |s| + 1
    ensures forall q :: q in r <==> q in s || q == p
  {
    hide Ascending, Proto.Wire;
    if s == [] then AscendingCons(p, []); Single(p); [p]
    else
      assert s == [s[0]] + s[1..];
      AscendingCons(s[0], s[1..]);
      DifferentNumbers(p, s[0]);
      AscendingCons(p, s);
      if p.Wire() < s[0].Wire() then [p] + s
      else
        var rest := Insert(s[1..], p);
        AscendingCons(s[0], rest);
        [s[0]] + rest
  }

  function Without(s: seq<Proto>, p: Proto): (r: seq<Proto>)
    requires Ascending(s)
    ensures Ascending(r)
    ensures forall q :: q in r <==> q in s && q != p
  {
    hide Ascending, Proto.Wire;
    if s == [] then s
    else
      assert s == [s[0]] + s[1..];
      AscendingCons(s[0], s[1..]);
      var rest := Without(s[1..], p);
      AscendingCons(s[0], rest);
      if s[0] == p then rest else [s[0]] + rest
  }

  // ---- replies --------------------------------------------------------------

  /**
   What an exchange comes to: the inner that the one frame read decrypts to, or why there is none.
   It times out if and only if it made its read and that timed out; an exchange that makes no read
   could not be encoded or met an I/O failure.
   */
  ghost predicate Came(c: Cipher, key: Bytes, before: seq<Result<Bytes, ReadError>>,
                       after: seq<Result<Bytes, ReadError>>, r: Result<Bytes, Failure>) {
    var n := |before|;
    && before <= after && n <= |after| <= n + 1
    && (r == Err(Failure.Timeout) <==> n < |after| && after[n] == Err(ReadError.Timeout))
    && (r == Err(Failure.Io) ==> n == |after| || after[n] == Err(ReadError.Io))
    && (n < |after| && after[n] == Err(ReadError.Io) ==> r == Err(Failure.Io))
    && (r.Ok? ==> n < |after|)
    && (n < |after| && after[n].Ok? ==>
          match DecodedEncrypted(c, key, after[n].value)
          case Ok(inner) => r == Ok(inner)
          case Err(e) => r == Err(BadFrame(e)))
    && (n < |after| && after[n].Err? && after[n].error.Codec? ==> r == Err(BadFrame(after[n].error.error)))
  }

  function Acknowledged(reply: Result<Bytes, Failure>, op: byte): Result<(), Failure> {
    if reply.Err? then Err(reply.error)
    else
      var status := StatusOf(reply.value, op);
      if status.Err? then Err(BadFrame(status.error))
      else if status.value == 0 then Ok(())
      else Err(Rejected(op, status.value))
  }

  /** A command is acknowledged exactly by a reply that begins with a count of two, its opcode and status 0. */
  lemma AcknowledgedExactly(reply: Result<Bytes, Failure>, op: byte)
    ensures Acknowledged(reply, op).Ok? <==> reply.Ok? && [2, 0, op, 0] <= reply.value
    ensures forall status :: status != 0 && reply.Ok? && [2, 0, op, status] <= reply.value ==>
                               Acknowledged(reply, op) == Err(Rejected(op, status))
    ensures reply.Err? ==> Acknowledged(reply, op) == Err(reply.error)
  {
    if reply.Ok? {
      StatusExactly(reply.value, op, 0);
      forall status | [2, 0, op, status] <= reply.value ensures StatusOf(reply.value, op) == Ok(status) {
        StatusExactly(reply.value, op, status);
      }
    }
  }

  ghost predicate OpensFollowResets(writes: seq<Bytes>) {
    forall i :: 0 <= i < |writes| && writes[i] == IdentFrame() ==> i > 0 && writes[i - 1] == ResetFrame()
  }

  lemma OpensStill(writes: seq<Bytes>, w: seq<Bytes>)
    requires OpensFollowResets(writes)
    requires w <= [ResetFrame(), IdentFrame()] || (|w| == 1 && w[0] != IdentFrame())
    ensures OpensFollowResets(writes + w)
  {
    HandshakeFrames();
  }

  function Queue(queues: map<Proto, seq<RxMsg>>, p: Proto): seq<RxMsg> {
    if p in queues then queues[p] else []
  }

  /** Nothing returned is lost, doubled or out of order. */
  ghost predicate Balanced(served: seq<Served>, queues: map<Proto, seq<RxMsg>>, h: seq<Exchange>) {
    forall p :: Delivered(served, p) + Queue(queues, p) == Returned(h, p)
  }

  function Requests(served: seq<Served>): seq<Request> {
    seq(|served|, i requires 0 <= i < |served| => served[i].req)
  }

  datatype Event = Call(req: Request) | Quiet

  function Calls(events: seq<Event>): seq<Request> {
    if events == [] then []
    else
      var last := events[|events| - 1];
      Calls(events[..|events| - 1]) + if last.Call? then [last.req] else []
  }

  /** After the first refusal there is nothing but refusals. */
  ghost predicate OnceRefused(served: seq<Served>, verdict: bool) {
    && (forall i, j :: 0 <= i < j < |served| && Refused(served[i]) ==> Refused(served[j]))
    && (forall i :: 0 <= i < |served| && Refused(served[i]) ==> verdict)
  }

  lemma AtStart(events: seq<Event>, verdict: bool)
    ensures Requests([]) == Calls(events[..0]) && OnceRefused([], verdict)
  {
  }

  lemma CallsStep(events: seq<Event>, i: nat)
    requires i < |events|
    ensures Calls(events[..i + 1])
            == if events[i].Call? then Calls(events[..i]) + [events[i].req] else Calls(events[..i])
  {
    assert events[..i + 1][..i] == events[..i];
    Unit(Calls(events[..i]));
  }

  lemma RefusedStep(served: seq<Served>, s: Served, verdict: bool)
    requires OnceRefused(served, verdict) && (Refused(s) <==> verdict)
    ensures OnceRefused(served + [s], verdict)
  {
  }

  lemma RefusedSame(served: seq<Served>, verdict: bool, later: bool)
    requires OnceRefused(served, verdict) && (verdict ==> later)
    ensures OnceRefused(served, later)
  {
  }

  lemma VerdictLasts(h: seq<Exchange>, later: seq<Exchange>)
    requires h <= later
    ensures ThreeInARow(h) ==> ThreeInARow(later)
  {
    if i: nat :| i + 2 < |h| && Silent(h[i]) && Silent(h[i + 1]) && Silent(h[i + 2]) {
      assert Silent(later[i]) && Silent(later[i + 1]) && Silent(later[i + 2]);
    }
  }

  lemma RequestsStep(served: seq<Served>, s: Served)
    ensures Requests(served + [s]) == Requests(served) + [s.req]
  {
  }

  function CloseInner(): Bytes {
    Build(SessionClose).value
  }

  lemma CloseShape()
    ensures var inner := CloseInner(); |inner| >= 3 && inner[2] == CLOSE_SESSION
    ensures CLOSE_SESSION != OPEN && CLOSE_SESSION != READ_MSG
  {
    OnlyIdentifyOpens(SessionClose);
  }

  function ConnectInner(p: Proto, flags: u32, baud: u32): Bytes {
    Build(Command.Connect(p, flags, baud)).value
  }

  function DisconnectInner(p: Proto): Bytes {
    Build(Command.Disconnect(p)).value
  }

  /** The actor's own commands by their bytes. */
  lemma ActorsCommands(p: Proto, flags: u32, baud: u32)
    ensures PollInner(p) == [5, 0, 0x09] + U32(p.Wire()) + [0]
    ensures ConnectInner(p, flags, baud) == [13, 0, 0x07] + (U32(p.Wire()) + U32(flags) + U32(baud))
    ensures DisconnectInner(p) == [5, 0, 0x08] + U32(p.Wire()) + [0]
    ensures CloseInner() == [1, 0, 0x02, 0, 0, 0, 0, 0]
  {
    hide Build, U32, Proto.Wire;
    SessionBytes(p, flags, baud);
  }

  function DoneAnswer(r: Result<(), Failure>): Result<Payload, Failure> {
    if r.Ok? then Ok(Done) else Err(r.error)
  }

  function ReplyAnswer(r: Result<Bytes, Failure>): Result<Payload, Failure> {
    if r.Ok? then Ok(Reply(r.value)) else Err(r.error)
  }

  /** What an answer says of the exchanges made for it. */
  ghost predicate AnsweredTruly(
    req: Request, a: Result<Payload, Failure>, waiting: bool, before: seq<Exchange>, after: seq<Exchange>)
  {
    match req
    case Send(inner) => OneMore(before, after, inner) && a == ReplyAnswer(LastReply(after))
    case Connect(p, flags, baud) =>
      && before < after && |before| < |after| <= |before| + 2
      && after[|before|].inner == ConnectInner(p, flags, baud) == after[|after| - 1].inner
      && (Acknowledged(after[|before|].reply, CONNECT).Ok? ==> |after| == |before| + 1)
      && (a.Ok? <==> Acknowledged(LastReply(after), CONNECT).Ok?)
    case Disconnect(p) =>
      OneMore(before, after, DisconnectInner(p)) && a == DoneAnswer(Acknowledged(LastReply(after), DISCONNECT))
    case Poll(p) =>
      if waiting then after == before && a.Ok?
      else OneMore(before, after, PollInner(p))
           && (a.Ok? <==> LastReply(after).Ok? && ParseReadReply(LastReply(after).value).Ok?)
  }

  /**
   A second attempt is made exactly when the first was not acknowledged and the new handshake
   succeeded; the last attempt decides.
   */
  ghost predicate Attempts(before: seq<Exchange>, after: seq<Exchange>, inner: Bytes, ok: bool,
                           established: bool, establishedBefore: bool, sameKey: bool) {
    var n := |after| - |before|;
    && before < after && 1 <= n <= 2
    && var first, last := after[|before|], after[|after| - 1];
    && first.inner == inner == last.inner
    && ok == Acknowledged(last.reply, CONNECT).Ok?
    && if Acknowledged(first.reply, CONNECT).Ok? then n == 1 && sameKey && established == establishedBefore
       else (established <==> n == 2) && (n == 1 ==> sameKey)
  }

  lemma ConnectAnswered(
    before: seq<Exchange>, after: seq<Exchange>, inner: Bytes, ok: bool, e0: bool, e1: bool, k: bool)
    requires Attempts(before, after, inner, ok, e0, e1, k)
    ensures before < after && |before| < |after| <= |before| + 2
    ensures after[|before|].inner == inner == after[|after| - 1].inner
    ensures Acknowledged(after[|before|].reply, CONNECT).Ok? ==> |after| == |before| + 1
    ensures ok == Acknowledged(LastReply(after), CONNECT).Ok?
  {
  }

  // ---- wedged with the counter below its threshold --------------------------

  /** A connect after two silent exchanges whose first attempt is silent and whose second one is not. */
  predicate QuietRetry(req: Request, silentBefore: nat, before: seq<Exchange>, after: seq<Exchange>) {
    && req.Connect? && silentBefore == 2 && |after| == |before| + 2
    && Silent(after[|before|]) && !Silent(after[|before| + 1])
  }

  /** One more exchange never leaves the count behind a verdict it raised. */
  lemma OneCounts(before: seq<Exchange>, after: seq<Exchange>)
    requires before <= after && |after| == |before| + 1
    ensures var x := after[|before|];
            && Trailing(after) == (if Silent(x) then Trailing(before) + 1 else 0)
            && (ThreeInARow(after) <==> ThreeInARow(before) || Trailing(after) >= WEDGE_THRESHOLD)
  {
    hide Trailing, ThreeInARow;
    assert after == before + [after[|before|]];
    VerdictStep(before, after[|before|]);
  }

  lemma CountWedges(h: seq<Exchange>)
    ensures Trailing(h) >= WEDGE_THRESHOLD ==> ThreeInARow(h)
  {
    TrailingMeans(h, 3);
    if Trailing(h) >= 3 {
      assert Silent(h[|h| - 3]) && Silent(h[|h| - 3 + 1]) && Silent(h[|h| - 3 + 2]);
    }
  }

  /**
   That an unwedged adapter ends up wedged with fewer than three silent exchanges counted
   happens exactly there: the first attempt raises the verdict, the second one resets the
   count. No other request does it.
   */
  lemma CountFallsBehind(
    req: Request, a: Result<Payload, Failure>, waiting: bool, before: seq<Exchange>, after: seq<Exchange>)
    requires AnsweredTruly(req, a, waiting, before, after) && !ThreeInARow(before)
    ensures ThreeInARow(after) && Trailing(after) < WEDGE_THRESHOLD
            <==> QuietRetry(req, Trailing(before), before, after)
  {
    hide Acknowledged, ParseReadReply, Trailing, ThreeInARow, ConnectInner, PollInner, DisconnectInner, ReplyAnswer,
         DoneAnswer;
    CountWedges(before);
    if |after| == |before| + 1 {
      OneCounts(before, after);
    } else if |after| == |before| + 2 {
      var mid := after[..|before| + 1];
      OneCounts(before, mid);
      OneCounts(mid, after);
    } else {
      assert after == before;
    }
  }

  /** An exchange whose reply did not come: the port's read number `at`. */
  function Unanswered(inner: Bytes, at: nat): Exchange {
    Exchange(inner, Err(Failure.Timeout), Read(at, Err(ReadError.Timeout)))
  }

  /** Such a connect: two idle polls unanswered, the first attempt unanswered, the second one acknowledged. */
  lemma WedgedAtZero(p: Proto, flags: u32, baud: u32, frame: Bytes)
    returns (before: seq<Exchange>, after: seq<Exchange>)
    ensures !ThreeInARow(before) && Trailing(before) == 2
    ensures before == [Unanswered(PollInner(p), 0), Unanswered(PollInner(p), 1)]
    ensures Attempts(before, after, ConnectInner(p, flags, baud), true, true, true, false)
    ensures AnsweredTruly(Request.Connect(p, flags, baud), Ok(Done), false, before, after)
    ensures ThreeInARow(after) && Trailing(after) == 0
  {
    hide PollInner, ConnectInner;
    var no, still := Unanswered(PollInner(p), 0), Unanswered(PollInner(p), 1);
    var inner := ConnectInner(p, flags, baud);
    var ok: Bytes := [2, 0, CONNECT, 0, 0, 0, 0, 0];
    var first, second := Unanswered(inner, 2), Exchange(inner, Ok(ok), Read(4, Ok(frame)));
    before, after := [no, still], [no, still, first, second];
    OneCounts([], [no]);
    OneCounts([no], before);
    assert Acknowledged(Ok(ok), CONNECT) == Ok(()) by {
      assert RdU16(ok) == 2;
    }
    assert Silent(after[0]) && Silent(after[0 + 1]) && Silent(after[0 + 2]) && !Silent(after[3]);
  }

  function MessageAnswer(r: Result<Option<RxMsg>, Failure>): Result<Payload, Failure> {
    if r.Ok? then Ok(Message(r.value)) else Err(r.error)
  }

  lemma DisconnectShape(p: Proto)
    ensures Ordinary(DisconnectInner(p))
  {
    OnlyIdentifyOpens(Command.Disconnect(p));
  }

  lemma BroughtBy(before: seq<Exchange>, after: seq<Exchange>, resp: Result<Bytes, Failure>, p: Proto)
    requires OneMore(before, after, PollInner(p)) && LastReply(after) == resp
    ensures Brought(after[|after| - 1], p)
            == if resp.Err? || ParseReadReply(resp.value).Err? || ParseReadReply(resp.value).value.data == [] then []
               else [ParseReadReply(resp.value).value]
  {
  }

  lemma OneMoreAt(start: seq<Exchange>, before: seq<Exchange>, after: seq<Exchange>, inner: Bytes)
    requires start <= before && OneMore(before, after, inner)
    ensures start <= after && |after| == |before| + 1 && before <= after && after[|before|].inner == inner
  {
  }

  /** What a poll of one protocol brings is no other protocol's. */
  lemma ForOneProtocol(x: Exchange, p: Proto, q: Proto)
    requires x.inner == PollInner(p) && p != q
    ensures Brought(x, q) == []
  {
    PollInnerShape(p, q);
  }

  lemma QueueSplit(queues: map<Proto, seq<RxMsg>>, p: Proto, o: Proto)
    requires Queue(queues, p) != []
    ensures var q := Queue(queues, p);
            Queue(queues, o) == Given(Served(Poll(p), Ok(Message(Some(q[0])))), o) + Queue(queues[p := q[1..]], o)
  {
    if o != p {
      Unit(Queue(queues, o));
    }
  }

  lemma TakeQueued(served: seq<Served>, queues: map<Proto, seq<RxMsg>>, h: seq<Exchange>, p: Proto)
    requires Balanced(served, queues, h) && Queue(queues, p) != []
    ensures var q := Queue(queues, p);
            Balanced(served + [Served(Poll(p), Ok(Message(Some(q[0]))))], queues[p := q[1..]], h)
  {
    var q := Queue(queues, p);
    var s := Served(Poll(p), Ok(Message(Some(q[0]))));
    var after := queues[p := q[1..]];
    forall o ensures Delivered(served + [s], o) + Queue(after, o) == Returned(h, o) {
      assert Delivered(served, o) + Queue(queues, o) == Returned(h, o);
      QueueSplit(queues, p, o);
      hide *;
      DeliveredStep(served, s, o);
      Assoc(Delivered(served, o), Given(s, o), Queue(after, o));
    }
  }

  lemma PassedOn<T>(given: seq<T>, m: seq<T>, queue: seq<T>)
    requires m == [] || queue == []
    ensures given + m + queue == given + queue + m
  {
  }

  lemma TakeFetched(
    served: seq<Served>, queues: map<Proto, seq<RxMsg>>, h: seq<Exchange>, after: seq<Exchange>, p: Proto,
    r: Result<Option<RxMsg>, Failure>)
    requires Balanced(served, queues, h) && Queue(queues, p) == []
    requires OneMore(h, after, PollInner(p))
    requires Brought(after[|after| - 1], p) == if r.Ok? && r.value.Some? then [r.value.value] else []
    ensures Balanced(served + [Served(Poll(p), MessageAnswer(r))], queues, after)
  {
    var x, s := after[|after| - 1], Served(Poll(p), MessageAnswer(r));
    forall o ensures Delivered(served + [s], o) + Queue(queues, o) == Returned(after, o) {
      assert Delivered(served, o) + Queue(queues, o) == Returned(h, o);
      assert Given(s, o) == Brought(x, o) && (o != p ==> Brought(x, o) == []) by {
        if o != p {
          ForOneProtocol(x, p, o);
        }
      }
      hide *;
      DeliveredStep(served, s, o);
      ReturnedStep(h, x, o);
      PassedOn(Delivered(served, o), Given(s, o), Queue(queues, o));
    }
  }

  lemma Store(served: seq<Served>, queues: map<Proto, seq<RxMsg>>, h: seq<Exchange>, after: seq<Exchange>, p: Proto)
    requires Balanced(served, queues, h) && OneMore(h, after, PollInner(p))
    ensures var m := Brought(after[|after| - 1], p);
            && Balanced(served, queues[p := Queue(queues, p) + m], after)
            && (m == [] ==> Balanced(served, queues, after))
  {
    var x := after[|after| - 1];
    var m := Brought(x, p);
    var kept := queues[p := Queue(queues, p) + m];
    forall o
      ensures Delivered(served, o) + Queue(kept, o) == Returned(after, o)
      ensures m == [] ==> Queue(kept, o) == Queue(queues, o)
    {
      ReturnedStep(h, x, o);
      Unit(Returned(h, o));
      assert Delivered(served, o) + Queue(queues, o) == Returned(h, o);
      if o == p {
        Assoc(Delivered(served, o), Queue(queues, o), m);
        Unit(Queue(queues, o));
      } else {
        ForOneProtocol(x, p, o);
      }
    }
  }

  lemma ServeOther(served: seq<Served>, queues: map<Proto, seq<RxMsg>>, h: seq<Exchange>, s: Served)
    requires Balanced(served, queues, h) && (!s.req.Poll? || s.answer.Err?)
    ensures Balanced(served + [s], queues, h)
  {
    forall o ensures Delivered(served + [s], o) == Delivered(served, o) {
      DeliveredStep(served, s, o);
      hide Delivered;
      Unit(Delivered(served, o));
    }
  }

  /** At most the frame of this inner command. */
  ghost predicate Wrote(c: Cipher, key: Bytes, inner: Bytes, before: seq<Bytes>, after: seq<Bytes>) {
    var frame := EncodedEncrypted(c, key, inner);
    after == before || (frame.Ok? && after == before + [frame.value])
  }

  lemma ConnectShape(p: Proto, flags: u32, baud: u32)
    ensures Ordinary(ConnectInner(p, flags, baud))
  {
    OnlyIdentifyOpens(Command.Connect(p, flags, baud));
  }

  /** The two frames of the handshake up to where it failed, both if it did not. */
  ghost predicate Handshake(before: seq<Bytes>, after: seq<Bytes>, whole: bool) {
    exists w: seq<Bytes> :: after == before + w && w <= [ResetFrame(), IdentFrame()] && (whole ==> |w| == 2)
  }

  /** A failed handshake, or a whole one and then at most the frame under the new key. */
  ghost predicate RetryWrites(c: Cipher, key: Bytes, inner: Bytes, before: seq<Bytes>, after: seq<Bytes>) {
    Handshake(before, after, false)
    || exists m: seq<Bytes> :: Handshake(before, m, true) && Wrote(c, key, inner, m, after)
  }

  /**
   An attempt under the old key and, if need be, a handshake with an attempt under the new one:
   never an OPEN of its own.
   */
  ghost predicate ConnectWrites(before: seq<Bytes>, after: seq<Bytes>, inner: Bytes, c: Cipher, k0: Bytes, k1: Bytes) {
    exists m: seq<Bytes> :: Wrote(c, k0, inner, before, m) && (after == m || RetryWrites(c, k1, inner, m, after))
  }

  lemma NothingBrought(
    served: seq<Served>, queues: map<Proto, seq<RxMsg>>, h: seq<Exchange>, after: seq<Exchange>, inner: Bytes)
    requires OneMore(h, after, inner)
    requires |inner| >= 3 && inner[2] != READ_MSG
    ensures Balanced(served, queues, after) <==> Balanced(served, queues, h)
  {
    var x := after[|after| - 1];
    forall p ensures Returned(h + [x], p) == Returned(h, p) {
      ReturnedStep(h, x, p);
      PollInnerShape(p, p);
      Unit(Returned(h, p));
    }
  }

  // ---- connecting -----------------------------------------------------------

  /** What connecting changes of the actor and its port. */
  datatype Snap = Snap(
    history: seq<Exchange>, writes: seq<Bytes>, key: Bytes, adapter: Adapter, established: bool, agreed: bool)

  /** One exchange and its acknowledgement. */
  ghost predicate Tried(c: Cipher, inner: Bytes, op: byte, s: Snap, t: Snap, r: Result<(), Failure>) {
    && OneMore(s.history, t.history, inner) && r == Acknowledged(LastReply(t.history), op)
    && Wrote(c, s.key, inner, s.writes, t.writes)
    && t.key == s.key && t.established == s.established && t.agreed == s.agreed
  }

  /** A handshake; one that fails keeps the old key, and the agreement on it exactly if it wrote nothing. */
  ghost predicate Renewed(c: Cipher, s: Snap, t: Snap, ok: bool) {
    && t.history == s.history && t.established == ok
    && Handshake(s.writes, t.writes, ok) && Shaken(c, s.adapter, t.adapter, s.writes, t.writes)
    && (!ok ==> t.key == s.key)
    && t.agreed == (ok || (s.agreed && t.writes == s.writes))
  }

  /** A handshake and, if it succeeds, one more exchange. */
  ghost predicate TriedAgain(c: Cipher, inner: Bytes, op: byte, s: Snap, t: Snap, r: Result<(), Failure>) {
    || (Renewed(c, s, t, false) && r.Err?)
    || exists m :: Renewed(c, s, m, true) && Tried(c, inner, op, m, t, r)
  }

  /** As long as they agree the adapter has the link's key. */
  ghost predicate Sure(s: Snap, closed: bool) {
    s.agreed && !closed ==> s.adapter == Keyed(s.key)
  }

  /** One exchange, and a second try if that was not acknowledged. */
  ghost predicate Persisted(c: Cipher, inner: Bytes, s: Snap, t: Snap, closed: bool, r: Result<(), Failure>) {
    || (Tried(c, inner, CONNECT, s, t, r) && r.Ok?)
    || exists m, first: Result<(), Failure> ::
         && Tried(c, inner, CONNECT, s, m, first) && first.Err? && Sure(m, closed)
         && TriedAgain(c, inner, CONNECT, m, t, r)
  }

  lemma AgainAfter(c: Cipher, inner: Bytes, op: byte, s: Snap, m: Snap, t: Snap, r: Result<(), Failure>)
    requires Renewed(c, s, m, true) && Tried(c, inner, op, m, t, r)
    ensures TriedAgain(c, inner, op, s, t, r)
  {
  }

  lemma PersistedAfter(
    c: Cipher, inner: Bytes, s: Snap, m: Snap, t: Snap, closed: bool, first: Result<(), Failure>,
    r: Result<(), Failure>)
    requires Tried(c, inner, CONNECT, s, m, first) && first.Err? && Sure(m, closed)
    requires TriedAgain(c, inner, CONNECT, m, t, r)
    ensures Persisted(c, inner, s, t, closed, r)
  {
  }

  /**
   What a connect does to the agreement on the key: an acknowledged attempt leaves it as it was,
   a new handshake restores it, and a handshake that fails from an agreed state keeps it exactly
   if it wrote nothing and leaves the adapter in one of the states it may then be in.
   */
  ghost predicate KeyAfter(c: Cipher, inner: Bytes, s: Snap, t: Snap, closed: bool) {
    && s.history < t.history
    && if Acknowledged(t.history[|s.history|].reply, CONNECT).Ok? then t.agreed == s.agreed
       else if |t.history| == |s.history| + 2 then t.agreed
       else
         s.agreed && !closed ==>
           exists m :: && Wrote(c, s.key, inner, s.writes, m)
                       && Shaken(c, Keyed(s.key), t.adapter, m, t.writes)
                       && (t.agreed <==> t.writes == m)
  }

  lemma HandshakeThen(c: Cipher, inner: Bytes, before: seq<Bytes>, m: seq<Bytes>, after: seq<Bytes>, key: Bytes)
    requires Handshake(before, m, true) && Wrote(c, key, inner, m, after)
    ensures RetryWrites(c, key, inner, before, after)
  {
  }

  lemma HandshakeWrites(c: Cipher, a: Adapter, a': Adapter, before: seq<Bytes>, after: seq<Bytes>, whole: bool)
    requires Shaken(c, a, a', before, after) && (whole ==> |after| == |before| + 2)
    ensures Handshake(before, after, whole) && (after == before ==> a' == a)
    ensures OpensFollowResets(before) ==> OpensFollowResets(after)
  {
    hide AfterFrame, ResetFrame, IdentFrame, OpensFollowResets, Arrived;
    var w :| w <= [ResetFrame(), IdentFrame()] && after == before + w && MayBe(c, a, w, a');
    if OpensFollowResets(before) {
      OpensStill(before, w);
    }
  }

  lemma HandshakeOnly(c: Cipher, inner: Bytes, before: seq<Bytes>, after: seq<Bytes>, key: Bytes)
    requires Handshake(before, after, false)
    ensures RetryWrites(c, key, inner, before, after)
  {
  }

  lemma FirstSufficed(c: Cipher, inner: Bytes, s: Snap, t: Snap, closed: bool, r: Result<(), Failure>)
    requires Tried(c, inner, CONNECT, s, t, r) && r.Ok?
    ensures Attempts(s.history, t.history, inner, true, t.established, s.established, t.key == s.key)
    ensures ConnectWrites(s.writes, t.writes, inner, c, s.key, t.key)
    ensures KeyAfter(c, inner, s, t, closed)
  {
    hide Wrote, Acknowledged;
  }

  lemma RenewalFailed(
    c: Cipher, inner: Bytes, s: Snap, m: Snap, t: Snap, closed: bool, first: Result<(), Failure>,
    r: Result<(), Failure>)
    requires Tried(c, inner, CONNECT, s, m, first) && first.Err? && Sure(m, closed)
    requires Renewed(c, m, t, false) && r.Err?
    ensures Attempts(s.history, t.history, inner, false, t.established, s.established, t.key == s.key)
    ensures ConnectWrites(s.writes, t.writes, inner, c, s.key, t.key)
    ensures KeyAfter(c, inner, s, t, closed)
  {
    hide Wrote, Handshake, Shaken, RetryWrites, Acknowledged;
    HandshakeOnly(c, inner, m.writes, t.writes, t.key);
  }

  lemma SecondDecided(
    c: Cipher, inner: Bytes, s: Snap, m: Snap, n: Snap, t: Snap, closed: bool, first: Result<(), Failure>,
    r: Result<(), Failure>)
    requires Tried(c, inner, CONNECT, s, m, first) && first.Err?
    requires Renewed(c, m, n, true) && Tried(c, inner, CONNECT, n, t, r)
    ensures Attempts(s.history, t.history, inner, r.Ok?, t.established, s.established, t.key == s.key)
    ensures ConnectWrites(s.writes, t.writes, inner, c, s.key, t.key)
    ensures KeyAfter(c, inner, s, t, closed)
  {
    hide Wrote, Handshake, Shaken, RetryWrites, Acknowledged;
    HandshakeThen(c, inner, m.writes, n.writes, t.writes, t.key);
  }

  /** The exchanges, the writes and the key of a connect. */
  lemma PersistedMeans(c: Cipher, inner: Bytes, s: Snap, t: Snap, closed: bool, r: Result<(), Failure>)
    requires Persisted(c, inner, s, t, closed, r)
    ensures Attempts(s.history, t.history, inner, r.Ok?, t.established, s.established, t.key == s.key)
    ensures ConnectWrites(s.writes, t.writes, inner, c, s.key, t.key)
    ensures KeyAfter(c, inner, s, t, closed)
  {
    hide Wrote, Handshake, Shaken, Attempts, ConnectWrites, KeyAfter, Acknowledged, Renewed, Tried, OneMore;
    if Tried(c, inner, CONNECT, s, t, r) && r.Ok? {
      FirstSufficed(c, inner, s, t, closed, r);
    } else {
      var m, first: Result<(), Failure> :|
        && Tried(c, inner, CONNECT, s, m, first) && first.Err? && Sure(m, closed)
        && TriedAgain(c, inner, CONNECT, m, t, r);
      if Renewed(c, m, t, false) && r.Err? {
        RenewalFailed(c, inner, s, m, t, closed, first, r);
      } else {
        var n :| Renewed(c, m, n, true) && Tried(c, inner, CONNECT, n, t, r);
        SecondDecided(c, inner, s, m, n, t, closed, first, r);
      }
    }
  }

  // ---- the actor ------------------------------------------------------------

  class Actor {
    const port: Port
    var key: Bytes
    var queues: map<Proto, seq<RxMsg>>
    var connected: seq<Proto>
    /** Consecutive exchanges without a reply, saturating. */
    var silent: byte
    var wedged: bool
    ghost var history: seq<Exchange>
    ghost var served: seq<Served>
    /**
     Whether the last handshake succeeded, whether any since wrote something and failed, and whether
     the session was closed.
     */
    ghost var established: bool
    ghost var agreed: bool
    ghost var closed: bool

    /** The adapter uses the link's key, unless a handshake that wrote something failed or the session was closed. */
    ghost predicate Linked()
      reads this`key, this`agreed, this`closed, port
    {
      && port.Valid() && |key| == 8 && OpensFollowResets(port.writes)
      && (agreed && !closed ==> port.adapter == Keyed(key))
    }

    ghost function Now(): Snap
      reads this`history, this`key, this`established, this`agreed, port
    {
      Snap(history, port.writes, key, port.adapter, established, agreed)
    }

    /** The counter and the verdict are what the exchanges say. */
    ghost predicate Judged()
      reads this`silent, this`wedged, this`history, port
    {
      && silent as nat == Min(Trailing(history), 255) && wedged == ThreeInARow(history)
      && Recorded(history, port.replies)
    }

    ghost predicate Sound()
      reads this`key, this`agreed, this`closed, this`silent, this`wedged, this`history
      reads this`served, this`queues, port
    {
      Linked() && Judged() && Balanced(served, queues, history)
    }

    ghost predicate Valid()
      reads this, port
    {
      Sound() && Ascending(connected)
    }

    constructor (port: Port, key: Bytes)
      requires port.Valid() && |key| == 8 && port.adapter == Keyed(key) && OpensFollowResets(port.writes)
      ensures Valid() && this.port == port && this.key == key && established && agreed && !closed
      ensures history == [] && served == [] && connected == [] && !wedged
    {
      this.port, this.key := port, key;
      queues, connected, silent, wedged := map[], [], 0, false;
      history, served, established, agreed, closed := [], [], true, true, false;
    }

    method TransactInner(inner: Bytes) returns (r: Result<Bytes, Failure>)
      requires Linked() && |inner| >= 3 && inner[2] != OPEN && (inner[2] == CLOSE_SESSION ==> closed)
      modifies port
      ensures Linked()
      ensures Wrote(port.c, key, inner, old(port.writes), port.writes)
      ensures Came(port.c, key, old(port.replies), port.replies, r)
      ensures |port.replies| > |old(port.replies)| ==> port.writes != old(port.writes) && port.unread == 1
      ensures r.Err? ==> !r.error.Wedged?
    {
      hide EncodedEncrypted, DecodedEncrypted, AfterFrame, IdentFrame, ResetFrame, OpensFollowResets, Cipher.Lawful;
      var frame := EncodeEncrypted(port.c, key, inner);
      if frame.Err? {
        return Err(BadFrame(frame.error));
      }
      ghost var before := port.writes;
      forall k: Bytes | |k| == 8 ensures port.adapter == Keyed(key) ==>
                                           AfterFrame(port.c, port.adapter, frame.value, k)
                                           == if inner[2] == CLOSE_SESSION then Plain else Keyed(key) {
        UnderKey(port.c, key, inner, k);
      }
      UnderKey(port.c, key, inner, []);
      OpensStill(before, [frame.value]);
      var ok := port.Purge();
      if !ok {
        return Err(Failure.Io);
      }
      ok := port.Write(frame.value);
      if !ok {
        return Err(Failure.Io);
      }
      var raw := port.Read();
      if raw.Err? {
        return Err(FailureOf(raw.error));
      }
      var resp := DecodeEncrypted(port.c, key, raw.value);
      if resp.Err? {
        return Err(BadFrame(resp.error));
      }
      return Ok(resp.value);
    }

    method NoteSilence()
      modifies this`silent, this`wedged
      ensures silent as nat == Min(old(silent) as nat + 1, 255)
      ensures wedged == (old(wedged) || silent as nat >= WEDGE_THRESHOLD)
    {
      silent := if silent == 255 then 255 else silent + 1;
      if silent as nat >= WEDGE_THRESHOLD {
        wedged := true;
      }
    }

    /** One exchange of the wire, entered in the history with its outcome. */
    ghost predicate Exchanged(
      x: Exchange, hist: seq<Exchange>, writes: seq<Bytes>, replies: seq<Result<Bytes, ReadError>>)
      reads this, port
    {
      && history == hist + [x]
      && (x.reply.Err? ==> !x.reply.error.Wedged?)
      && Wrote(port.c, key, x.inner, writes, port.writes)
      && Came(port.c, key, replies, port.replies, x.reply)
      && (|port.replies| > |replies| ==> port.writes != writes)
      && x.read == if |port.replies| == |replies| then Nothing else Read(|replies|, port.replies[|replies|])
    }

    method Transact(inner: Bytes) returns (r: Result<Bytes, Failure>)
      requires Linked() && Judged() && |inner| >= 3 && inner[2] != OPEN && (inner[2] == CLOSE_SESSION ==> closed)
      modifies this`silent, this`wedged, this`history, port
      ensures Linked() && Judged()
      ensures OneMore(old(history), history, inner) && LastReply(history) == r && (r.Err? ==> !r.error.Wedged?)
      ensures Exchanged(history[|history| - 1], old(history), old(port.writes), old(port.replies))
    {
      hide EncodedEncrypted, DecodedEncrypted, Linked, ThreeInARow, Trailing, Recorded;
      ghost var n, replies := |port.replies|, port.replies;
      r := TransactInner(inner);
      ghost var x := Exchange(inner, r, if |port.replies| == n then Nothing else Read(n, port.replies[n]));
      if r.Err? && r.error.Timeout? {
        NoteSilence();
      } else {
        silent := 0;
      }
      VerdictStep(history, x);
      RecordedStep(history, x, replies, port.replies);
      history := history + [x];
    }

    method TransactStatus(inner: Bytes, op: byte) returns (r: Result<(), Failure>)
      requires Sound() && Ordinary(inner)
      modifies this`silent, this`wedged, this`history, port
      ensures Sound()
      ensures OneMore(old(history), history, inner)
      ensures r == Acknowledged(LastReply(history), op) && (r.Err? ==> !r.error.Wedged?)
      ensures Tried(port.c, inner, op, old(Now()), Now(), r)
      ensures Exchanged(history[|history| - 1], old(history), old(port.writes), old(port.replies))
    {
      ghost var h0 := history;
      hide Linked, Judged, Balanced, Came, EncodedEncrypted;
      var resp := Transact(inner);
      NothingBrought(served, queues, h0, history, inner);
      if resp.Err? {
        return Err(resp.error);
      }
      var status := StatusOf(resp.value, op);
      if status.Err? {
        return Err(BadFrame(status.error));
      }
      if status.value == 0 {
        return Ok(());
      }
      return Err(Rejected(op, status.value));
    }

    /** Connects, and when that is not acknowledged once more after a new handshake. */
    method ConnectTo(p: Proto, flags: u32, baud: u32) returns (r: Result<(), Failure>)
      requires Valid()
      modifies this`silent, this`wedged, this`history, this`key, this`established, this`agreed, this`connected, port
      ensures Valid() && (r.Err? ==> !r.error.Wedged?)
      ensures Attempts(old(history), history, ConnectInner(p, flags, baud), r.Ok?, established, old(established),
                       key == old(key))
      ensures connected == if r.Ok? && p !in old(connected) then Insert(old(connected), p) else old(connected)
      ensures ConnectWrites(old(port.writes), port.writes, ConnectInner(p, flags, baud), port.c, old(key), key)
      ensures KeyAfter(port.c, ConnectInner(p, flags, baud), old(Now()), Now(), closed)
    {
      hide Persisted, Attempts, ConnectWrites, KeyAfter, Acknowledged, Sound, Insert, ConnectInner;
      ConnectShape(p, flags, baud);
      ghost var before := Now();
      r := Persist(ConnectInner(p, flags, baud));
      PersistedMeans(port.c, ConnectInner(p, flags, baud), before, Now(), closed, r);
      if r.Ok? && p !in connected {
        connected := Insert(connected, p);
      }
    }

    method Persist(inner: Bytes) returns (r: Result<(), Failure>)
      requires Sound() && Ordinary(inner)
      modifies this`silent, this`wedged, this`history, this`key, this`established, this`agreed, port
      ensures Sound() && (r.Err? ==> !r.error.Wedged?)
      ensures Persisted(port.c, inner, old(Now()), Now(), closed, r)
    {
      ghost var before := Now();
      r := TransactStatus(inner, CONNECT);
      ghost var mid, first := Now(), r;
      AgreementNow();
      hide Sound, Tried, TriedAgain, Sure, Now;
      if r.Err? {
        r := Retry(inner, CONNECT);
        PersistedAfter(port.c, inner, before, mid, Now(), closed, first, r);
      }
    }

    /** The handshake and the second attempt. */
    method Retry(inner: Bytes, op: byte) returns (r: Result<(), Failure>)
      requires Sound() && Ordinary(inner)
      modifies this`silent, this`wedged, this`history, this`key, this`established, this`agreed, port
      ensures Sound() && (r.Err? ==> !r.error.Wedged?)
      ensures TriedAgain(port.c, inner, op, old(Now()), Now(), r)
    {
      ghost var before := Now();
      var link := Rehandshake();
      ghost var mid := Now();
      hide Sound, Tried, Renewed, Now;
      if link.Err? {
        r := Err(link.error);
      } else {
        r := TransactStatus(inner, op);
        AgainAfter(port.c, inner, op, before, mid, Now(), r);
      }
    }

    lemma AgreementNow()
      requires Sound()
      ensures Sure(Now(), closed)
    {
    }

    /** The port's read of the `i`-th exchange timed out. */
    ghost predicate TimedOut(i: nat)
      requires i < |history|
      reads this`history, port
    {
      var read := history[i].read;
      read.Read? && read.at < |port.replies| && port.replies[read.at] == Err(ReadError.Timeout)
    }

    /** The adapter is wedged exactly when the reads of three exchanges in a row timed out on the port. */
    lemma WedgedExactly()
      requires Judged()
      ensures wedged <==> exists i: nat :: i + 2 < |history| && TimedOut(i) && TimedOut(i + 1) && TimedOut(i + 2)
    {
      assert forall i: nat :: i < |history| ==> (TimedOut(i) <==> Silent(history[i]));
    }

    lemma StillJudged(replies: seq<Result<Bytes, ReadError>>)
      requires silent as nat == Min(Trailing(history), 255) && wedged == ThreeInARow(history)
      requires Recorded(history, replies) && replies <= port.replies
      ensures Judged()
    {
    }

    /** A new link in place of the old one, which stays when there is no new one. */
    method Rehandshake() returns (r: Result<(), Failure>)
      requires Sound()
      modifies this`key, this`established, this`agreed, port
      ensures Sound() && (r.Err? ==> !r.error.Wedged?)
      ensures Renewed(port.c, old(Now()), Now(), r.Ok?)
    {
      hide Shaken, Handshake, Balanced, Trailing, ThreeInARow, Recorded, ResetFrame, IdentFrame, OpensFollowResets;
      ghost var before, a, replies := port.writes, port.adapter, port.replies;
      var link := Establish(port);
      StillJudged(replies);
      HandshakeWrites(port.c, a, port.adapter, before, port.writes, link.Ok?);
      established, agreed := link.Ok?, link.Ok? || (agreed && port.writes == before);
      if link.Err? {
        return Err(link.error);
      }
      key := link.value;
      return Ok(());
    }

    method DisconnectFrom(p: Proto) returns (r: Result<(), Failure>)
      requires Valid()
      modifies this`silent, this`wedged, this`history, this`connected, port
      ensures Valid() && (r.Err? ==> !r.error.Wedged?)
      ensures OneMore(old(history), history, DisconnectInner(p)) && r == Acknowledged(LastReply(history), DISCONNECT)
      ensures connected == Without(old(connected), p)
    {
      DisconnectShape(p);
      hide Sound, Acknowledged, Ascending, Without, OneMore, LastReply, Exchanged, DisconnectInner;
      r := TransactStatus(DisconnectInner(p), DISCONNECT);
      connected := Without(connected, p);
    }

    /** The oldest queued message, or else what one exchange brings. */
    method PollFor(p: Proto) returns (r: Result<Option<RxMsg>, Failure>)
      requires Sound()
      modifies this`silent, this`wedged, this`history, this`queues, port
      ensures Linked() && Judged() && (r.Err? ==> !r.error.Wedged?)
      ensures Balanced(served + [Served(Poll(p), MessageAnswer(r))], queues, history)
      ensures Queue(old(queues), p) != [] ==>
                r.Ok? && r.value.Some? && history == old(history)
                && port.writes == old(port.writes) && port.replies == old(port.replies)
      ensures Queue(old(queues), p) == [] ==>
                OneMore(old(history), history, PollInner(p)) && queues == old(queues)
                && (r.Ok? <==> LastReply(history).Ok? && ParseReadReply(LastReply(history).value).Ok?)
    {
      ghost var h0 := history;
      PollInnerShape(p, p);
      var q := Queue(queues, p);
      hide Linked, Judged, Balanced, OneMore, Exchanged, PollInner, Queue;
      if q != [] {
        TakeQueued(served, queues, history, p);
        queues := queues[p := q[1..]];
        return Ok(Some(q[0]));
      }
      var resp := Transact(PollInner(p));
      if resp.Err? {
        r := Err(resp.error);
      } else {
        var parsed := ParseReadReply(resp.value);
        if parsed.Err? {
          r := Err(BadFrame(parsed.error));
        } else if parsed.value.data == [] {
          r := Ok(None);
        } else {
          r := Ok(Some(parsed.value));
        }
      }
      BroughtBy(h0, history, resp, p);
      TakeFetched(served, queues, h0, history, p, r);
    }

    /** With nothing to do: one poll of the first connected channel, its message kept for later. */
    method IdlePoll()
      requires Valid()
      modifies this`silent, this`wedged, this`history, this`queues, port
      ensures Valid()
      ensures old(wedged) ==> wedged && history == old(history) && queues == old(queues)
                              && port.writes == old(port.writes) && port.replies == old(port.replies)
      ensures !old(wedged) ==>
                OneMore(old(history), history, PollInner(if connected == [] then Iso15765 else connected[0]))
      ensures !old(wedged) && wedged ==> silent as nat >= WEDGE_THRESHOLD
    {
      hide Linked, Judged, Balanced, Ascending, Trailing, ThreeInARow;
      if wedged {
        return;
      }
      ghost var h0 := history;
      VerdictNow();
      Drain(if connected == [] then Iso15765 else connected[0]);
      OneCounts(h0, history);
      VerdictNow();
    }

    method Drain(p: Proto)
      requires Sound()
      modifies this`silent, this`wedged, this`history, this`queues, port
      ensures Sound()
      ensures OneMore(old(history), history, PollInner(p))
    {
      ghost var h0 := history;
      PollInnerShape(p, p);
      hide Linked, Judged, Balanced, OneMore, LastReply, Brought, Queue, PollInner, Exchanged;
      var resp := Transact(PollInner(p));
      Store(served, queues, h0, history, p);
      BroughtBy(h0, history, resp, p);
      if resp.Ok? {
        var parsed := ParseReadReply(resp.value);
        if parsed.Ok? && parsed.value.data != [] {
          queues := queues[p := Queue(queues, p) + [parsed.value]];
        }
      }
    }

    /** One request: served, or refused without a byte on the wire while the adapter is wedged. */
    method Handle(req: Request) returns (a: Result<Payload, Failure>)
      requires Valid() && req.Fair()
      modifies this, port
      ensures Valid() && served == old(served) + [Served(req, a)]
      ensures Refused(Served(req, a)) <==> old(wedged)
      ensures !old(wedged) ==>
                AnsweredTruly(req, a, req.Poll? && Queue(old(queues), req.proto) != [], old(history), history)
      ensures !old(wedged) ==>
                (wedged && silent as nat < WEDGE_THRESHOLD
                 <==> QuietRetry(req, old(silent) as nat, old(history), history))
      ensures old(wedged) ==>
                && a == Err(Wedged(old(silent)))
                && history == old(history) && queues == old(queues) && connected == old(connected) && key == old(key)
                && wedged && port.writes == old(port.writes) && port.replies == old(port.replies)
    {
      hide Linked, Judged, Balanced, Exchanged, Ascending, OneMore, Attempts, ConnectWrites, KeyAfter, Acknowledged,
           Trailing, ThreeInARow, Silent, Queue, Insert, Without, ConnectInner, DisconnectInner, PollInner, Now;
      VerdictNow();
      ghost var was, start, waiting := wedged, history, req.Poll? && Queue(queues, req.proto) != [];
      if wedged {
        a := Err(Wedged(silent));
        ServeOther(served, queues, history, Served(req, a));
      } else {
        match req
        case Send(inner) =>
          ghost var h0 := history;
          var r := Transact(inner);
          NothingBrought(served, queues, h0, history, inner);
          a := ReplyAnswer(r);
          ServeOther(served, queues, history, Served(req, a));
        case Connect(p, flags, baud) =>
          ghost var h0, e0, k0 := history, established, key;
          var r := ConnectTo(p, flags, baud);
          ConnectAnswered(h0, history, ConnectInner(p, flags, baud), r.Ok?, established, e0, key == k0);
          a := DoneAnswer(r);
          ServeOther(served, queues, history, Served(req, a));
        case Disconnect(p) =>
          var r := DisconnectFrom(p);
          a := DoneAnswer(r);
          ServeOther(served, queues, history, Served(req, a));
        case Poll(p) =>
          var r := PollFor(p);
          a := MessageAnswer(r);
      }
      VerdictNow();
      if !was {
        CountFallsBehind(req, a, waiting, start, history);
      }
      served := served + [Served(req, a)];
    }

    /** Every channel disconnected in order and the session closed, whatever each step comes to. */
    method Teardown()
      requires Valid()
      modifies this`silent, this`wedged, this`history, this`connected, this`closed, port
      ensures Valid() && closed && connected == [] && served == old(served)
      ensures old(history) <= history && |history| == |old(history)| + |old(connected)| + 1
      ensures forall i :: 0 <= i < |old(connected)| ==>
                history[|old(history)| + i].inner == DisconnectInner(old(connected)[i])
      ensures history[|history| - 1].inner == CloseInner()
    {
      var leaving := connected;
      hide Sound, Acknowledged, Exchanged, DisconnectInner, CloseInner, Wrote, Ordinary, OneMore, LastReply;
      connected := [];
      ghost var h0 := history;
      var i := 0;
      while i < |leaving|
        invariant 0 <= i <= |leaving| && Sound() && connected == []
        invariant h0 <= history && |history| == |h0| + i
        invariant forall j :: 0 <= j < i ==> history[|h0| + j].inner == DisconnectInner(leaving[j])
      {
        DisconnectShape(leaving[i]);
        ghost var h := history;
        var _ := TransactStatus(DisconnectInner(leaving[i]), DISCONNECT);
        OneMoreAt(h0, h, history, DisconnectInner(leaving[i]));
        i := i + 1;
      }
      ghost var h1 := history;
      LastWord();
      OneMoreAt(h0, h1, history, CloseInner());
    }

    /** The end of the session; from here on nothing is said of the adapter's key. */
    method LastWord()
      requires Sound()
      modifies this`silent, this`wedged, this`history, this`closed, port
      ensures Sound() && closed
      ensures OneMore(old(history), history, CloseInner())
    {
      ghost var h0 := history;
      CloseShape();
      Retire();
      hide Linked, Judged, Balanced, Exchanged, CloseInner;
      var _ := Transact(CloseInner());
      NothingBrought(served, queues, h0, history, CloseInner());
    }

    ghost method Retire()
      requires Sound()
      modifies this`closed
      ensures Sound() && closed
    {
      hide Balanced, OpensFollowResets, Trailing, ThreeInARow;
      closed := true;
    }

    /**
     The life of the actor: requests in the order they come, an idle poll whenever none came
     in time, and the teardown when no caller is left.
     */
    method Run(events: seq<Event>)
      requires Valid() && served == []
      requires forall e :: e in events && e.Call? ==> e.req.Fair()
      modifies this, port
      ensures Valid() && closed && connected == []
      ensures Requests(served) == Calls(events)
      ensures OnceRefused(served, ThreeInARow(history))
    {
      var i := 0;
      AtStart(events, wedged);
      hide *;
      while i < |events|
        invariant 0 <= i <= |events| && Valid()
        invariant Requests(served) == Calls(events[..i]) && OnceRefused(served, wedged)
      {
        ghost var before, was := served, wedged;
        CallsStep(events, i);
        match events[i] {
          case Call(req) =>
            var a := Handle(req);
            RequestsStep(before, Served(req, a));
            RefusedStep(before, Served(req, a), was);
            RefusedSame(served, was, wedged);
          case Quiet =>
            IdlePoll();
            RefusedSame(before, was, wedged);
        }
        i := i + 1;
      }
      assert events[..|events|] == events;
      ghost var h0, before := history, served;
      VerdictNow();
      Teardown();
      VerdictLasts(h0, history);
      RefusedSame(before, ThreeInARow(h0), ThreeInARow(history));
    }

    lemma VerdictNow()
      requires Judged() || Valid()
      ensures wedged == ThreeInARow(history) && silent as nat == Min(Trailing(history), 255)
    {
    }
  }
}
