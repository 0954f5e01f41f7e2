/**
 The bridge: the five primitives of a transport as requests over TCP, executed one after
 the other on the cable at the far end, each answered by one response.
 */
module NetProxy {
  import opened Prelude
  import opened Inner
  import opened Framing

  const NET_MAX_FRAME: nat := 0x10_0000

  const MAX_READ: nat := 0x1_0000

  const U64_MAX: nat := 0xffff_ffff_ffff_ffff

  datatype LatencyResult = Set(millis: byte) | AlreadyLow(millis: byte) | Failed(reason: Bytes) | Unavailable

  /** The primitives of a transport; a read has room for `cap` bytes. */
  datatype Op =
    | WriteAll(data: Bytes)
    | Read(cap: nat, micros: nat)
    | PurgeRx
    | SetModem(dtr: bool, rts: bool)
    | OptimizeLatency

  datatype Outcome = Done | Got(data: Bytes) | Latency(latency: LatencyResult) | Fail(reason: Bytes)

  /**
   What a primitive can come to: the latency fix never fails as such, a read never brings more than
   there is room for.
   */
  predicate Fits(op: Op, o: Outcome) {
    match op
    case Read(cap, _) => o.Fail? || (o.Got? && |o.data| <= cap)
    case OptimizeLatency => o.Latency?
    case _ => o.Done? || o.Fail?
  }

  function Text(s: string): Bytes {
    seq(|s|, i requires 0 <= i < |s| => Mod256(s[i] as int))
  }

  // ---- frames ---------------------------------------------------------------

  function Wire(body: Bytes): Bytes
    requires |body| < 0x1_0000_0000
  {
    U32(|body|) + body
  }

  datatype NetCut = NetMore | NetBad(len: nat) | NetFrame(body: Bytes)

  function CutNet(buf: Bytes): NetCut {
    if |buf| < 4 then NetMore
    else
      var len := RdU32(buf);
      if len > NET_MAX_FRAME then NetBad(len)
      else if |buf| < 4 + len then NetMore
      else NetFrame(buf[4..4 + len])
  }

  /** A frame comes off the stream as it was put on exactly when it is within the limit. */
  lemma WireRoundTrip(body: Bytes, rest: Bytes)
    requires |body| < 0x1_0000_0000
    ensures var s := Wire(body) + rest;
            && s[4 + |body|..] == rest
            && CutNet(s) == if |body| <= 0x10_0000 then NetFrame(body) else NetBad(|body|)
  {
    U32RoundTrip(|body|, body + rest);
    hide U32, RdU32;
    assert Wire(body) + rest == U32(|body|) + (body + rest);
  }

  datatype NetError = TooBig(len: nat) | Ended | Broken

  lemma NetBody(data: Bytes, start: nat, len: nat)
    requires start + 4 + len <= |data|
    ensures data[start..][4..4 + len] == data[start + 4..start + 4 + len]
  {
  }

  lemma NetHeader(data: Bytes, start: nat, hdr: Bytes)
    requires start + 4 <= |data| && hdr == data[start..start + 4]
    ensures RdU32(data[start..]) == RdU32(hdr)
  {
    assert data[start..][2..][..2] == hdr[2..];
  }

  method ReadNetFrame(src: Source) returns (r: Result<Bytes, NetError>)
    requires src.Valid()
    modifies src`pos
    ensures src.Valid() && old(src.pos) <= src.pos
    ensures r.Ok? ==> CutNet(old(src.data[src.pos..])) == NetFrame(r.value) && src.pos == old(src.pos) + 4 + |r.value|
    ensures r.Err? && r.error.TooBig? ==> CutNet(old(src.data[src.pos..])) == NetBad(r.error.len)
    ensures r.Err? && !r.error.TooBig? && src.prompt ==> r.error.Ended? && CutNet(old(src.data[src.pos..])) == NetMore
  {
    hide RdU32;
    ghost var start := src.pos;
    var lenb := new byte[4];
    var got := src.ReadExact(lenb, 0);
    if got.Err? {
      return Err(if got.error.Timeout? then Ended else Broken);
    }
    NetHeader(src.data, start, lenb[..]);
    var len: nat := RdU32(lenb[..]);
    if len > NET_MAX_FRAME {
      return Err(TooBig(len));
    }
    var body := new byte[len];
    got := src.ReadExact(body, 0);
    if got.Err? {
      return Err(if got.error.Timeout? then Ended else Broken);
    }
    NetBody(src.data, start, len);
    return Ok(body[..]);
  }

  // ---- latency --------------------------------------------------------------

  function EncodeLatency(l: LatencyResult): Bytes {
    match l
    case Set(millis) => [0, millis]
    case AlreadyLow(millis) => [1, millis]
    case Failed(reason) => [2] + reason
    case Unavailable => [3]
  }

  function DecodeLatency(b: Bytes): LatencyResult {
    var second: byte := if |b| > 1 then b[1] else 0;
    if b == [] then Unavailable
    else if b[0] == 0 then Set(second)
    else if b[0] == 1 then AlreadyLow(second)
    else if b[0] == 2 then Failed(b[1..])
    else Unavailable
  }

  lemma LatencyRoundTrip(l: LatencyResult)
    ensures DecodeLatency(EncodeLatency(l)) == l
  {
    if l.Failed? {
      assert EncodeLatency(l)[1..] == l.reason;
    }
  }

  // ---- requests and responses -----------------------------------------------

  const REQ_WRITE: byte := 1

  const REQ_READ: byte := 2

  const REQ_PURGE: byte := 3

  const REQ_SET_MODEM: byte := 4

  const REQ_OPT_LATENCY: byte := 5

  type u64 = x: int | 0 <= x <= U64_MAX

  function U64(v: u64): (s: Bytes)
    ensures |s| == 8
  {
    U32(v % 0x1_0000_0000) + U32(v / 0x1_0000_0000)
  }

  function RdU64(s: Bytes): u64
    requires |s| >= 8
  {
    RdU32(s) + 0x1_0000_0000 * RdU32(s[4..])
  }

  lemma Halved(lo: Bytes, more: Bytes)
    requires |lo| == 4
    ensures (lo + more)[4..] == more
  {
  }

  lemma U64RoundTrip(v: u64, rest: Bytes)
    ensures RdU64(U64(v) + rest) == v
  {
    hide U32, RdU32;
    var lo, hi := v % 0x1_0000_0000, v / 0x1_0000_0000;
    U32RoundTrip(lo, U32(hi) + rest);
    U32RoundTrip(hi, rest);
    Assoc(U32(lo), U32(hi), rest);
    Halved(U32(lo), U32(hi) + rest);
  }

  function RequestOf(op: Op): Bytes {
    match op
    case WriteAll(data) => [REQ_WRITE] + data
    case Read(cap, micros) => [REQ_READ] + (U32(cap % 0x1_0000_0000) + U64(Min(micros, U64_MAX)))
    case PurgeRx => [REQ_PURGE]
    case SetModem(dtr, rts) => [REQ_SET_MODEM, (if dtr then 1 else 0) + (if rts then 2 else 0)]
    case OptimizeLatency => [REQ_OPT_LATENCY]
  }

  /** The primitive the bridge executes: a read is cut to the bridge's limits. */
  function Carried(op: Op): Op {
    if op.Read? then Read(Min(op.cap % 0x1_0000_0000, MAX_READ), Min(op.micros, U64_MAX)) else op
  }

  /** What the bridge makes of a request: a primitive, or a complaint. */
  function Decoded(req: Bytes): Result<Op, Bytes> {
    if req == [] then Err(Text("empty request"))
    else
      var tag, body := req[0], req[1..];
      if tag == REQ_WRITE then Ok(WriteAll(body))
      else if tag == REQ_READ then
        if |body| < 12 then Err(Text("short READ request"))
        else Ok(Read(Min(RdU32(body), MAX_READ), RdU64(body[4..])))
      else if tag == REQ_PURGE then Ok(PurgeRx)
      else if tag == REQ_SET_MODEM then
        if body == [] then Err(Text("short SET_MODEM request"))
        else Ok(SetModem(body[0] % 2 != 0, body[0] / 2 % 2 != 0))
      else if tag == REQ_OPT_LATENCY then Ok(OptimizeLatency)
      else Err(Text("unknown request tag"))
  }

  function ErrResponse(reason: Bytes): Bytes {
    [1] + reason
  }

  function ResponseOf(o: Outcome): Bytes {
    match o
    case Done => [0]
    case Got(data) => [0] + data
    case Latency(l) => [0] + EncodeLatency(l)
    case Fail(reason) => ErrResponse(reason)
  }

  function OkPayload(resp: Bytes): Result<Bytes, Bytes> {
    if resp == [] then Err(Text("malformed response frame"))
    else if resp[0] == 0 then Ok(resp[1..])
    else if resp[0] == 1 then Err(resp[1..])
    else Err(Text("malformed response frame"))
  }

  /** What the caller of a primitive is told. */
  function Told(op: Op, resp: Bytes): Outcome {
    var payload := OkPayload(resp);
    if op.OptimizeLatency? then Latency(if payload.Ok? then DecodeLatency(payload.value) else Failed(payload.error))
    else if payload.Err? then Fail(payload.error)
    else if op.Read? then Got(payload.value[..Min(|payload.value|, op.cap)])
    else Done
  }

  lemma Flags(dtr: bool, rts: bool)
    ensures var flags: byte := (if dtr then 1 else 0) + (if rts then 2 else 0);
            (flags % 2 != 0 <==> dtr) && (flags / 2 % 2 != 0 <==> rts)
  {
  }

  lemma Behind(tag: byte, body: Bytes)
    ensures ([tag] + body)[0] == tag && ([tag] + body)[1..] == body
  {
  }

  lemma ReadArguments(cap: u32, micros: u64)
    ensures var body := U32(cap) + U64(micros);
            |body| == 12 && RdU32(body) == cap && RdU64(body[4..]) == micros
  {
    U32RoundTrip(cap, U64(micros));
    U64RoundTrip(micros, []);
    Unit(U64(micros));
    hide *;
    assert (U32(cap) + U64(micros))[4..] == U64(micros);
  }

  /** The bridge reads every request as the primitive it stands for. */
  lemma RequestDecodes(op: Op)
    ensures Decoded(RequestOf(op)) == Ok(Carried(op))
  {
    hide U32, RdU32, U64, RdU64;
    match op
    case Read(cap, micros) =>
      ReadArguments(cap % 0x1_0000_0000, Min(micros, U64_MAX));
      Behind(REQ_READ, U32(cap % 0x1_0000_0000) + U64(Min(micros, U64_MAX)));
    case WriteAll(data) =>
      Behind(REQ_WRITE, data);
    case SetModem(dtr, rts) =>
      Flags(dtr, rts);
    case _ =>
  }

  /**
   And the caller is told exactly what the primitive came to: every byte read, success for success,
   error for error.
   */
  lemma ResponseTells(op: Op, o: Outcome)
    requires Fits(Carried(op), o)
    ensures Told(op, ResponseOf(o)) == o && Fits(op, o)
  {
    var resp := ResponseOf(o);
    match o
    case Got(data) =>
      assert resp[1..] == data && |data| <= op.cap;
      assert data[..|data|] == data;
    case Latency(l) =>
      assert resp[1..] == EncodeLatency(l);
      LatencyRoundTrip(l);
    case Fail(reason) =>
      assert resp[1..] == reason;
    case Done =>
  }

  // ---- the cable and the bridge ---------------------------------------------

  /** A cable that may answer anything that fits, depending on all that was done to it. */
  datatype Behaviour = Behaviour(answer: (seq<Op>, Op) -> Outcome) {
    ghost predicate Plausible() {
      forall done: seq<Op>, op: Op :: Fits(op, answer(done, op)) && |ResponseOf(answer(done, op))| <= NET_MAX_FRAME
    }
  }

  class Cable {
    const b: Behaviour
    var calls: seq<Op>

    constructor (b: Behaviour)
      ensures this.b == b && calls == []
    {
      this.b, calls := b, [];
    }

    method Execute(op: Op) returns (o: Outcome)
      modifies this
      ensures calls == old(calls) + [op] && o == b.answer(old(calls), op)
    {
      o := b.answer(calls, op);
      calls := calls + [op];
    }
  }

  /** Calls made on the cable and bytes sent back, until the stream ends (good) or a length is out of bounds. */
  datatype Service = Service(calls: seq<Op>, out: Bytes, good: bool)

  function Respond(b: Behaviour, done: seq<Op>, req: Bytes): (seq<Op>, Bytes) {
    var op := Decoded(req);
    if op.Err? then ([], ErrResponse(op.error)) else ([op.value], ResponseOf(b.answer(done, op.value)))
  }

  lemma ResponseSize(b: Behaviour, done: seq<Op>, req: Bytes)
    requires b.Plausible()
    ensures |Respond(b, done, req).1| <= NET_MAX_FRAME
  {
  }

  ghost function Serve(b: Behaviour, done: seq<Op>, stream: Bytes): Service
    requires b.Plausible()
    decreases |stream|
  {
    var c := CutNet(stream);
    if !c.NetFrame? then Service([], [], c.NetMore?)
    else
      var (calls, resp) := Respond(b, done, c.body);
      ResponseSize(b, done, c.body);
      var later := Serve(b, done + calls, stream[4 + |c.body|..]);
      Service(calls + later.calls, Wire(resp) + later.out, later.good)
  }

  method Dispatch(cable: Cable, req: Bytes) returns (resp: Bytes)
    modifies cable
    ensures var (calls, expected) := Respond(cable.b, old(cable.calls), req);
            cable.calls == old(cable.calls) + calls && resp == expected
  {
    var op := Decoded(req);
    hide Decoded;
    if op.Err? {
      return ErrResponse(op.error);
    }
    var o := cable.Execute(op.value);
    return ResponseOf(o);
  }

  /** The calls made since `done` and the bytes sent begin the service that this stream asks for. */
  ghost predicate Serves(b: Behaviour, done: seq<Op>, stream: Bytes, calls: seq<Op>, out: Bytes)
    requires b.Plausible()
  {
    var s := Serve(b, done, stream);
    done <= calls <= done + s.calls && out <= s.out
  }

  lemma BeginsService(b: Behaviour, done: seq<Op>, stream: Bytes, calls: seq<Op>, out: Bytes, rest: Service)
    requires b.Plausible() && Serve(b, done, stream) == Service(calls + rest.calls, out + rest.out, rest.good)
    ensures Serves(b, done, stream, done + calls, out)
  {
    hide Serve;
    Assoc(done, calls, rest.calls);
  }

  /**
   The request loop of a connection, over any splitting of the stream. If reading fails or
   ends early, what was done and sent so far is where the whole service would have begun.
   */
  method ServeRequests(src: Source, cable: Cable) returns (out: Bytes, good: bool)
    requires src.Valid() && cable.b.Plausible()
    modifies src`pos, cable
    ensures Serves(cable.b, old(cable.calls), old(src.data[src.pos..]), cable.calls, out)
    ensures src.prompt ==>
              var s := Serve(cable.b, old(cable.calls), old(src.data[src.pos..]));
              out == s.out && cable.calls == old(cable.calls) + s.calls && good == s.good
  {
    hide Respond, CutNet, Behaviour.Plausible;
    out := [];
    ghost var done, coming := cable.calls, src.data[src.pos..];
    ghost var calls: seq<Op> := [];
    while true
      invariant src.Valid() && cable.calls == done + calls
      invariant var s, rest := Serve(cable.b, done, coming), Serve(cable.b, done + calls, src.data[src.pos..]);
                s == Service(calls + rest.calls, out + rest.out, rest.good)
      decreases |src.data| - src.pos
    {
      ghost var start := src.pos;
      ghost var rest := Serve(cable.b, done + calls, src.data[src.pos..]);
      var req := ReadNetFrame(src);
      if req.Err? {
        good := req.error.Ended?;
        Unit(calls);
        Unit(out);
        BeginsService(cable.b, done, coming, calls, out, rest);
        return;
      }
      var resp := Dispatch(cable, req.value);
      ResponseSize(cable.b, done + calls, req.value);
      ghost var made := Respond(cable.b, done + calls, req.value).0;
      ghost var later := Serve(cable.b, done + calls + made, src.data[src.pos..]);
      assert src.data[start..][4 + |req.value|..] == src.data[src.pos..];
      Assoc(done, calls, made);
      Assoc(calls, made, later.calls);
      Assoc(out, Wire(resp), later.out);
      out, calls := out + Wire(resp), calls + made;
    }
  }

  const MAGIC: Bytes := [0x52, 0x4d, 0x56, 0x4e]

  const VERSION: byte := 1

  /** The hello decides whether anything is served at all. */
  method ServeConnection(src: Source, cable: Cable) returns (out: Bytes, good: bool)
    requires src.Valid() && cable.b.Plausible()
    modifies src`pos, cable
    ensures var (coming, hello) := (old(src.data[src.pos..]), MAGIC + [VERSION]);
            if hello <= coming && out != [] then
              && out[0] == 0 && Serves(cable.b, old(cable.calls), coming[5..], cable.calls, out[1..])
              && (src.prompt ==>
                    var s := Serve(cable.b, old(cable.calls), coming[5..]);
                    out == [0] + s.out && cable.calls == old(cable.calls) + s.calls && good == s.good)
            else
              && cable.calls == old(cable.calls) && !good
              && (out != [] ==> out == [1] && |coming| >= 5)
              && (src.prompt ==> !(hello <= coming) && (out == [] <==> |coming| < 5))
  {
    ghost var coming := src.data[src.pos..];
    hide CutNet, Respond, Behaviour.Plausible;
    var hello := new byte[5];
    var got := src.ReadExact(hello, 0);
    if got.Err? {
      return [], false;
    }
    assert hello[..] == coming[..5];
    if hello[..4] != MAGIC || hello[4] != VERSION {
      return [1], false;
    }
    assert hello[..] == MAGIC + [VERSION] && src.data[src.pos..] == coming[5..];
    out, good := ServeRequests(src, cable);
    assert ([0] + out)[1..] == out;
    out := [0] + out;
  }

  // ---- whole sessions -------------------------------------------------------

  function Calls(ops: seq<Op>): seq<Op> {
    seq(|ops|, i requires 0 <= i < |ops| => Carried(ops[i]))
  }

  /** The requests of a sequence of primitives, on the wire. */
  function Requests(ops: seq<Op>): Bytes
    requires forall op :: op in ops ==> |RequestOf(op)| <= NET_MAX_FRAME
  {
    if ops == [] then [] else Wire(RequestOf(ops[0])) + Requests(ops[1..])
  }

  /** The primitives executed on the cable itself. */
  function Direct(b: Behaviour, done: seq<Op>, ops: seq<Op>): seq<Outcome>
    decreases ops
  {
    if ops == [] then [] else [b.answer(done, Carried(ops[0]))] + Direct(b, done + [Carried(ops[0])], ops[1..])
  }

  function Responses(b: Behaviour, done: seq<Op>, ops: seq<Op>): Bytes
    requires forall d: seq<Op>, op: Op :: |ResponseOf(b.answer(d, op))| <= NET_MAX_FRAME
    decreases ops
  {
    if ops == [] then []
    else
      var call := Carried(ops[0]);
      Wire(ResponseOf(b.answer(done, call))) + Responses(b, done + [call], ops[1..])
  }

  /** What a caller is told who reads one response for each primitive. */
  function ToldAll(ops: seq<Op>, stream: Bytes): Option<seq<Outcome>> {
    if ops == [] then Some([])
    else
      var c := CutNet(stream);
      var later := if c.NetFrame? then ToldAll(ops[1..], stream[4 + |c.body|..]) else None;
      if later.None? then None else Some([Told(ops[0], c.body)] + later.value)
  }

  lemma CallsCons(ops: seq<Op>)
    requires ops != []
    ensures Calls(ops) == [Carried(ops[0])] + Calls(ops[1..])
  {
  }

  /** The bridge does what was asked, in the order it was asked, and nothing else. */
  lemma {:induction false} ServesInOrder(b: Behaviour, done: seq<Op>, ops: seq<Op>)
    requires b.Plausible()
    requires forall op :: op in ops ==> |RequestOf(op)| <= NET_MAX_FRAME
    ensures Serve(b, done, Requests(ops)) == Service(Calls(ops), Responses(b, done, ops), true)
    decreases ops
  {
    if ops != [] {
      var op, rest := ops[0], Requests(ops[1..]);
      var call := Carried(op);
      assert op in ops;
      RequestDecodes(op);
      WireRoundTrip(RequestOf(op), rest);
      ServesInOrder(b, done + [call], ops[1..]);
      CallsCons(ops);
      hide CutNet, Wire, Decoded, Carried, RequestOf, ResponseOf, Calls;
    }
  }

  /** Whoever reads the bridge's responses is told what the cable itself would have said. */
  lemma {:induction false} ToldTheTruth(b: Behaviour, done: seq<Op>, ops: seq<Op>)
    requires b.Plausible()
    ensures ToldAll(ops, Responses(b, done, ops)) == Some(Direct(b, done, ops))
    decreases ops
  {
    if ops != [] {
      var op := ops[0];
      var call := Carried(op);
      var o := b.answer(done, call);
      WireRoundTrip(ResponseOf(o), Responses(b, done + [call], ops[1..]));
      ResponseTells(op, o);
      ToldTheTruth(b, done + [call], ops[1..]);
      hide CutNet, Wire, Told, Carried, ResponseOf;
    }
  }

  /** The proxy is transparent: same calls in the same order, and the same outcomes as on the cable itself. */
  lemma ProxyIsTransparent(b: Behaviour, ops: seq<Op>)
    requires b.Plausible()
    requires forall op :: op in ops ==> |RequestOf(op)| <= NET_MAX_FRAME
    ensures var s := Serve(b, [], Requests(ops));
            && s.good && s.calls == Calls(ops) && ToldAll(ops, s.out) == Some(Direct(b, [], ops))
  {
    ServesInOrder(b, [], ops);
    hide *;
    ToldTheTruth(b, [], ops);
  }

  /** Only reads of more than 64 KB are changed on the way, and absurd waits. */
  lemma CarriedWhole(ops: seq<Op>)
    requires forall op :: op in ops && op.Read? ==> op.cap <= 0x1_0000 && op.micros <= 0xffff_ffff_ffff_ffff
    ensures Calls(ops) == ops
  {
    forall i | 0 <= i < |ops| ensures Calls(ops)[i] == ops[i] {
      assert ops[i] in ops;
    }
  }

  // ---- the client -----------------------------------------------------------

  /** Frames on the wire, one behind the other. */
  function Wires(frames: seq<Bytes>): Bytes
    requires forall f :: f in frames ==> |f| < 0x1_0000_0000
  {
    if frames == [] then [] else Wires(frames[..|frames| - 1]) + Wire(frames[|frames| - 1])
  }

  lemma WiresNext(frames: seq<Bytes>, f: Bytes)
    requires forall g :: g in frames + [f] ==> |g| < 0x1_0000_0000
    ensures forall g :: g in frames ==> |g| < 0x1_0000_0000
    ensures Wires(frames + [f]) == Wires(frames) + Wire(f)
  {
    assert forall g :: g in frames ==> g in frames + [f];
    assert (frames + [f])[..|frames|] == frames;
  }

  /** The bytes of a frame that was cut off are that frame on the wire. */
  lemma CutIsWire(buf: Bytes)
    requires CutNet(buf).NetFrame?
    ensures var body := CutNet(buf).body;
            |body| <= NET_MAX_FRAME && 4 + |body| <= |buf| && buf[..4 + |body|] == Wire(body)
  {
    RdU32Inverse(buf);
    hide U32, RdU32;
    var len: nat := RdU32(buf);
    assert buf[..4 + len] == buf[..4] + buf[4..4 + len];
  }

  lemma OneMoreFrame(data: Bytes, start: nat, from: nat, to: nat, wire: Bytes)
    requires start <= from <= to <= |data| && to == from + |wire| && data[from..][..|wire|] == wire
    ensures data[start..to] == data[start..from] + wire
  {
    assert data[from..to] == wire;
  }

  class TcpTransport {
    /** What the bridge sends, and what was sent to it. */
    const stream: Source
    ghost const start: nat
    var sent: Bytes
    /** The requests sent, the responses read, and how many of the requests got none in time. */
    ghost var asked: seq<Bytes>
    ghost var told: seq<Bytes>
    ghost var missed: nat
    /** Whether every response that was missed was missed as a whole. */
    ghost var aligned: bool

    ghost predicate Valid()
      reads this, stream
    {
      && stream.Valid() && start <= stream.pos && |told| + missed == |asked|
      && (forall f :: f in asked ==> |f| < 0x1_0000_0000) && sent == Wires(asked)
      && (forall f :: f in told ==> |f| <= NET_MAX_FRAME)
      && (aligned ==> stream.data[start..stream.pos] == Wires(told))
    }

    constructor (stream: Source)
      requires stream.Valid()
      ensures Valid() && this.stream == stream && sent == [] && start == stream.pos
      ensures asked == told == [] && missed == 0 && aligned
    {
      this.stream, this.sent, start := stream, [], stream.pos;
      asked, told, missed, aligned := [], [], 0, true;
    }

    /**
     One request and its response, which is a frame of the stream or none at all. Nothing
     says whose response it is: a request whose response is missed leaves it to the next one.
     */
    method Transact(body: Bytes) returns (r: Result<Bytes, Bytes>)
      requires Valid()
      modifies this, stream`pos
      ensures Valid()
      ensures if |body| < 0x1_0000_0000 then sent == old(sent) + Wire(body) && asked == old(asked) + [body]
              else sent == old(sent) && asked == old(asked) && r.Err? && stream.pos == old(stream.pos)
      ensures if r.Ok? then told == old(told) + [r.value] && missed == old(missed) && aligned == old(aligned)
              else
                && told == old(told)
                && missed == old(missed) + (if |body| < 0x1_0000_0000 then 1 else 0)
                && aligned == (old(aligned) && stream.pos == old(stream.pos))
      ensures r.Ok? ==> CutNet(old(stream.data[stream.pos..])) == NetFrame(r.value)
      ensures r.Ok? ==> stream.pos == old(stream.pos) + 4 + |r.value|
      ensures r.Err? && stream.prompt && |body| < 0x1_0000_0000 ==> !CutNet(old(stream.data[stream.pos..])).NetFrame?
    {
      hide Wire, CutNet, Wires, Text;
      if |body| >= 0x1_0000_0000 {
        return Err(Text("frame body too large"));
      }
      ghost var from, before := stream.pos, told;
      WiresNext(asked, body);
      sent, asked := sent + Wire(body), asked + [body];
      var resp := ReadNetFrame(stream);
      if resp.Err? {
        missed, aligned := missed + 1, aligned && stream.pos == from;
        return Err(Text("bridge lost"));
      }
      CutIsWire(stream.data[from..]);
      WiresNext(told, resp.value);
      OneMoreFrame(stream.data, start, from, stream.pos, Wire(resp.value));
      told := told + [resp.value];
      return Ok(resp.value);
    }

    /** A primitive that carries nothing back but success or failure. */
    method Command(op: Op) returns (o: Outcome)
      requires Valid() && !op.Read? && !op.OptimizeLatency?
      modifies this, stream`pos
      ensures Valid()
      ensures |RequestOf(op)| < 0x1_0000_0000 ==> sent == old(sent) + Wire(RequestOf(op))
      ensures var next := CutNet(old(stream.data[stream.pos..]));
              if next.NetFrame? && stream.prompt && |RequestOf(op)| < 0x1_0000_0000 then o == Told(op, next.body)
              else o.Fail? || (next.NetFrame? && o == Told(op, next.body))
    {
      hide CutNet, RequestOf;
      var resp := Transact(RequestOf(op));
      if resp.Err? {
        return Fail(resp.error);
      }
      var payload := OkPayload(resp.value);
      return if payload.Ok? then Done else Fail(payload.error);
    }

    /** The bytes read land at the front of the caller's buffer; the rest of it stays as it was. */
    method ReadInto(buf: array<byte>, micros: nat) returns (r: Result<nat, Bytes>)
      requires Valid()
      modifies this, stream`pos, buf
      ensures Valid() && sent == old(sent) + Wire(RequestOf(Read(buf.Length, micros)))
      ensures r.Ok? ==>
                && r.value <= buf.Length && buf[r.value..] == old(buf[..])[r.value..]
                && CutNet(old(stream.data[stream.pos..])).NetFrame?
                && Told(Read(buf.Length, micros), CutNet(old(stream.data[stream.pos..])).body) == Got(buf[..r.value])
      ensures r.Err? ==>
                && buf[..] == old(buf[..])
                && var next := CutNet(old(stream.data[stream.pos..]));
                   next.NetFrame? && stream.prompt ==> Told(Read(buf.Length, micros), next.body) == Fail(r.error)
    {
      hide CutNet, Wire, U32, U64;
      ghost var was := buf[..];
      var resp := Transact(RequestOf(Read(buf.Length, micros)));
      if resp.Err? {
        return Err(resp.error);
      }
      var payload := OkPayload(resp.value);
      hide OkPayload;
      if payload.Err? {
        return Err(payload.error);
      }
      var n := Min(|payload.value|, buf.Length);
      forall i | 0 <= i < n {
        buf[i] := payload.value[i];
      }
      assert buf[..n] == payload.value[..n] && buf[n..] == was[n..];
      return Ok(n);
    }

    /** The latency fix reports a lost bridge as a failed fix. */
    method OptimizeLatencyTimer() returns (l: LatencyResult)
      requires Valid()
      modifies this, stream`pos
      ensures Valid() && sent == old(sent) + Wire(RequestOf(OptimizeLatency))
      ensures var next := CutNet(old(stream.data[stream.pos..]));
              if next.NetFrame? && stream.prompt then Latency(l) == Told(OptimizeLatency, next.body)
              else l.Failed? || (next.NetFrame? && Latency(l) == Told(OptimizeLatency, next.body))
    {
      hide CutNet;
      var resp := Transact(RequestOf(OptimizeLatency));
      if resp.Err? {
        return Failed(resp.error);
      }
      var payload := OkPayload(resp.value);
      return if payload.Ok? then DecodeLatency(payload.value) else Failed(payload.error);
    }
  }

  lemma {:induction false} WiresBegin(frames: seq<Bytes>, k: nat)
    requires (forall f :: f in frames ==> |f| < 0x1_0000_0000) && k <= |frames|
    ensures forall f :: f in frames[..k] ==> |f| < 0x1_0000_0000
    ensures Wires(frames[..k]) <= Wires(frames)
    decreases |frames|
  {
    hide Wire;
    if k == |frames| {
      assert frames[..k] == frames;
    } else {
      var init := frames[..|frames| - 1];
      assert init[..k] == frames[..k];
      WiresBegin(init, k);
    }
  }

  lemma FrameThere(f: Bytes, done: Bytes, stream: Bytes)
    requires |f| <= NET_MAX_FRAME && done + Wire(f) <= stream
    ensures CutNet(stream[|done|..]) == NetFrame(f)
  {
    var rest := stream[|done| + |Wire(f)|..];
    WireRoundTrip(f, rest);
    hide Wire, CutNet;
    assert stream[|done|..] == Wire(f) + rest;
  }

  /** Two lists of frames that begin the same bytes agree as far as both go. */
  lemma {:induction false} SameFrames(a: seq<Bytes>, b: seq<Bytes>, stream: Bytes)
    requires (forall f :: f in a ==> |f| <= NET_MAX_FRAME) && (forall f :: f in b ==> |f| <= NET_MAX_FRAME)
    requires |a| <= |b| && Wires(a) <= stream && Wires(b) <= stream
    ensures a == b[..|a|]
    decreases |a|
  {
    hide Wire, CutNet;
    if a != [] {
      var k := |a| - 1;
      WiresBegin(a, k);
      SameFrames(a[..k], b, stream);
      WiresBegin(b, k + 1);
      assert b[..k + 1][..k] == b[..k] == a[..k];
      var done := Wires(a[..k]);
      FrameThere(a[k], done, stream);
      FrameThere(b[k], done, stream);
      assert a == a[..k] + [a[k]];
    }
  }

  lemma ToldInOrder(data: Bytes, start: nat, pos: nat, told: seq<Bytes>, responses: seq<Bytes>)
    requires start <= pos <= |data| && |told| <= |responses|
    requires forall f :: f in told ==> |f| <= NET_MAX_FRAME
    requires forall f :: f in responses ==> |f| <= NET_MAX_FRAME
    requires data[start..pos] == Wires(told) && Wires(responses) <= data[start..]
    ensures told == responses[..|told|]
  {
    hide Wires;
    assert data[start..][..pos - start] == data[start..pos];
    SameFrames(told, responses, data[start..]);
  }

  /**
   Whose outcome a caller is told, on a stream that answers the requests in order: the k-th
   response read is the answer to the k-th request, so the last caller was told its own outcome
   if and only if no response was missed before; afterwards every caller is told the outcome of
   a primitive as many requests ago as were missed.
   */
  lemma OwnOutcomeExactly(t: TcpTransport, responses: seq<Bytes>)
    requires t.Valid() && t.aligned && t.told != []
    requires |responses| >= |t.asked| && forall f :: f in responses ==> |f| <= NET_MAX_FRAME
    requires Wires(responses) <= t.stream.data[t.start..]
    ensures t.told[|t.told| - 1] == responses[|t.asked| - 1 - t.missed] && t.told == responses[..|t.told|]
    ensures |t.told| - 1 == |t.asked| - 1 <==> t.missed == 0
  {
    hide Wires;
    ToldInOrder(t.stream.data, t.start, t.stream.pos, t.told, responses);
  }
}
