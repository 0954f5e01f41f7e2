/**
 Inner commands and replies: a 16-bit count of the bytes that follow it, an opcode, and
 the arguments. Nearly every argument list opens with the protocol number; the rest are
 32-bit words and, for some commands, bytes whose number only the count tells.
 */
module Inner {
  import opened Prelude
  import opened Codec

  datatype Proto = J1850Vpw | J1850Pwm | Iso9141 | Iso14230 | Can | Iso15765 {
    function Wire(): u32 {
      match this
      case J1850Vpw => 1
      case J1850Pwm => 2
      case Iso9141 => 3
      case Iso14230 => 4
      case Can => 5
      case Iso15765 => 6
    }

    predicate IsCan() {
      Can? || Iso15765?
    }
  }

  /** Conversion of a caller's number; the vendor alias is accepted inbound only. */
  function ProtoOf(w: u32): Option<Proto> {
    if w == 1 then Some(J1850Vpw)
    else if w == 2 then Some(J1850Pwm)
    else if w == 3 then Some(Iso9141)
    else if w == 4 then Some(Iso14230)
    else if w == 5 then Some(Can)
    else if w == 6 || w == 0x1000_0001 then Some(Iso15765)
    else None
  }

  // ---- 32-bit words ---------------------------------------------------------

  function U32(w: u32): (s: Bytes)
    ensures |s| == 4
  {
    U16(w % 0x10000) + U16(w / 0x10000)
  }

  function RdU32(s: Bytes): u32
    requires |s| >= 4
  {
    RdU16(s) + 0x10000 * RdU16(s[2..])
  }

  lemma U32RoundTrip(w: u32, rest: Bytes)
    ensures RdU32(U32(w) + rest) == w
  {
    var lo, hi := U16(w % 0x10000), U16(w / 0x10000);
    U16RoundTrip(w % 0x10000, hi + rest);
    U16RoundTrip(w / 0x10000, rest);
    hide U16, RdU16;
    assert U32(w) + rest == lo + (hi + rest);
    assert (U32(w) + rest)[2..] == hi + rest;
  }

  lemma RdU32Inverse(s: Bytes)
    requires |s| >= 4
    ensures U32(RdU32(s)) == s[..4]
  {
    RdInverse(s);
    RdInverse(s[2..]);
    var lo, hi := RdU16(s), RdU16(s[2..]);
    assert (lo + 0x10000 * hi) % 0x10000 == lo && (lo + 0x10000 * hi) / 0x10000 == hi;
    hide U16, RdU16;
    assert s[..4] == s[..2] + s[2..][..2];
  }

  function Words(ws: seq<u32>): (s: Bytes)
    ensures |s| == 4 * |ws|
  {
    if ws == [] then [] else U32(ws[0]) + Words(ws[1..])
  }

  function RdWords(s: Bytes, n: nat): (ws: seq<u32>)
    requires |s| >= 4 * n
    ensures |ws| == n
  {
    if n == 0 then [] else [RdU32(s)] + RdWords(s[4..], n - 1)
  }

  lemma {:induction false} WordsRoundTrip(ws: seq<u32>, rest: Bytes)
    ensures RdWords(Words(ws) + rest, |ws|) == ws
  {
    if ws != [] {
      WordsRoundTrip(ws[1..], rest);
      U32RoundTrip(ws[0], Words(ws[1..]) + rest);
      hide U32, RdU32;
      Assoc(U32(ws[0]), Words(ws[1..]), rest);
      assert (Words(ws) + rest)[4..] == Words(ws[1..]) + rest;
    }
  }

  // ---- commands -------------------------------------------------------------

  const OPEN: byte := 0x01

  const CLOSE_SESSION: byte := 0x02

  const CONNECT: byte := 0x07

  const DISCONNECT: byte := 0x08

  const READ_MSG: byte := 0x09

  const WRITE_MSG: byte := 0x0a

  const START_FILTER: byte := 0x0b

  const IOCTL: byte := 0x0e

  datatype Command =
    | Identify
    | ReadVersion
    | Connect(proto: Proto, flags: u32, baud: u32)
    | Disconnect(proto: Proto)
    | SessionClose
    | ReadPoll(proto: Proto)
    | WriteMsg(proto: Proto, txflags: u32, msg: Bytes)
    | StartFilter(proto: Proto, id: u32, ftype: u32, mask: Bytes, pattern: Bytes, flow: Option<Bytes>, idlen: nat)
    | SetProgrammingVoltage(pin: u32, millivolts: u32)
    | StopFilter(proto: Proto, id: u32)
    | StartPeriodic(proto: Proto, id: u32, txflags: u32, interval: u32, msg: Bytes)
    | StopPeriodic(proto: Proto, id: u32)
    | SetConfig(proto: Proto, param: u32, value: u32)
    | GetConfig(proto: Proto, param: u32)
    | ReadVbatt(proto: Proto)
    | FiveBaudInit(proto: Proto, init: Bytes)
    | FastInit(proto: Proto, init: Bytes)
    | ClearRx(proto: Proto)
    | ClearPeriodic(proto: Proto)

  /** What a builder writes: opcode, sub-opcode of an ioctl, words, bytes, and zeros beyond the count. */
  datatype Layout = Layout(op: byte, sub: Bytes, words: seq<u32>, tail: Bytes, slack: nat)

  function Refusal(cmd: Command): Option<CodecError> {
    match cmd
    case WriteMsg(_, _, msg) => if |msg| > MAX_MSG then Some(MsgTooLong(|msg|)) else None
    case StartPeriodic(_, _, _, _, msg) => if |msg| >= 13 then Some(MsgTooLong(|msg|)) else None
    case StartFilter(proto, _, _, mask, pattern, flow, idlen) =>
      if !(idlen == 1 || idlen == 4 || idlen == 5) || (proto.IsCan() && idlen == 1) then Some(BadIdLen(idlen))
      else if |mask| < idlen then Some(FilterFieldTooShort(|mask|, idlen))
      else if |pattern| < idlen then Some(FilterFieldTooShort(|pattern|, idlen))
      else if flow.Some? && |flow.value| < idlen then Some(FilterFieldTooShort(|flow.value|, idlen))
      else None
    case _ => None
  }

  function FlowField(flow: Option<Bytes>, idlen: nat): Bytes
    requires flow.Some? ==> |flow.value| >= idlen
  {
    if flow.Some? then flow.value[..idlen] else Resize([], idlen, 0)
  }

  /** "MVCI-T". */
  const IDENT: Bytes := [0x4d, 0x56, 0x43, 0x49, 0x2d, 0x54]

  function LayoutOf(cmd: Command): Layout
    requires Refusal(cmd).None?
  {
    match cmd
    case Identify => Layout(OPEN, [], [], IDENT, 0)
    case ReadVersion => Layout(0x03, [], [], [], 0)
    case Connect(p, flags, baud) => Layout(CONNECT, [], [p.Wire(), flags, baud], [], 0)
    case Disconnect(p) => Layout(DISCONNECT, [], [p.Wire()], [], 1)
    case SessionClose => Layout(CLOSE_SESSION, [], [], [], 5)
    case ReadPoll(p) => Layout(READ_MSG, [], [p.Wire()], [], 1)
    case WriteMsg(p, txflags, msg) => Layout(WRITE_MSG, [], [p.Wire(), txflags], msg, 0)
    case StartFilter(p, id, ftype, mask, pattern, flow, n) =>
      Layout(START_FILTER, [], [p.Wire(), id, ftype], mask[..n] + pattern[..n] + FlowField(flow, n), 0)
    case SetProgrammingVoltage(pin, mv) => Layout(0x0d, [], [pin, mv], [], 0)
    case StopFilter(p, id) => Layout(0x0c, [], [p.Wire(), id, 0], [], 0)
    case StartPeriodic(p, id, txflags, interval, msg) => Layout(0x0f, [], [p.Wire(), id, txflags, interval], msg, 0)
    case StopPeriodic(p, id) => Layout(0x10, [], [p.Wire(), id, 0], [], 0)
    case SetConfig(p, param, value) => Layout(IOCTL, [0x02], [p.Wire(), param, value], [], 0)
    case GetConfig(p, param) => Layout(IOCTL, [0x01], [p.Wire(), param], [], 0)
    case ReadVbatt(p) => Layout(IOCTL, [0x03], [p.Wire()], [], 0)
    case FiveBaudInit(p, init) => Layout(IOCTL, [0x04], [p.Wire()], init, 0)
    case FastInit(p, init) => Layout(IOCTL, [0x05], [p.Wire()], init, 0)
    case ClearRx(p) => Layout(IOCTL, [0x08], [p.Wire()], [], 0)
    case ClearPeriodic(p) => Layout(IOCTL, [0x09], [p.Wire()], [], 0)
  }

  /** Opcode and arguments: what the count counts. */
  function Body(l: Layout): (s: Bytes)
    ensures |s| == 1 + |l.sub| + 4 * |l.words| + |l.tail|
  {
    [l.op] + l.sub + Words(l.words) + l.tail
  }

  function Build(cmd: Command): Result<Bytes, CodecError> {
    var no := Refusal(cmd);
    if no.Some? then Err(no.value)
    else
      var l := LayoutOf(cmd);
      Ok(U16(|Body(l)|) + Body(l) + Resize([], l.slack, 0))
  }

  /** What is refused, and nothing else: too long a message, no such width, a field shorter than the width. */
  lemma RefusedExactly(cmd: Command)
    ensures Build(cmd).Err?
            <==> match cmd
                 case WriteMsg(_, _, msg) => |msg| > 4100
                 case StartPeriodic(_, _, _, _, msg) => |msg| > 12
                 case StartFilter(p, _, _, mask, pattern, flow, n) =>
                   || n !in {1, 4, 5} || (n == 1 && (p == Can || p == Iso15765))
                   || |mask| < n || |pattern| < n || (flow.Some? && |flow.value| < n)
                 case _ => false
  {
  }

  // ---- commands by their bytes ----------------------------------------------

  /** The six protocols by their numbers, and what is taken for one. */
  lemma ProtoNumbers(p: Proto, w: u32)
    ensures ProtoOf(w) == Some(p) <==> w == p.Wire() || (w == 0x1000_0001 && p == Iso15765)
    ensures forall i :: 0 <= i < 6 ==> [J1850Vpw, J1850Pwm, Iso9141, Iso14230, Can, Iso15765][i].Wire() == i + 1
  {
  }

  /** Numbers stand low byte first. */
  lemma LowByteFirst(n: nat, w: u32)
    requires n < 0x10000
    ensures var s := U16(n); s[0] as int + 0x100 * s[1] as int == n
    ensures var s := U32(w);
            s[0] as int + 0x100 * s[1] as int + 0x10000 * s[2] as int + 0x100_0000 * s[3] as int == w
  {
    RdInverse(U16(n));
    U16RoundTrip(n, []);
    Unit(U16(n));
    U32RoundTrip(w, []);
    Unit(U32(w));
    hide U16;
  }

  lemma WordsOne(a: u32)
    ensures Words([a]) == U32(a)
  {
    assert [a][1..] == [];
    Unit(U32(a));
    hide U32;
  }

  lemma WordsMore(a: u32, more: seq<u32>)
    ensures Words([a] + more) == U32(a) + Words(more)
  {
    assert ([a] + more)[1..] == more;
    hide U32;
  }

  lemma WordsSome(a: u32, b: u32, c: u32, d: u32)
    ensures Words([a]) == U32(a)
    ensures Words([a, b]) == U32(a) + U32(b)
    ensures Words([a, b, c]) == U32(a) + U32(b) + U32(c)
    ensures Words([a, b, c, d]) == U32(a) + U32(b) + U32(c) + U32(d)
  {
    hide Words, U32;
    WordsOne(a);
    WordsOne(b);
    WordsOne(c);
    WordsOne(d);
    WordsMore(a, [b]);
    WordsMore(a, [b, c]);
    WordsMore(a, [b, c, d]);
    WordsMore(b, [c]);
    WordsMore(b, [c, d]);
    WordsMore(c, [d]);
    assert [a, b] == [a] + [b] && [a, b, c] == [a] + [b, c] && [a, b, c, d] == [a] + [b, c, d];
    assert [b, c] == [b] + [c] && [b, c, d] == [b] + [c, d] && [c, d] == [c] + [d];
  }

  lemma BuildBytes(cmd: Command, head: Bytes, words: Bytes, tail: Bytes)
    requires Refusal(cmd).None?
    requires var l := LayoutOf(cmd);
             && head == U16(1 + |l.sub| + 4 * |l.words| + |l.tail|) + [l.op] + l.sub
             && words == Words(l.words) && tail == l.tail + Resize([], l.slack, 0)
    ensures Build(cmd) == Ok(head + words + tail)
  {
    hide U16, Words, LayoutOf, Refusal;
    var l := LayoutOf(cmd);
    var len := U16(1 + |l.sub| + 4 * |l.words| + |l.tail|);
    assert len + ([l.op] + l.sub + Words(l.words) + l.tail) + Resize([], l.slack, 0)
        == len + [l.op] + l.sub + Words(l.words) + (l.tail + Resize([], l.slack, 0));
  }

  lemma SmallCount(n: nat)
    requires n < 0x100
    ensures U16(n) == [n, 0]
  {
  }

  lemma SmallWord(n: nat)
    requires n < 0x100
    ensures U32(n) == [n, 0, 0, 0]
  {
    SmallCount(n);
    SmallCount(0);
    hide U16;
  }

  lemma NoWords()
    ensures Words([]) == []
  {
  }

  /** The commands of the session itself: count, opcode, arguments, and the zeros the vendor appends. */
  lemma SessionBytes(p: Proto, flags: u32, baud: u32)
    ensures Build(Identify) == Ok([7, 0, 0x01] + [] + [0x4d, 0x56, 0x43, 0x49, 0x2d, 0x54])
    ensures Build(ReadVersion) == Ok([1, 0, 0x03] + [] + [])
    ensures Build(SessionClose) == Ok([1, 0, 0x02] + [] + [0, 0, 0, 0, 0])
    ensures Build(Connect(p, flags, baud)) == Ok([13, 0, 0x07] + (U32(p.Wire()) + U32(flags) + U32(baud)) + [])
    ensures Build(Disconnect(p)) == Ok([5, 0, 0x08] + U32(p.Wire()) + [0])
    ensures Build(ReadPoll(p)) == Ok([5, 0, 0x09] + U32(p.Wire()) + [0])
  {
    hide Proto.Wire, U32, Words, Build, U16;
    SmallCount(1);
    SmallCount(5);
    SmallCount(7);
    SmallCount(13);
    WordsSome(p.Wire(), flags, baud, 0);
    NoWords();
    BuildBytes(Identify, [7, 0, 0x01], [], [0x4d, 0x56, 0x43, 0x49, 0x2d, 0x54]);
    BuildBytes(ReadVersion, [1, 0, 0x03], [], []);
    BuildBytes(SessionClose, [1, 0, 0x02], [], [0, 0, 0, 0, 0]);
    BuildBytes(Connect(p, flags, baud), [13, 0, 0x07], U32(p.Wire()) + U32(flags) + U32(baud), []);
    BuildBytes(Disconnect(p), [5, 0, 0x08], U32(p.Wire()), [0]);
    BuildBytes(ReadPoll(p), [5, 0, 0x09], U32(p.Wire()), [0]);
  }

  /** The commands that carry a message. */
  lemma MessageBytes(p: Proto, x: u32, y: u32, z: u32, msg: Bytes)
    ensures |msg| <= MAX_MSG ==>
              Build(WriteMsg(p, x, msg)) == Ok(U16(9 + |msg|) + [0x0a] + (U32(p.Wire()) + U32(x)) + msg)
    ensures |msg| <= 12 ==>
              Build(StartPeriodic(p, x, y, z, msg))
              == Ok([17 + |msg|, 0, 0x0f] + (U32(p.Wire()) + U32(x) + U32(y) + U32(z)) + msg)
  {
    hide Proto.Wire, U32, Words, Build;
    WordsSome(p.Wire(), x, y, z);
    Unit(msg);
    if |msg| <= MAX_MSG {
      BuildBytes(WriteMsg(p, x, msg), U16(9 + |msg|) + [0x0a], U32(p.Wire()) + U32(x), msg);
    }
    if |msg| <= 12 {
      var words := U32(p.Wire()) + U32(x) + U32(y) + U32(z);
      BuildBytes(StartPeriodic(p, x, y, z, msg), [17 + |msg|, 0, 0x0f], words, msg);
    }
  }

  /** The commands that take a filter or a periodic message back. */
  lemma StopBytes(p: Proto, id: u32)
    ensures Build(StopPeriodic(p, id)) == Ok([13, 0, 0x10] + (U32(p.Wire()) + U32(id) + U32(0)) + [])
    ensures Build(StopFilter(p, id)) == Ok([13, 0, 0x0c] + (U32(p.Wire()) + U32(id) + U32(0)) + [])
  {
    hide Proto.Wire, U32, Words, Build, U16;
    SmallCount(13);
    WordsSome(p.Wire(), id, 0, 0);
    BuildBytes(StopPeriodic(p, id), [13, 0, 0x10], U32(p.Wire()) + U32(id) + U32(0), []);
    BuildBytes(StopFilter(p, id), [13, 0, 0x0c], U32(p.Wire()) + U32(id) + U32(0), []);
  }

  /** A filter: its three fields cut to the width, and a missing one all zero. */
  lemma FilterBytes(p: Proto, id: u32, ftype: u32, mask: Bytes, pattern: Bytes, flow: Option<Bytes>, n: nat)
    requires (n == 4 || n == 5 || (n == 1 && p != Can && p != Iso15765)) && |mask| >= n && |pattern| >= n
    requires flow.Some? ==> |flow.value| >= n
    ensures var last := match flow case Some(f) => f[..n] case None => [0, 0, 0, 0, 0][..n];
            Build(StartFilter(p, id, ftype, mask, pattern, flow, n))
            == Ok([13 + 3 * n, 0, 0x0b] + (U32(p.Wire()) + U32(id) + U32(ftype)) + (mask[..n] + pattern[..n] + last))
  {
    hide Proto.Wire, Words, U32, Build, U16;
    SmallCount(13 + 3 * n);
    WordsSome(p.Wire(), id, ftype, 0);
    var last := match flow case Some(f) => f[..n] case None => [0, 0, 0, 0, 0][..n];
    assert last == FlowField(flow, n);
    Unit(mask[..n] + pattern[..n] + last);
    BuildBytes(StartFilter(p, id, ftype, mask, pattern, flow, n), [13 + 3 * n, 0, 0x0b],
               U32(p.Wire()) + U32(id) + U32(ftype), mask[..n] + pattern[..n] + last);
  }

  /** The settings. */
  lemma SettingBytes(p: Proto, x: u32, y: u32)
    ensures Build(SetConfig(p, x, y)) == Ok([14, 0, 0x0e, 0x02] + (U32(p.Wire()) + U32(x) + U32(y)) + [])
    ensures Build(GetConfig(p, x)) == Ok([10, 0, 0x0e, 0x01] + (U32(p.Wire()) + U32(x)) + [])
    ensures Build(SetProgrammingVoltage(x, y)) == Ok([9, 0, 0x0d] + (U32(x) + U32(y)) + [])
  {
    hide Proto.Wire, Words, U32, Build, U16;
    SmallCount(9);
    SmallCount(10);
    SmallCount(14);
    WordsSome(p.Wire(), x, y, 0);
    WordsSome(x, y, 0, 0);
    BuildBytes(SetConfig(p, x, y), [14, 0, 0x0e, 0x02], U32(p.Wire()) + U32(x) + U32(y), []);
    BuildBytes(GetConfig(p, x), [10, 0, 0x0e, 0x01], U32(p.Wire()) + U32(x), []);
    BuildBytes(SetProgrammingVoltage(x, y), [9, 0, 0x0d], U32(x) + U32(y), []);
  }

  /** The ioctls without arguments of their own. */
  lemma ChannelBytes(p: Proto, cmd: Command)
    requires cmd == ReadVbatt(p) || cmd == ClearRx(p) || cmd == ClearPeriodic(p)
    ensures var sub := if cmd.ReadVbatt? then 0x03 else if cmd.ClearRx? then 0x08 else 0x09;
            Build(cmd) == Ok([6, 0, 0x0e, sub] + U32(p.Wire()) + [])
  {
    hide Proto.Wire, Words, U32, Build, U16;
    SmallCount(6);
    WordsSome(p.Wire(), 0, 0, 0);
    BuildBytes(cmd, [6, 0, 0x0e, if cmd.ReadVbatt? then 0x03 else if cmd.ClearRx? then 0x08 else 0x09],
               U32(p.Wire()), []);
  }

  /** The two ways to wake a K-line ECU. */
  lemma InitBytes(p: Proto, init: Bytes)
    ensures Build(FiveBaudInit(p, init)) == Ok(U16(6 + |init|) + [0x0e, 0x04] + U32(p.Wire()) + init)
    ensures Build(FastInit(p, init)) == Ok(U16(6 + |init|) + [0x0e, 0x05] + U32(p.Wire()) + init)
  {
    hide Proto.Wire, Words, U32, Build, U16;
    WordsSome(p.Wire(), 0, 0, 0);
    Unit(init);
    BuildBytes(FiveBaudInit(p, init), U16(6 + |init|) + [0x0e, 0x04], U32(p.Wire()), init);
    BuildBytes(FastInit(p, init), U16(6 + |init|) + [0x0e, 0x05], U32(p.Wire()), init);
  }

  // ---- the adapter's reading of a command -----------------------------------

  /** How many words follow an opcode; for an ioctl the sub-opcode decides. */
  function WordCount(op: byte, sub: Bytes): nat {
    if op == CONNECT || op == START_FILTER || op == 0x0c || op == 0x10 then 3
    else if op == DISCONNECT || op == READ_MSG then 1
    else if op == WRITE_MSG || op == 0x0d then 2
    else if op == 0x0f then 4
    else if op != IOCTL then 0
    else if sub == [0x02] then 3
    else if sub == [0x01] then 2
    else 1
  }

  function RdLayout(body: Bytes): Option<Layout> {
    if body == [] then None
    else
      var sub := if body[0] == IOCTL && |body| > 1 then [body[1]] else [];
      var rest, n := body[1 + |sub|..], WordCount(body[0], sub);
      if |rest| < 4 * n then None else Some(Layout(body[0], sub, RdWords(rest, n), rest[4 * n..], 0))
  }

  /** The field width of a filter is a third of what follows its three words. */
  function Meaning(l: Layout): Option<Command>
    requires |l.words| == WordCount(l.op, l.sub)
  {
    var p := if |l.words| == 0 then None else ProtoOf(l.words[0]);
    if l.op == OPEN then Some(Identify)
    else if l.op == CLOSE_SESSION then Some(SessionClose)
    else if l.op == 0x03 then Some(ReadVersion)
    else if l.op == 0x0d then Some(SetProgrammingVoltage(l.words[0], l.words[1]))
    else if p.None? then None
    else if l.op == CONNECT then Some(Connect(p.value, l.words[1], l.words[2]))
    else if l.op == DISCONNECT then Some(Disconnect(p.value))
    else if l.op == READ_MSG then Some(ReadPoll(p.value))
    else if l.op == WRITE_MSG then Some(WriteMsg(p.value, l.words[1], l.tail))
    else if l.op == START_FILTER then
      var n := |l.tail| / 3;
      Some(StartFilter(p.value, l.words[1], l.words[2], l.tail[..n], l.tail[n..2 * n], Some(l.tail[2 * n..]), n))
    else if l.op == 0x0c then Some(StopFilter(p.value, l.words[1]))
    else if l.op == 0x0f then Some(StartPeriodic(p.value, l.words[1], l.words[2], l.words[3], l.tail))
    else if l.op == 0x10 then Some(StopPeriodic(p.value, l.words[1]))
    else if l.sub == [0x02] then Some(SetConfig(p.value, l.words[1], l.words[2]))
    else if l.sub == [0x01] then Some(GetConfig(p.value, l.words[1]))
    else if l.sub == [0x03] then Some(ReadVbatt(p.value))
    else if l.sub == [0x04] then Some(FiveBaudInit(p.value, l.tail))
    else if l.sub == [0x05] then Some(FastInit(p.value, l.tail))
    else if l.sub == [0x08] then Some(ClearRx(p.value))
    else if l.sub == [0x09] then Some(ClearPeriodic(p.value))
    else None
  }

  function CountedBody(inner: Bytes): Option<Bytes> {
    if |inner| < 2 || |inner| < 2 + RdU16(inner) then None else Some(inner[2..2 + RdU16(inner)])
  }

  /** The command an adapter reads that goes by the count and not by the number of bytes it got. */
  function Understood(inner: Bytes): Option<Command> {
    var body := CountedBody(inner);
    var l := if body.None? then None else RdLayout(body.value);
    if l.None? then None else Meaning(l.value)
  }

  /** A filter as sent: the fields cut to the width, an absent flow field all zero. */
  function AsSent(cmd: Command): Command
    requires Refusal(cmd).None?
  {
    match cmd
    case StartFilter(p, id, ftype, mask, pattern, flow, n) =>
      StartFilter(p, id, ftype, mask[..n], pattern[..n], Some(FlowField(flow, n)), n)
    case _ => cmd
  }

  lemma BodyParts(op: byte, sub: Bytes, words: Bytes, tail: Bytes)
    requires |sub| <= 1
    ensures var body := [op] + sub + words + tail;
            && body[0] == op && body[1 + |sub|..] == words + tail && (words + tail)[|words|..] == tail
            && (|sub| == 1 ==> |body| > 1 && [body[1]] == sub)
  {
  }

  lemma {:induction false} LayoutReadsBack(l: Layout)
    requires |l.words| == WordCount(l.op, l.sub)
    requires if l.op == IOCTL then |l.sub| == 1 else l.sub == []
    ensures RdLayout(Body(l)) == Some(l.(slack := 0))
  {
    WordsRoundTrip(l.words, l.tail);
    BodyParts(l.op, l.sub, Words(l.words), l.tail);
    hide Words, RdWords, WordCount;
  }

  lemma ThirdsOf(m: Bytes, p: Bytes, f: Bytes)
    requires |m| == |p| == |f|
    ensures var t, n := m + p + f, |m|;
            |t| / 3 == n && t[..n] == m && t[n..2 * n] == p && t[2 * n..] == f
  {
  }

  lemma FilterMeaning(cmd: Command)
    requires cmd.StartFilter? && Refusal(cmd).None?
    ensures Meaning(LayoutOf(cmd).(slack := 0)) == Some(AsSent(cmd))
  {
    ThirdsOf(cmd.mask[..cmd.idlen], cmd.pattern[..cmd.idlen], FlowField(cmd.flow, cmd.idlen));
    hide FlowField;
  }

  lemma ProtosReadBack()
    ensures forall p: Proto :: ProtoOf(p.Wire()) == Some(p)
  {
  }

  lemma MeaningOfLayout(cmd: Command)
    requires Refusal(cmd).None?
    ensures var l := LayoutOf(cmd);
            && |l.words| == WordCount(l.op, l.sub)
            && (if l.op == IOCTL then |l.sub| == 1 else l.sub == [])
            && Meaning(l.(slack := 0)) == Some(AsSent(cmd))
  {
    hide ProtoOf, Proto.Wire;
    ProtosReadBack();
    if cmd.StartFilter? {
      FilterMeaning(cmd);
    }
  }

  lemma CountedPart(len: Bytes, body: Bytes, slack: Bytes, more: Bytes)
    requires |len| == 2
    ensures var s := len + body + slack + more;
            s[2..2 + |body|] == body && s == len + (body + slack + more)
  {
  }

  lemma CountCutsBody(body: Bytes, slack: Bytes, more: Bytes)
    requires |body| < 0x10000
    ensures CountedBody(U16(|body|) + body + slack + more) == Some(body)
  {
    U16RoundTrip(|body|, body + slack + more);
    hide U16, RdU16;
    CountedPart(U16(|body|), body, slack, more);
  }

  /** Every accepted command small enough for its count is understood, whatever follows it. */
  lemma CommandUnderstood(cmd: Command, more: Bytes)
    requires Build(cmd).Ok? && |Build(cmd).value| < 0x10000
    ensures Understood(Build(cmd).value + more) == Some(AsSent(cmd))
  {
    var l := LayoutOf(cmd);
    MeaningOfLayout(cmd);
    LayoutReadsBack(l);
    CountCutsBody(Body(l), Resize([], l.slack, 0), more);
    hide U16, RdU16, Body, Meaning, RdLayout, LayoutOf, Refusal, AsSent, CountedBody;
  }

  /** Only the identify command carries the toggling opcode. */
  lemma OnlyIdentifyOpens(cmd: Command)
    requires Build(cmd).Ok?
    ensures |Build(cmd).value| >= 3 && Build(cmd).value[2] == LayoutOf(cmd).op
    ensures Build(cmd).value[2] == OPEN <==> cmd.Identify?
    ensures Build(cmd).value[2] == CLOSE_SESSION <==> cmd.SessionClose?
    ensures Build(cmd).value[2] == READ_MSG <==> cmd.ReadPoll?
  {
  }

  /** Host to adapter through encryption: any command that the encoder accepts is read back as it was meant. */
  lemma CommandArrives(c: Cipher, key: Bytes, cmd: Command)
    requires c.Lawful() && Build(cmd).Ok? && EncodedEncrypted(c, key, Build(cmd).value).Ok?
    ensures var got := DecodedEncrypted(c, key, EncodedEncrypted(c, key, Build(cmd).value).value);
            got.Ok? && Understood(got.value) == Some(AsSent(cmd))
  {
    var inner := Build(cmd).value;
    OnlyIdentifyOpens(cmd);
    EncryptedRoundTrip(c, key, inner);
    PaddedLenFits(|inner|);
    var padded := Resize(inner, PaddedLen(|inner|), 0);
    assert padded == inner + padded[|inner|..];
    CommandUnderstood(cmd, padded[|inner|..]);
  }

  // ---- replies --------------------------------------------------------------

  /** The status byte of a reply that acknowledges opcode `op`. */
  function StatusOf(inner: Bytes, op: byte): Result<byte, CodecError> {
    if |inner| < 4 || RdU16(inner) != 2 || inner[2] != op then Err(MalformedReply) else Ok(inner[3])
  }

  function ParseChallenge(payload: Bytes): Result<Bytes, CodecError> {
    if |payload| < 11 || payload[0] != 0x09 then Err(MalformedReply) else Ok(payload[3..11])
  }

  /** The key is read out of exactly the payloads of a nine-byte reply that have all of it. */
  lemma ChallengeExactly(payload: Bytes, key: Bytes)
    ensures ParseChallenge(payload) == Ok(key)
            <==> |key| == 8 && exists count: byte, op: byte, more: Bytes :: payload == [9, count, op] + key + more
  {
    if count: byte, op: byte, more: Bytes :| |key| == 8 && payload == [9, count, op] + key + more {
      assert payload[3..11] == key;
    }
    if ParseChallenge(payload) == Ok(key) {
      assert payload == [9, payload[1], payload[2]] + key + payload[11..];
    }
  }

  /** A reply acknowledges with a status exactly if it begins with a count of two, the opcode and the status. */
  lemma StatusExactly(inner: Bytes, op: byte, status: byte)
    ensures StatusOf(inner, op) == Ok(status) <==> [2, 0, op, status] <= inner
  {
    if |inner| >= 4 {
      RdInverse(inner);
    }
  }

  function ParseReadReply(inner: Bytes): Result<RxMsg, CodecError> {
    if |inner| < 4 || inner[2] != READ_MSG then Err(MalformedReply)
    else
      var rxStatus := if |inner| >= 7 then RdU32(inner[3..7]) else inner[3] as u32;
      var mlen := Max(RdU16(inner) - 9, 0);
      if mlen == 0 then Ok(RxMsg(rxStatus, []))
      else if 11 + mlen > |inner| then Err(MalformedReply)
      else Ok(RxMsg(rxStatus, inner[11..11 + mlen]))
  }

  /** A message reply as the adapter lays it out. */
  function MessageReply(rxStatus: u32, reserved: Bytes, msg: Bytes): Bytes {
    U16(9 + |msg|) + [READ_MSG] + U32(rxStatus) + reserved + msg
  }

  lemma MessageReplyParts(rxStatus: u32, reserved: Bytes, msg: Bytes, more: Bytes)
    requires |reserved| == 4
    ensures var s := MessageReply(rxStatus, reserved, msg) + more;
            && |s| == 11 + |msg| + |more| && s[2] == READ_MSG && s[3..7] == U32(rxStatus) && s[7..11] == reserved
            && s[11..11 + |msg|] == msg && s[..2] == U16(9 + |msg|)
  {
    hide U16, U32;
  }

  lemma MessageReplyParses(rxStatus: u32, reserved: Bytes, msg: Bytes, more: Bytes)
    requires |reserved| == 4 && 9 + |msg| < 0x10000
    ensures ParseReadReply(MessageReply(rxStatus, reserved, msg) + more) == Ok(RxMsg(rxStatus, msg))
  {
    MessageReplyParts(rxStatus, reserved, msg, more);
    var s := MessageReply(rxStatus, reserved, msg) + more;
    U16RoundTrip(9 + |msg|, s[2..]);
    assert s == U16(9 + |msg|) + s[2..];
    U32RoundTrip(rxStatus, []);
    Unit(U32(rxStatus));
    hide U16, U32, RdU16, RdU32, MessageReply;
  }

  lemma PartsJoin(s: Bytes, n: nat)
    requires 11 <= n <= |s|
    ensures s == s[..2] + [s[2]] + s[3..7] + s[7..11] + s[11..n] + s[n..]
  {
  }

  /** A non-empty message is read out of exactly the replies that were laid out for it, whatever follows them. */
  lemma ReadReplyExact(inner: Bytes, rxStatus: u32, msg: Bytes)
    requires msg != []
    ensures ParseReadReply(inner) == Ok(RxMsg(rxStatus, msg)) <==>
            9 + |msg| < 0x10000 && exists reserved: Bytes, more: Bytes ::
              |reserved| == 4 && inner == MessageReply(rxStatus, reserved, msg) + more
  {
    if ParseReadReply(inner) == Ok(RxMsg(rxStatus, msg)) {
      var n := 11 + |msg|;
      RdInverse(inner);
      RdU32Inverse(inner[3..7]);
      hide U16, U32, RdU16, RdU32;
      PartsJoin(inner, n);
      assert inner == MessageReply(rxStatus, inner[7..11], msg) + inner[n..];
    }
    if reserved: Bytes, more: Bytes :|
      9 + |msg| < 0x10000 && |reserved| == 4 && inner == MessageReply(rxStatus, reserved, msg) + more
    {
      MessageReplyParses(rxStatus, reserved, msg, more);
    }
  }

  /**
   A reply without a message is one whose count leaves no room for any. What it tells is its status:
   four bytes of it if there are as many, the low one of them otherwise.
   */
  lemma NoMessageExactly(inner: Bytes, rxStatus: u32)
    ensures ParseReadReply(inner) == Ok(RxMsg(rxStatus, []))
            <==> && |inner| >= 4 && inner[2] == 0x09 && inner[0] as int + 0x100 * inner[1] as int <= 9
                 && if |inner| >= 7 then U32(rxStatus) == inner[3..7] else rxStatus == inner[3]
  {
    if |inner| >= 7 {
      RdU32Inverse(inner[3..7]);
      U32RoundTrip(rxStatus, []);
      Unit(U32(rxStatus));
      hide U32, RdU32;
    }
  }

  /** A reply is refused exactly when it answers another command or announces more than it has. */
  lemma ReadReplyRefused(inner: Bytes)
    ensures ParseReadReply(inner).Err?
            <==> || |inner| < 4 || inner[2] != 0x09
                 || (var count := inner[0] as int + 0x100 * inner[1] as int; count > 9 && count + 2 > |inner|)
  {
    hide RdU32;
  }

  /** The plaintext checksum of a frame: its length field and the padded inner command. */
  function XorSumOf(frame: Bytes, padded: Bytes): byte {
    Checksum.XorSum(U16(|frame|) + padded)
  }

  lemma EncryptedFits(c: Cipher, key: Bytes, inner: Bytes)
    requires EncodedEncrypted(c, key, inner).Ok?
    ensures |inner| < 0x10000
  {
    PaddedLenFits(|inner|);
  }

  /** Adapter to host: a message comes out whole under either checksum, and the block padding never reaches it. */
  lemma MessageArrives(c: Cipher, key: Bytes, rxStatus: u32, reserved: Bytes, msg: Bytes, sum: byte)
    requires c.Lawful() && |reserved| == 4 && msg != []
    requires var inner := MessageReply(rxStatus, reserved, msg);
             && EncodedEncrypted(c, key, inner).Ok?
             && (var frame := EncodedEncrypted(c, key, inner).value;
                 sum == frame[|frame| - 1] || sum == XorSumOf(frame, Resize(inner, PaddedLen(|inner|), 0)))
    ensures var frame := EncodedEncrypted(c, key, MessageReply(rxStatus, reserved, msg)).value;
            var got := DecodedEncrypted(c, key, frame[|frame| - 1 := sum]);
            got.Ok? && ParseReadReply(got.value) == Ok(RxMsg(rxStatus, msg))
  {
    hide EncodedEncrypted, DecodedEncrypted, ParseReadReply, Cipher.Lawful, U16, U32, PaddedLen;
    var inner := MessageReply(rxStatus, reserved, msg);
    BothChecksumsAccepted(c, key, inner, sum);
    PaddedLenFits(|inner|);
    EncryptedFits(c, key, inner);
    var padded := Resize(inner, PaddedLen(|inner|), 0);
    assert padded == inner + padded[|inner|..];
    MessageReplyParses(rxStatus, reserved, msg, padded[|inner|..]);
  }

  // ---- sizes ----------------------------------------------------------------

  lemma MessageBlocks(n: nat)
    requires n <= MAX_MSG
    ensures 0 < PaddedLen(11 + n) <= MAX_INNER
    ensures PaddedLen(11 + n) == MAX_INNER <==> n > MAX_MSG - 7
  {
  }

  lemma ShortEncodes(c: Cipher, key: Bytes, inner: Bytes)
    requires PaddedLen(|inner|) <= MAX_INNER
    ensures EncodedEncrypted(c, key, inner).Ok?
  {
  }

  lemma WriteMsgLength(proto: Proto, txflags: u32, msg: Bytes)
    ensures var inner := Build(WriteMsg(proto, txflags, msg));
            (inner.Ok? <==> |msg| <= MAX_MSG) && (inner.Ok? ==> |inner.value| == 11 + |msg|)
  {
    hide U16, Words;
  }

  /** A written message never makes a frame longer than the reader admits, and the longest ones reach it. */
  lemma WriteMsgFrameSize(c: Cipher, key: Bytes, proto: Proto, txflags: u32, msg: Bytes)
    requires c.Lawful()
    ensures var cmd := WriteMsg(proto, txflags, msg);
            && (Build(cmd).Ok? <==> |msg| <= MAX_MSG)
            && (Build(cmd).Ok? ==>
                  && EncodedEncrypted(c, key, Build(cmd).value).Ok?
                  && (var frame := EncodedEncrypted(c, key, Build(cmd).value).value;
                      && 3 < |frame| <= MAX_FRAME
                      && (|frame| == MAX_FRAME <==> |msg| > MAX_MSG - 7)))
  {
    hide EncodedEncrypted, DecodedEncrypted, Build, PaddedLen, Cipher.Lawful;
    WriteMsgLength(proto, txflags, msg);
    var cmd := WriteMsg(proto, txflags, msg);
    if Build(cmd).Ok? {
      MessageBlocks(|msg|);
      ShortEncodes(c, key, Build(cmd).value);
      EncryptedRoundTrip(c, key, Build(cmd).value);
    }
  }

  /** A reply fits the reader's frame limit exactly up to one byte more than the largest written message. */
  lemma LongestReply(rxStatus: u32, reserved: Bytes, msg: Bytes)
    requires |reserved| == 4
    ensures PaddedLen(|MessageReply(rxStatus, reserved, msg)|) + 3 <= MAX_FRAME <==> |msg| <= MAX_MSG + 1
  {
    MessageReplyParts(rxStatus, reserved, msg, []);
  }
}
