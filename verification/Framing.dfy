/**
 Cutting a byte stream at the length fields, in two ways: a deframer that bytes are
 pushed into, and a reader that pulls bytes from a transport. `CutAll` says what both do.
 */
module Framing {
  import opened Prelude
  import opened Codec

  datatype Cut = More | Bad(error: CodecError) | Frame(frame: Bytes)

  function CutFrame(buf: Bytes): Cut {
    if |buf| < 2 then More
    else
      var len := RdU16(buf);
      if len < 3 then Bad(TooShort(len))
      else if len > MAX_FRAME then Bad(TooLong(len))
      else if |buf| < len then More
      else Frame(buf[..len])
  }

  /** A frame is as many bytes as its first two say, from 3 to 4115, once they are all there; other lengths are bad. */
  lemma CutExactly(s: Bytes, frame: Bytes)
    ensures CutFrame(s) == Frame(frame)
            <==> frame <= s && 3 <= |frame| <= 4115 && frame[0] as int + 0x100 * frame[1] as int == |frame|
    ensures CutFrame(s).Bad? <==> |s| >= 2 && !(3 <= s[0] as int + 0x100 * s[1] as int <= 4115)
  {
    if 3 <= |frame| <= |s| {
      assert frame <= s ==> frame[0] == s[0] && frame[1] == s[1];
    }
  }

  /** The frames of a stream, what is left after them, and the length field that stops the cutting, if one does. */
  datatype Frames = Frames(frames: seq<Bytes>, rest: Bytes, stop: Option<CodecError>)

  function CutAll(s: Bytes): Frames
    decreases |s|
  {
    var c := CutFrame(s);
    if c.Frame? then
      var more := CutAll(s[|c.frame|..]);
      more.(frames := [c.frame] + more.frames)
    else Frames([], s, if c.Bad? then Some(c.error) else None)
  }

  function Flat(frames: seq<Bytes>): Bytes {
    if frames == [] then [] else frames[0] + Flat(frames[1..])
  }

  predicate Proper(frame: Bytes) {
    3 <= |frame| <= MAX_FRAME && RdU16(frame) == |frame|
  }

  ghost predicate AllProper(frames: seq<Bytes>) {
    forall i :: 0 <= i < |frames| ==> Proper(frames[i])
  }

  lemma ProperCuts(frame: Bytes, more: Bytes)
    requires Proper(frame)
    ensures var (all, alone) := (CutAll(frame + more), CutAll(more));
            all == alone.(frames := [frame] + alone.frames)
  {
    assert CutFrame(frame + more) == Frame(frame) && (frame + more)[|frame|..] == more;
  }

  lemma {:induction false} FlatAppend(frames: seq<Bytes>, frame: Bytes)
    ensures Flat(frames + [frame]) == Flat(frames) + frame
  {
    if frames == [] {
      Unit(frame);
      assert [frame][1..] == [];
    } else {
      FlatAppend(frames[1..], frame);
      Assoc(frames[0], Flat(frames[1..]), frame);
      assert (frames + [frame])[1..] == frames[1..] + [frame];
    }
  }

  /** Frames already cut off leave the cutting of the rest as it would be alone. */
  lemma {:induction false} CutAllAfter(frames: seq<Bytes>, rest: Bytes)
    requires AllProper(frames)
    ensures var (all, alone) := (CutAll(Flat(frames) + rest), CutAll(rest));
            all == alone.(frames := frames + alone.frames)
  {
    if frames == [] {
      Unit(rest);
    } else {
      var tail := Flat(frames[1..]) + rest;
      Assoc(frames[0], Flat(frames[1..]), rest);
      ProperCuts(frames[0], tail);
      CutAllAfter(frames[1..], rest);
      hide CutAll, Proper;
      assert [frames[0]] + frames[1..] == frames;
      Assoc([frames[0]], frames[1..], CutAll(rest).frames);
    }
  }

  lemma FlatCons(frame: Bytes, frames: seq<Bytes>, rest: Bytes)
    ensures Flat([frame] + frames) + rest == frame + (Flat(frames) + rest)
    ensures Proper(frame) && AllProper(frames) ==> AllProper([frame] + frames)
  {
    assert ([frame] + frames)[1..] == frames;
    Assoc(frame, Flat(frames), rest);
  }

  lemma CutStep(s: Bytes)
    ensures var (c, all) := (CutFrame(s), CutAll(s));
            if c.Frame? then
              && Proper(c.frame) && |c.frame| <= |s| && s == c.frame + s[|c.frame|..]
              && var more := CutAll(s[|c.frame|..]); all == more.(frames := [c.frame] + more.frames)
            else
              && AllProper(all.frames) && Flat(all.frames) + all.rest == s && all.rest == s
              && all.stop == if c.Bad? then Some(c.error) else None
  {
    Unit(s);
  }

  /** Cutting loses no byte, and stops only for want of bytes or at a bad length. */
  lemma {:induction false} CutAllIsExact(s: Bytes)
    ensures var all := CutAll(s);
            && AllProper(all.frames) && Flat(all.frames) + all.rest == s
            && CutFrame(all.rest) == (if all.stop.Some? then Bad(all.stop.value) else More)
    decreases |s|
  {
    hide CutAll, AllProper, Flat, CutFrame, Proper;
    CutStep(s);
    var c := CutFrame(s);
    if c.Frame? {
      var rest := s[|c.frame|..];
      CutAllIsExact(rest);
      FlatCons(c.frame, CutAll(rest).frames, CutAll(rest).rest);
    }
  }

  lemma BadIsFinal(rest: Bytes, t: Bytes)
    requires CutFrame(rest).Bad?
    ensures CutAll(rest + t) == Frames([], rest + t, Some(CutFrame(rest).error))
  {
    assert (rest + t)[0] == rest[0] && (rest + t)[1] == rest[1];
  }

  /** However a stream arrives in two parts, the frames of the first part stand, and a bad length is final. */
  lemma CutAllMonotone(s: Bytes, t: Bytes)
    ensures var (before, after) := (CutAll(s), CutAll(s + t));
            && before.frames <= after.frames
            && (before.stop.Some? ==> after == before.(rest := before.rest + t))
            && after.frames == before.frames + CutAll(before.rest + t).frames
  {
    hide CutAll, CutFrame, Flat, AllProper;
    var before := CutAll(s);
    CutAllIsExact(s);
    CutAllAfter(before.frames, before.rest + t);
    Assoc(Flat(before.frames), before.rest, t);
    if before.stop.Some? {
      BadIsFinal(before.rest, t);
      Unit(before.frames);
    }
  }

  // ---- push -----------------------------------------------------------------

  lemma PopStep(done: seq<Bytes>, rest: Bytes, frame: Bytes)
    requires AllProper(done) && CutFrame(rest) == Frame(frame)
    ensures AllProper(done + [frame]) && Flat(done) + rest == Flat(done + [frame]) + rest[|frame|..]
    ensures done + [frame] <= CutAll(Flat(done) + rest).frames
  {
    FlatAppend(done, frame);
    Assoc(Flat(done), frame, rest[|frame|..]);
    assert frame + rest[|frame|..] == rest;
    CutAllAfter(done, rest);
    Assoc(done, [frame], CutAll(rest[|frame|..]).frames);
  }

  lemma StopsAt(rest: Bytes)
    requires !CutFrame(rest).Frame?
    ensures CutAll(rest) == Frames([], rest, if CutFrame(rest).Bad? then Some(CutFrame(rest).error) else None)
  {
  }

  class Deframer {
    var buf: Bytes
    /** What went in and what came out since the last clear. */
    ghost var pushed: Bytes
    ghost var popped: seq<Bytes>

    ghost predicate Valid()
      reads this
    {
      AllProper(popped) && pushed == Flat(popped) + buf
    }

    constructor ()
      ensures Valid() && pushed == [] && popped == []
    {
      buf, pushed, popped := [], [], [];
    }

    method Push(bytes: Bytes)
      requires Valid()
      modifies this
      ensures Valid() && pushed == old(pushed) + bytes && popped == old(popped)
      ensures buf == old(buf) + bytes
    {
      Assoc(Flat(popped), buf, bytes);
      buf, pushed := buf + bytes, pushed + bytes;
    }

    function Pending(): nat
      reads this
    {
      |buf|
    }

    method Clear()
      requires Valid()
      modifies this
      ensures Valid() && pushed == [] && popped == [] && Pending() == 0
    {
      buf, pushed, popped := [], [], [];
    }

    /** The next frame of all that was pushed, or that there is none yet, or the length field that ends it. */
    method NextFrame() returns (r: Result<Option<Bytes>, CodecError>)
      requires Valid()
      modifies this
      ensures Valid() && pushed == old(pushed)
      ensures r.Ok? && r.value.Some? ==>
                popped == old(popped) + [r.value.value] && popped <= CutAll(pushed).frames
      ensures r == Ok(None) ==> popped == CutAll(pushed).frames && CutAll(pushed).stop == None
      ensures r.Err? ==> popped == CutAll(pushed).frames && CutAll(pushed).stop == Some(r.error)
      ensures !(r.Ok? && r.value.Some?) ==> popped == old(popped) && buf == old(buf)
    {
      CutAllAfter(popped, buf);
      Unit(popped);
      hide Flat, AllProper, CutAll;
      if |buf| < 2 {
        StopsAt(buf);
        return Ok(None);
      }
      var len := RdU16(buf);
      if len < 3 {
        StopsAt(buf);
        return Err(TooShort(len));
      }
      if len > MAX_FRAME {
        StopsAt(buf);
        return Err(TooLong(len));
      }
      if |buf| < len {
        StopsAt(buf);
        return Ok(None);
      }
      var frame := buf[..len];
      PopStep(popped, buf, frame);
      buf, popped := buf[len..], popped + [frame];
      return Ok(Some(frame));
    }
  }

  // ---- pull -----------------------------------------------------------------

  datatype ReadError = Timeout | Io | Codec(error: CodecError)

  /** What taking whole frames off a stream comes to at the next one. */
  lemma TakeNext(data: Bytes, start: nat, done: seq<Bytes>)
    requires start <= |data| && AllProper(done) && data[..start] == Flat(done)
    ensures var (next, all) := (CutFrame(data[start..]), CutAll(data));
            if next.Frame? then
              var end := start + |next.frame|;
              && end <= |data| && data[..end] == Flat(done + [next.frame])
              && AllProper(done + [next.frame]) && done + [next.frame] <= all.frames
            else
              done == all.frames && all.stop == if next.Bad? then Some(next.error) else None
  {
    var coming := data[start..];
    assert data[..start] + coming == data;
    if CutFrame(coming).Frame? {
      var frame := CutFrame(coming).frame;
      PopStep(done, coming, frame);
      FlatAppend(done, frame);
      hide Flat, CutAll, AllProper;
      SliceJoin(data, start, start + |frame|);
    } else {
      CutAllAfter(done, coming);
      StopsAt(coming);
      Unit(done);
    }
  }

  lemma HeadAndBody(frame: Bytes, data: Bytes, start: nat)
    requires 2 <= |frame| && start + |frame| <= |data|
    requires frame[..2] == data[start..start + 2] && frame[2..] == data[start + 2..start + |frame|]
    ensures frame == data[start..][..|frame|]
  {
    assert frame == frame[..2] + frame[2..];
  }

  lemma HeaderOf(data: Bytes, start: nat, hdr: Bytes)
    requires start + 2 <= |data| && hdr == data[start..start + 2]
    ensures RdU16(data[start..]) == RdU16(hdr)
  {
  }

  lemma SliceRun(s: Bytes, a: nat, b: nat, c: nat)
    requires a <= b <= c <= |s|
    ensures s[a..b] + s[b..c] == s[a..c]
  {
  }

  /**
   A transport on its receiving side. Every read yields some of the bytes still to come,
   as many or as few as it likes; an empty read means that the wait elapsed.
   */
  class Source {
    const data: Bytes
    /** Whether no wait elapses and no read fails while there are bytes to come. */
    const prompt: bool
    var pos: nat
    ghost var taken: seq<Bytes>

    ghost predicate Valid()
      reads this
    {
      pos <= |data|
    }

    /** So far whole frames were taken and nothing else. */
    ghost predicate InSync()
      reads this
    {
      pos <= |data| && AllProper(taken) && data[..pos] == Flat(taken)
    }

    constructor (data: Bytes, prompt: bool)
      ensures Valid() && InSync() && this.data == data && this.prompt == prompt && pos == 0 && taken == []
    {
      this.data, this.prompt, pos, taken := data, prompt, 0, [];
    }

    method Read(buf: array<byte>, off: nat) returns (r: Result<nat, ReadError>)
      requires Valid() && off < buf.Length
      modifies this`pos, buf
      ensures Valid() && buf[..off] == old(buf[..off])
      ensures r.Err? ==> pos == old(pos) && !prompt && r.error.Io?
      ensures r.Ok? ==> off + r.value <= buf.Length && pos == old(pos) + r.value
      ensures r.Ok? ==> buf[off..off + r.value] == data[old(pos)..pos]
      ensures r == Ok(0) && prompt ==> pos == |data|
    {
      var fails: bool := *;
      if fails && !prompt {
        return Err(Io);
      }
      var most := Min(buf.Length - off, |data| - pos);
      var n: nat :| n <= most && (prompt && most > 0 ==> n > 0);
      forall i | 0 <= i < n {
        buf[off + i] := data[pos + i];
      }
      pos := pos + n;
      return Ok(n);
    }

    /** Fills the buffer from `from` on. */
    method ReadExact(buf: array<byte>, from: nat) returns (r: Result<(), ReadError>)
      requires Valid() && from <= buf.Length
      modifies this`pos, buf
      ensures Valid() && buf[..from] == old(buf[..from])
      ensures r.Ok? ==> pos == old(pos) + buf.Length - from && buf[from..] == data[old(pos)..pos]
      ensures r.Err? ==> old(pos) <= pos < old(pos) + buf.Length - from && !r.error.Codec?
      ensures r.Err? && prompt ==> r.error.Timeout? && pos == |data|
    {
      ghost var head := buf[..from];
      var off := from;
      while off < buf.Length
        invariant Valid() && from <= off <= buf.Length && pos == old(pos) + off - from
        invariant buf[..off] == head + data[old(pos)..pos]
      {
        ghost var before, at := pos, off;
        var n := Read(buf, off);
        if n.Err? {
          return Err(n.error);
        }
        if n.value == 0 {
          return Err(Timeout);
        }
        off := off + n.value;
        SliceJoin(buf[..], at, off);
        SliceRun(data, old(pos), before, pos);
        Assoc(head, data[old(pos)..before], data[before..pos]);
      }
      return Ok(());
    }

    /** The frame the stream holds next, exactly when it holds one and it arrives in time. */
    method ReadFrame() returns (r: Result<Bytes, ReadError>)
      requires Valid()
      modifies this
      ensures Valid()
      ensures r.Ok? ==> CutFrame(old(data[pos..])) == Frame(r.value)
                        && pos == old(pos) + |r.value| && taken == old(taken) + [r.value]
      ensures r.Err? ==> taken == old(taken)
      ensures r.Err? && r.error.Codec? ==> CutFrame(old(data[pos..])) == Bad(r.error.error) && pos == old(pos) + 2
      ensures r.Err? && !r.error.Codec? && prompt ==>
                r.error.Timeout? && CutFrame(old(data[pos..])) == More && pos == |data|
      ensures old(InSync()) && r.Ok? ==> InSync() && taken <= CutAll(data).frames
      ensures old(InSync()) && r.Err? && (r.error.Codec? || prompt) ==>
                taken == CutAll(data).frames
                && CutAll(data).stop == if r.error.Codec? then Some(r.error.error) else None
    {
      hide Flat, AllProper, CutAll, RdU16;
      ghost var start := pos;
      if InSync() {
        TakeNext(data, pos, taken);
      }
      var hdr := new byte[2];
      var got := ReadExact(hdr, 0);
      if got.Err? {
        return Err(got.error);
      }
      HeaderOf(data, start, hdr[..]);
      var len := RdU16(hdr[..]);
      if len < 3 {
        return Err(Codec(TooShort(len)));
      }
      if len > MAX_FRAME {
        return Err(Codec(TooLong(len)));
      }
      var frame := new byte[len];
      frame[0], frame[1] := hdr[0], hdr[1];
      assert frame[..2] == hdr[..];
      got := ReadExact(frame, 2);
      if got.Err? {
        return Err(got.error);
      }
      HeadAndBody(frame[..], data, start);
      taken := taken + [frame[..]];
      return Ok(frame[..]);
    }
  }

  // ---- both -----------------------------------------------------------------

  lemma BothPrefixes<T>(a: seq<T>, b: seq<T>, all: seq<T>)
    requires a <= all && b <= all
    ensures a <= b || b <= a
  {
  }

  /** Over one stream, however pushed and however read, neither side cuts a frame that the other would not. */
  lemma FramingsAgree(d: Deframer, s: Source)
    requires d.Valid() && s.InSync() && d.pushed <= s.data
    ensures d.popped <= s.taken || s.taken <= d.popped
    ensures CutAll(d.pushed).stop.Some? ==>
              CutAll(s.data).stop == CutAll(d.pushed).stop && CutAll(s.data).frames == CutAll(d.pushed).frames
  {
    var unread, unpushed := s.data[s.pos..], s.data[|d.pushed|..];
    assert s.data == s.data[..s.pos] + unread && s.data == d.pushed + unpushed;
    CutAllMonotone(d.pushed, unpushed);
    CutAllAfter(d.popped, d.buf);
    CutAllAfter(s.taken, unread);
    var all := CutAll(s.data).frames;
    hide *;
    BothPrefixes(d.popped, s.taken, all);
  }
}
