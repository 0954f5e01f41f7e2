/** The two-party system always can, and in the end must, finish: how often it acts, and when it cannot. */
module IsoTpProgress {
  import opened Prelude
  import opened IsoTpFrames
  import opened IsoTpSteps
  import opened IsoTpSystem

  function Work(c: Link, s: Sys): int
    requires c.Valid()
  {
    4 * (c.tx.Total() - s.tx.sent) + 3 * |s.data| + 2 * |s.fcs|
  }

  /** The move does something other than let time pass. */
  predicate Effective(c: Link, s: Sys, m: Move)
    requires WellFormed(c, s)
  {
    Apply(c, s, m).(now := s.now) != s
  }

  lemma PollShrinks(c: Link, s: Sys)
    requires c.Valid() && Coupled(c, s) && Timely(s)
    ensures Work(c, Apply(c, s, PollTx)) <= Work(c, s)
    ensures Effective(c, s, PollTx) ==> Work(c, Apply(c, s, PollTx)) < Work(c, s)
  {
  }

  lemma TakeDataShrinks(c: Link, s: Sys)
    requires c.Valid() && Coupled(c, s) && Timely(s)
    ensures Work(c, Apply(c, s, TakeData)) <= Work(c, s)
    ensures s.data != [] ==> Work(c, Apply(c, s, TakeData)) < Work(c, s)
    ensures Effective(c, s, TakeData) ==> s.data != []
  {
  }

  lemma TakeFcShrinks(c: Link, s: Sys)
    requires c.Valid() && Coupled(c, s) && Timely(s)
    ensures Work(c, Apply(c, s, TakeFc)) <= Work(c, s)
    ensures s.fcs != [] ==> Work(c, Apply(c, s, TakeFc)) < Work(c, s)
    ensures Effective(c, s, TakeFc) ==> s.fcs != []
  {
  }

  lemma WorkShrinks(c: Link, s: Sys, m: Move)
    requires c.Valid() && Coupled(c, s) && Timely(s)
    ensures Work(c, Apply(c, s, m)) <= Work(c, s)
    ensures Effective(c, s, m) ==> Work(c, Apply(c, s, m)) < Work(c, s)
  {
    match m
    case PollTx => PollShrinks(c, s);
    case TakeData => TakeDataShrinks(c, s);
    case TakeFc => TakeFcShrinks(c, s);
    case CheckRx =>
    case Tick(_) =>
  }

  lemma WorkIsNatural(c: Link, s: Sys)
    requires c.Valid() && Coupled(c, s)
    ensures Work(c, s) >= 0
  {
  }

  function EffectiveMoves(c: Link, s: Sys, ms: seq<Move>): nat
    requires WellFormed(c, s)
    decreases |ms|
  {
    if ms == [] then 0
    else (if Effective(c, s, ms[0]) then 1 else 0) + EffectiveMoves(c, Apply(c, s, ms[0]), ms[1..])
  }

  lemma {:induction false} WorkPays(c: Link, s: Sys, ms: seq<Move>)
    requires c.Valid() && Coupled(c, s) && TimelyRun(c, s, ms)
    ensures EffectiveMoves(c, s, ms) <= Work(c, s)
    decreases |ms|
  {
    assert WellFormed(c, s);
    hide Apply, Coupled, Work, Effective;
    if ms != [] {
      WorkShrinks(c, s, ms[0]);
      ApplyKeeps(c, s, ms[0]);
      WorkPays(c, Apply(c, s, ms[0]), ms[1..]);
    } else {
      WorkIsNatural(c, s);
    }
  }

  /** No run acts more than four times per frame, however it is scheduled. */
  lemma BoundedWork(c: Link, ms: seq<Move>)
    requires c.Valid() && TimelyRun(c, Init(c), ms)
    ensures EffectiveMoves(c, Init(c), ms) <= 4 * c.tx.Total()
  {
    WorkPays(c, Init(c), ms);
  }

  // ---- some step is always enabled ------------------------------------------

  ghost predicate CanFinish(c: Link, s: Sys)
    requires c.Valid() && WellFormed(c, s)
  {
    exists ms :: TimelyRun(c, s, ms) && Complete(Play(c, s, ms))
  }

  /**
   The configurations that cannot run out of time by waiting as told: flow control
   has some time to arrive, and the advertised STmin fits into the receiver's own
   N_Cr wherever two consecutive frames share a block.
   */
  predicate Feasible(c: Link)
    requires c.Valid()
  {
    c.tx.Total() == 1 || (c.tx.nBs > 0 && (c.Gap() <= c.rx.nCr || c.tx.Total() == 2 || c.rx.bs == 1))
  }

  function NextMoves(s: Sys): seq<Move> {
    if s.data != [] then [TakeData]
    else if s.fcs != [] then [TakeFc]
    else if s.tx.phase.Consecutive? && s.now < s.tx.phase.earliest then [Tick(s.tx.phase.earliest - s.now), PollTx]
    else [PollTx]
  }

  lemma PollActs(c: Link, s: Sys)
    requires c.Valid() && Coupled(c, s) && Timely(s) && Feasible(c) && !Complete(s)
    requires s.data == [] && s.fcs == [] && (s.tx.phase.Consecutive? ==> s.now >= s.tx.phase.earliest)
    ensures Timely(Apply(c, s, PollTx)) && Effective(c, s, PollTx)
  {
  }

  lemma TakeDataIsTimely(c: Link, s: Sys)
    requires WellFormed(c, s) && Timely(s)
    ensures Timely(Apply(c, s, TakeData))
  {
    hide Parse, FlowControl;
  }

  lemma TakeFcIsTimely(c: Link, s: Sys)
    requires c.Valid() && Coupled(c, s) && Timely(s) && s.fcs != []
    ensures Timely(Apply(c, s, TakeFc))
  {
    hide FrameAt, Segment, FlowControl, ParseFc;
    FcReadsBack(c.rx.bs, c.rx.stmin, c.rx.padding, c.rx.addr);
  }

  lemma ActsNow(c: Link, s: Sys)
    requires c.Valid() && Coupled(c, s) && Timely(s) && Feasible(c) && !Complete(s)
    requires |NextMoves(s)| == 1
    ensures Timely(Apply(c, s, NextMoves(s)[0]))
    ensures Work(c, Apply(c, s, NextMoves(s)[0])) < Work(c, s)
  {
    assert WellFormed(c, s);
    hide Apply, Coupled, Work, Effective;
    if s.data != [] {
      TakeDataIsTimely(c, s);
      TakeDataShrinks(c, s);
    } else if s.fcs != [] {
      TakeFcIsTimely(c, s);
      TakeFcShrinks(c, s);
    } else {
      PollActs(c, s);
      PollShrinks(c, s);
    }
  }

  lemma WaitIsTimely(c: Link, s: Sys)
    requires c.Valid() && Coupled(c, s) && Timely(s) && Feasible(c)
    requires s.data == [] && s.tx.phase.Consecutive? && s.now < s.tx.phase.earliest
    ensures Timely(s.(now := s.tx.phase.earliest))
  {
    assert s.tx.block >= 1;
  }

  lemma RunMore(c: Link, s: Sys, m: Move, rest: seq<Move>)
    requires WellFormed(c, s) && Timely(s) && TimelyRun(c, Apply(c, s, m), rest)
    ensures TimelyRun(c, s, [m] + rest) && Play(c, s, [m] + rest) == Play(c, Apply(c, s, m), rest)
  {
    hide Apply;
    assert ([m] + rest)[1..] == rest;
  }

  lemma RunOne(c: Link, s: Sys, m: Move)
    requires WellFormed(c, s) && Timely(s) && Timely(Apply(c, s, m))
    ensures TimelyRun(c, s, [m]) && Play(c, s, [m]) == Apply(c, s, m)
  {
    hide Apply;
    RunMore(c, s, m, []);
    assert [m] + [] == [m];
  }

  lemma Advance(c: Link, s: Sys)
    requires c.Valid() && Coupled(c, s) && Timely(s) && Feasible(c) && !Complete(s)
    ensures TimelyRun(c, s, NextMoves(s))
    ensures Work(c, Play(c, s, NextMoves(s))) < Work(c, s)
  {
    if |NextMoves(s)| == 1 {
      ActsNow(c, s);
      RunOne(c, s, NextMoves(s)[0]);
    } else {
      var s1 := s.(now := s.tx.phase.earliest);
      WaitIsTimely(c, s);
      ApplyKeeps(c, s, NextMoves(s)[0]);
      assert Apply(c, s, NextMoves(s)[0]) == s1;
      ActsNow(c, s1);
      RunOne(c, s1, PollTx);
      RunMore(c, s, NextMoves(s)[0], [PollTx]);
      assert [NextMoves(s)[0]] + [PollTx] == NextMoves(s);
    }
  }

  lemma {:induction false} PlayAppend(c: Link, s: Sys, a: seq<Move>, b: seq<Move>)
    requires WellFormed(c, s) && TimelyRun(c, s, a) && TimelyRun(c, Play(c, s, a), b)
    ensures TimelyRun(c, s, a + b) && Play(c, s, a + b) == Play(c, Play(c, s, a), b)
    decreases |a|
  {
    hide Apply;
    if a == [] {
      assert a + b == b;
    } else {
      PlayAppend(c, Apply(c, s, a[0]), a[1..], b);
      assert (a + b)[1..] == a[1..] + b;
    }
  }

  /** From every coupled state a feasible link can be driven to the end. */
  lemma {:induction false} Finish(c: Link, s: Sys) returns (ms: seq<Move>)
    requires c.Valid() && Coupled(c, s) && Timely(s) && Feasible(c)
    ensures TimelyRun(c, s, ms) && Complete(Play(c, s, ms))
    decreases Work(c, s)
  {
    assert WellFormed(c, s);
    hide Apply, Coupled, Work, NextMoves;
    WorkIsNatural(c, s);
    if Complete(s) {
      ms := [];
    } else {
      Advance(c, s);
      RunKeeps(c, s, NextMoves(s));
      var rest := Finish(c, Play(c, s, NextMoves(s)));
      PlayAppend(c, s, NextMoves(s), rest);
      ms := NextMoves(s) + rest;
    }
  }

  // ---- and an infeasible link gets stuck ------------------------------------

  /** Nothing is in flight, and the sender must wait past a deadline that nothing else can move. */
  predicate Stuck(c: Link, s: Sys)
    requires c.Valid()
  {
    && s.tx.Inv() && s.rx.Inv(c.rx.bs) && s.tx.cfg == c.tx && c.tx.Total() > 1
    && s.data == [] && s.fcs == []
    && ((s.tx.phase.Start? && c.tx.nBs == 0)
        || (s.tx.phase.Consecutive? && s.rx.Receiving? && s.rx.deadline < s.tx.phase.earliest))
  }

  lemma StillStuck(c: Link, s: Sys, m: Move)
    requires c.Valid() && Stuck(c, s) && Timely(s) && Timely(Apply(c, s, m))
    ensures Stuck(c, Apply(c, s, m))
  {
  }

  lemma {:induction false} StuckForever(c: Link, s: Sys, ms: seq<Move>)
    requires c.Valid() && Stuck(c, s) && TimelyRun(c, s, ms)
    ensures !Complete(Play(c, s, ms))
    decreases |ms|
  {
    if ms != [] {
      StillStuck(c, s, ms[0]);
      hide Apply;
      StuckForever(c, Apply(c, s, ms[0]), ms[1..]);
    }
  }

  lemma SecondSent(c: Link, s2: Sys) returns (s: Sys)
    requires c.Valid() && !Feasible(c) && Coupled(c, s2) && Timely(s2)
    requires s2.tx.phase.AwaitFc? && s2.tx.sent == 1 && s2.data == [] && s2.fcs == [c.rx.Fc()]
    requires s2.now == 0 && s2.rx.Receiving? && c.tx.nBs > 0
    ensures var s3 := Apply(c, s2, TakeFc);
            && Timely(s3) && s == Apply(c, s3, PollTx) && Timely(s)
            && Stuck(c, Apply(c, s, TakeData)) && Timely(Apply(c, s, TakeData))
  {
    FcReadsBack(c.rx.bs, c.rx.stmin, c.rx.padding, c.rx.addr);
    var s3 := Apply(c, s2, TakeFc);
    ApplyKeeps(c, s2, TakeFc);
    s := Apply(c, s3, PollTx);
    ApplyKeeps(c, s3, PollTx);
    NextTaken(c, s.rx, 1, 0);
  }

  lemma FirstAnswered(c: Link, s1: Sys) returns (s: Sys)
    requires c.Valid() && c.tx.Total() > 1 && Coupled(c, s1) && Timely(s1)
    requires s1.tx.phase.AwaitFc? && s1.tx.sent == 1 && s1.data == [c.tx.Frame(0)] && s1.fcs == [] && s1.now == 0
    requires s1.rx == Idle && s1.delivered == []
    ensures s == Apply(c, s1, TakeData) && Coupled(c, s) && Timely(s)
    ensures s.tx == s1.tx && s.data == [] && s.fcs == [c.rx.Fc()] && s.now == 0 && s.rx.Receiving?
  {
    s := Apply(c, s1, TakeData);
    ApplyKeeps(c, s1, TakeData);
    NextTaken(c, s1.rx, 0, 0);
  }

  lemma FirstSent(c: Link) returns (s: Sys)
    requires c.Valid() && !Feasible(c) && c.tx.nBs > 0
    ensures s == Apply(c, Init(c), PollTx) && Coupled(c, s) && Timely(s)
    ensures s.tx.phase.AwaitFc? && s.tx.sent == 1 && s.data == [c.tx.Frame(0)] && s.fcs == [] && s.now == 0
    ensures s.rx == Idle && s.delivered == []
  {
    s := Apply(c, Init(c), PollTx);
    ApplyKeeps(c, Init(c), PollTx);
  }

  /** Everything delivered at once, a slow link gets stuck after its first consecutive frame. */
  lemma ReachesStuck(c: Link) returns (ms: seq<Move>)
    requires c.Valid() && !Feasible(c)
    ensures TimelyRun(c, Init(c), ms) && Stuck(c, Play(c, Init(c), ms))
  {
    if c.tx.nBs == 0 {
      ms := [];
    } else {
      var s0 := Init(c);
      ms := [PollTx] + ([TakeData] + ([TakeFc] + ([PollTx] + [TakeData])));
      var s1 := FirstSent(c);
      var s2 := FirstAnswered(c, s1);
      var s3 := SecondSent(c, s2);
      hide Apply;
      var s4 := Apply(c, s3, TakeData);
      RunOne(c, s3, TakeData);
      RunMore(c, Apply(c, s2, TakeFc), PollTx, [TakeData]);
      RunMore(c, s2, TakeFc, [PollTx] + [TakeData]);
      RunMore(c, s1, TakeData, [TakeFc] + ([PollTx] + [TakeData]));
      RunMore(c, s0, PollTx, [TakeData] + ([TakeFc] + ([PollTx] + [TakeData])));
    }
  }

  lemma InitCoupled(c: Link)
    requires c.Valid()
    ensures Coupled(c, Init(c))
  {
  }

  /**
   Deadlock freedom, exactly: every state a timely run can reach can still be driven
   to the end if and only if the link is feasible.
   */
  lemma DeadlockFreeExactly(c: Link)
    requires c.Valid()
    ensures (forall ms :: TimelyRun(c, Init(c), ms) ==> CanFinish(c, Play(c, Init(c), ms))) <==> Feasible(c)
  {
    hide Apply, Stuck, Feasible, Coupled;
    if Feasible(c) {
      assert Coupled(c, Init(c)) by {
        InitCoupled(c);
      }
      forall ms | TimelyRun(c, Init(c), ms) ensures CanFinish(c, Play(c, Init(c), ms)) {
        RunKeeps(c, Init(c), ms);
        var rest := Finish(c, Play(c, Init(c), ms));
      }
    } else {
      var ms := ReachesStuck(c);
      var s := Play(c, Init(c), ms);
      forall rest | TimelyRun(c, s, rest) ensures !Complete(Play(c, s, rest)) {
        StuckForever(c, s, rest);
      }
      assert TimelyRun(c, Init(c), ms) && !CanFinish(c, Play(c, Init(c), ms));
    }
  }
}
