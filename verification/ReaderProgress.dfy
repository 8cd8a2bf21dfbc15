/** Progress of the threaded reader: no deadlock, and every fairly scheduled call ends. */
module ReaderProgress {
  import opened Bytes
  import opened ReaderSpec
  import opened ThreadedReader

  // ----- a measure of the work left in a call

  /** Steps the producer still has to take, apart from waiting for room. */
  ghost function ProducerRank(cfg: Config, s: State): int {
    var left := |cfg.data| - s.ra;
    match s.p
    case Test => 4 * left + 3
    case Full => if s.blockCount == cfg.maxBlocks then 4 * left + 3 else 4 * left + 2
    case Fill(buf) => 4 * (left - |buf|) + 1
    case Append(block) => 4 * (left - |block|) + 4
    case Raise => 4 * left + 6
    case Parked => 4 * left + 5
    case Seek => 4 * left + 4
    case Finish => 1
    case Exited => 0
  }

  /** The threshold wait can be left towards a block. */
  ghost predicate Ready(cfg: Config, s: State) {
    s.blockCount >= cfg.Threshold() || s.complete
  }

  /** The consumer spins and nothing it tests lets it out: only the producer can move things on. */
  ghost predicate Waiting(cfg: Config, s: State) {
    InSpin(s.c) && !Ready(cfg, s) && !s.hasError
  }

  ghost function SpinRank(cfg: Config, s: State): nat {
    if Waiting(cfg, s) then 12
    else match s.c
      case SpinCount => if Ready(cfg, s) then 4 else 9
      case SpinComplete => if s.complete then 3 else 8
      case SpinError => 7
      case Callback => 6
      case Acknowledge(_) => 5
      case _ => 0
  }

  /** Steps the consumer still has to take in the round that is under way. */
  ghost function RoundRank(cfg: Config, s: State): int {
    var n := |s.outs|;
    match s.c
    case Entry => n + 22
    case Get => n + 4
    case Put(i, _, _) => n - i + 3
    case Dispose => 2
    case Loop => 1
    case _ => n + 4 + SpinRank(cfg, s)
  }

  ghost function ConsumerRank(cfg: Config, s: State): int {
    var K := |s.outs| + 24;
    if s.c.Loop? || s.c.Dispose? then Offset(K, s.rem) + RoundRank(cfg, s)
    else if s.rem > 0 then Offset(K, s.rem - 1) + RoundRank(cfg, s)
    else 0
  }

  /** The work left in a call when the disk fails at most f more times. */
  ghost function Work(cfg: Config, s: State, f: nat): int {
    f * (4 * cfg.B + 64) + ProducerRank(cfg, s) + ConsumerRank(cfg, s)
    + (if s.p.Raise? || s.hasError then 10 else 0)
  }

  /** A call that does not spin at the end of the file: it is in range, or the file ends on a block boundary. */
  ghost predicate CanEnd(cfg: Config, s: State) {
    cfg.B > 0 && Active(s.c) && (s.pos + s.rem <= |cfg.data| || |cfg.data| % cfg.B == 0)
  }

  /** Whose step is sure to get on with the call: true for the producer. */
  ghost predicate ProducerIsDue(cfg: Config, s: State) {
    Waiting(cfg, s)
  }

  /** A producer event with which a read would fail. It counts even when the producer reads nothing in it. */
  function Failing(e: Event): nat {
    if e.Producer? && e.got == 0 then 1 else 0
  }

  ghost predicate Advances(cfg: Config, s: State, f: nat, s': State, f': nat, due: bool) {
    || !Active(s'.c)
    || (&& CanEnd(cfg, s')
        && Work(cfg, s', f') <= Work(cfg, s, f)
        && (Work(cfg, s', f') < Work(cfg, s, f) || (!due && (ProducerIsDue(cfg, s') <==> ProducerIsDue(cfg, s)))))
  }

  // ----- producer steps

  lemma ProducerRankRead(cfg: Config, s: State, got: nat, junk: nat, f: nat)
    requires Inv(cfg, s) && s.p.Fill? && CanEnd(cfg, s) && cfg.maxBlocks >= 2
    requires f >= (if got == 0 then 1 else 0)
    ensures var s' := ReadStep(cfg, s, s.p.buf, got, junk);
      && CanEnd(cfg, s')
      && Work(cfg, s', if got == 0 then f - 1 else f) < Work(cfg, s, f)
  {
    hide Transfer, CallResult, Settled, RoundInv, LogInv, Offset;
    var s' := ReadStep(cfg, s, s.p.buf, got, junk);
    assert s.pos == s'.pos && s.rem == s'.rem;
    assert ConsumerRank(cfg, s') == ConsumerRank(cfg, s);
    if got == 0 {
      assert f * (4 * cfg.B + 64) == (f - 1) * (4 * cfg.B + 64) + (4 * cfg.B + 64);
    }
  }

  /** What a producer step other than a read leaves of the consumer's rank and of the turn. */
  lemma ConsumerRankKept(cfg: Config, s: State)
    requires Inv(cfg, s) && !s.p.Fill? && CanEnd(cfg, s) && cfg.maxBlocks >= 2
    ensures var s' := ProducerStep(cfg, s, 0, 0);
      && CanEnd(cfg, s') && ConsumerRank(cfg, s') <= ConsumerRank(cfg, s)
  {
    hide Transfer, CallResult, Settled, RoundInv, LogInv, Offset, ProducerInv;
  }

  lemma ProducerRankStep(cfg: Config, s: State)
    requires Inv(cfg, s) && !s.p.Fill? && Active(s.c) && cfg.maxBlocks >= 2
    ensures var s' := ProducerStep(cfg, s, 0, 0);
      && (s.p.Raise? || s.hasError <==> s'.p.Raise? || s'.hasError)
      && ProducerRank(cfg, s') <= ProducerRank(cfg, s)
      && (ProducerRank(cfg, s') == ProducerRank(cfg, s) ==>
            !Waiting(cfg, s) && !Waiting(cfg, s') && s'.hasError == s.hasError)
  {
    hide Transfer, CallResult, Settled, RoundInv, LogInv, Offset;
  }

  lemma ProducerAdvances(cfg: Config, s: State, got: nat, junk: nat, f: nat)
    requires Inv(cfg, s) && CanEnd(cfg, s) && cfg.maxBlocks >= 2
    requires f >= (if got == 0 then 1 else 0)
    ensures Advances(cfg, s, f, ProducerStep(cfg, s, got, junk), if got == 0 then f - 1 else f, ProducerIsDue(cfg, s))
  {
    hide Transfer, CallResult, Settled, RoundInv, LogInv, Offset, ListInv, ProducerInv, CallInv, PositionInv,
      ErrorInv, ConsumerRank, ProducerRank;
    if s.p.Fill? {
      ProducerRankRead(cfg, s, got, junk, f);
    } else {
      ConsumerRankKept(cfg, s);
      ProducerRankStep(cfg, s);
      MulMonotone(if got == 0 then f - 1 else f, f, 4 * cfg.B + 64);
    }
  }

  // ----- consumer steps

  lemma {:induction false} OffsetMonotone(K: nat, a: nat, b: nat)
    requires a <= b
    ensures Offset(K, a) <= Offset(K, b)
    decreases b
  {
    if a < b {
      OffsetMonotone(K, a, b - 1);
    }
  }

  /** A place in a block that starts before the end of a file of whole blocks is before that end too. */
  lemma BeforeTheEnd(B: nat, size: nat, d: nat, produced: nat, pos: nat)
    requires B > 0 && size % B == 0 && d < produced && Offset(B, produced - 1) < size && pos < Offset(B, d) + B
    ensures pos < size
  {
    hide Offset;
    OffsetMonotone(B, d, produced - 1);
    OffsetIsMultiple(B, d);
    MultiplesApart(d, size / B, B);
  }

  /** While there is a block, there are bytes left that lie in it. */
  lemma BytesLeft(cfg: Config, s: State)
    requires Inv(cfg, s) && s.c.Put? && CanEnd(cfg, s)
    ensures s.pos < |cfg.data|
  {
    hide Transfer, CallResult, Settled, LogInv, ProducerInv, ErrorInv, Offset;
    if s.pos + s.rem > |cfg.data| {
      BeforeTheEnd(cfg.B, |cfg.data|, s.disposed, s.produced, s.pos);
    }
  }

  lemma MultiplesApart(a: int, b: int, m: nat)
    requires a * m < b * m
    ensures a * m + m <= b * m
  {
    if a >= b {
      MulMonotone(b, a, m);
    } else {
      MulMonotone(a + 1, b, m);
    }
  }

  lemma RoundAdvances(cfg: Config, s: State)
    requires Inv(cfg, s) && s.c.Put? && s.c.i == |s.outs| && CanEnd(cfg, s)
    ensures var s' := PutStep(cfg, s, s.c.i, s.c.cur, s.c.before, 0);
      && CanEnd(cfg, s') && ConsumerRank(cfg, s') < ConsumerRank(cfg, s)
  {
    hide Transfer, CallResult, Settled, LogInv, ListInv, ProducerInv;
    var s' := PutStep(cfg, s, s.c.i, s.c.cur, s.c.before, 0);
    BytesLeft(cfg, s);
    ChunkIsFileBytes(cfg, s);
    assert s'.rem <= s.rem - 1;
    OffsetMonotone(|s.outs| + 24, s'.rem, s.rem - 1);
  }

  lemma PutAdvances(cfg: Config, s: State, written: int)
    requires Inv(cfg, s) && s.c.Put? && CanEnd(cfg, s)
    ensures var s' := PutStep(cfg, s, s.c.i, s.c.cur, s.c.before, written);
      !Active(s'.c) || (CanEnd(cfg, s') && ConsumerRank(cfg, s') < ConsumerRank(cfg, s))
  {
    hide Transfer, CallResult, Settled, LogInv, ListInv, ProducerInv, Offset;
    if s.c.i == |s.outs| {
      RoundAdvances(cfg, s);
    }
  }

  lemma BranchAdvances(cfg: Config, s: State, cancel: bool)
    requires cfg.Valid() && ErrorInv(cfg, s) && CallInv(cfg, s) && s.blockCount == |s.list|
    requires CanEnd(cfg, s) && Branches(s.c) && !Waiting(cfg, s)
    ensures var s' := s.(c := Branch(cfg, s, cancel));
      CanEnd(cfg, s') && ConsumerRank(cfg, s') < ConsumerRank(cfg, s)
  {
    hide Settled, RoundInv, Offset;
  }

  lemma LoopAdvances(cfg: Config, s: State)
    requires cfg.Valid() && CanEnd(cfg, s)
    requires ((s.c.Loop? && s.rem > 0) || (s.c.Get? && s.rem > 0 && s.list != []) || s.c.Dispose?)
    ensures var s' := ConsumerStep(cfg, s, Stay, false, 0);
      CanEnd(cfg, s') && ConsumerRank(cfg, s') < ConsumerRank(cfg, s)
  {
    assert s.rem > 0 ==> Offset(|s.outs| + 24, s.rem) == Offset(|s.outs| + 24, s.rem - 1) + |s.outs| + 24;
    hide Offset;
  }

  lemma ConsumerControlAdvances(cfg: Config, s: State, request: Request, cancel: bool, written: int)
    requires Inv(cfg, s) && CanEnd(cfg, s) && !s.c.Put? && !s.c.Acknowledge? && !Waiting(cfg, s)
    ensures var s' := ConsumerStep(cfg, s, request, cancel, written);
      !Active(s'.c) || (CanEnd(cfg, s') && ConsumerRank(cfg, s') < ConsumerRank(cfg, s))
  {
    hide ConsumerRank, Settled, RoundInv, LogInv, ProducerInv, PositionInv, Offset;
    if Branches(s.c) {
      BranchAdvances(cfg, s, cancel);
    } else if !(s.c.Loop? && s.rem == 0) && !(s.c.Get? && s.list == []) {
      LoopAdvances(cfg, s);
    }
  }

  lemma AcknowledgeAdvances(cfg: Config, s: State)
    requires Inv(cfg, s) && CanEnd(cfg, s) && cfg.maxBlocks >= 2 && s.c.Acknowledge?
    ensures var s' := ConsumerStep(cfg, s, Stay, false, 0);
      !Active(s'.c) || (CanEnd(cfg, s') && ConsumerRank(cfg, s') < ConsumerRank(cfg, s) + 10)
  {
    hide Transfer, CallResult, Settled, RoundInv, LogInv, ProducerInv, ListInv, Offset;
  }

  lemma WaitingStays(cfg: Config, s: State, request: Request, cancel: bool, written: int)
    requires Inv(cfg, s) && CanEnd(cfg, s) && Waiting(cfg, s)
    ensures var s' := ConsumerStep(cfg, s, request, cancel, written);
      && CanEnd(cfg, s') && ConsumerRank(cfg, s') == ConsumerRank(cfg, s) && Waiting(cfg, s')
  {
    hide Transfer, CallResult, Settled, RoundInv, LogInv, ProducerInv, ListInv, Offset;
  }

  lemma PutFields(cfg: Config, s: State, i: nat, cur: seq<byte>, before: seq<seq<byte>>, written: int)
    requires cfg.Valid()
    ensures var s' := PutStep(cfg, s, i, cur, before, written);
      s'.p == s.p && s'.ra == s.ra && s'.blockCount == s.blockCount && s'.hasError == s.hasError
  {
    hide Chunk, Slice;
  }

  /** What a consumer step in a call does to the fields the producer works on. */
  lemma ConsumerFields(cfg: Config, s: State, request: Request, cancel: bool, written: int)
    requires cfg.Valid() && Active(s.c)
    ensures var s' := ConsumerStep(cfg, s, request, cancel, written);
      && s'.p == s.p && s'.ra == s.ra
      && s'.blockCount == s.blockCount - (if s.c.Dispose? then 1 else 0)
      && s'.hasError == (s.hasError && !s.c.Acknowledge?)
  {
    hide PutStep, BeginCall, Branch;
    if s.c.Put? {
      PutFields(cfg, s, s.c.i, s.c.cur, s.c.before, written);
    }
  }

  lemma ProducerRankKept(cfg: Config, s: State, request: Request, cancel: bool, written: int)
    requires Inv(cfg, s) && Active(s.c)
    ensures var s' := ConsumerStep(cfg, s, request, cancel, written);
      && s'.p == s.p && ProducerRank(cfg, s') <= ProducerRank(cfg, s)
      && s'.hasError == (s.hasError && !s.c.Acknowledge?)
  {
    hide Transfer, CallResult, Settled, RoundInv, LogInv, Offset, PositionInv;
    ConsumerFields(cfg, s, request, cancel, written);
    assert s.blockCount <= cfg.maxBlocks;
  }

  lemma ConsumerAdvances(cfg: Config, s: State, request: Request, cancel: bool, written: int, f: nat)
    requires Inv(cfg, s) && CanEnd(cfg, s) && cfg.maxBlocks >= 2
    ensures Advances(cfg, s, f, ConsumerStep(cfg, s, request, cancel, written), f, !ProducerIsDue(cfg, s))
  {
    hide Transfer, CallResult, Settled, RoundInv, LogInv, Offset, ListInv, ProducerInv, CallInv, PositionInv,
      ConsumerRank, ProducerRank;
    ProducerRankKept(cfg, s, request, cancel, written);
    if s.c.Put? {
      PutAdvances(cfg, s, written);
    } else if s.c.Acknowledge? {
      AcknowledgeAdvances(cfg, s);
    } else if Waiting(cfg, s) {
      WaitingStays(cfg, s, request, cancel, written);
    } else {
      ConsumerControlAdvances(cfg, s, request, cancel, written);
    }
  }

  /** Any step of the due thread gets on with the call, and no step of the other sets it back. */
  lemma StepAdvances(cfg: Config, s: State, e: Event, f: nat)
    requires Inv(cfg, s) && CanEnd(cfg, s) && cfg.maxBlocks >= 2 && f >= Failing(e)
    ensures Advances(cfg, s, f, Next(cfg, s, e), f - Failing(e), e.Producer? == ProducerIsDue(cfg, s))
  {
    hide Inv, Advances, Work;
    match e
    case Producer(got, junk) => ProducerAdvances(cfg, s, got, junk, f);
    case Consumer(request, cancel, written) => ConsumerAdvances(cfg, s, request, cancel, written, f);
  }

  // ----- fair schedules

  function FailingReads(schedule: seq<Event>): nat
    decreases schedule
  {
    if schedule == [] then 0 else Failing(schedule[0]) + FailingReads(schedule[1..])
  }

  /** Thread b (true for the producer) steps within the first w events from i on. */
  ghost predicate Occurs(schedule: seq<Event>, i: nat, w: nat, b: bool) {
    exists j :: i <= j < i + w && j < |schedule| && schedule[j].Producer? == b
  }

  /** Every w events in a row hold a step of each thread. */
  ghost predicate Fair(schedule: seq<Event>, w: nat) {
    forall i: nat :: i + w <= |schedule| ==> Occurs(schedule, i, w, true) && Occurs(schedule, i, w, false)
  }

  lemma FairTail(schedule: seq<Event>, w: nat)
    requires schedule != [] && Fair(schedule, w)
    ensures Fair(schedule[1..], w)
  {
    var tail := schedule[1..];
    forall i: nat, b: bool | i + w <= |tail|
      ensures Occurs(tail, i, w, b)
    {
      assert Occurs(schedule, i + 1, w, b);
      var j :| i + 1 <= j < i + 1 + w && j < |schedule| && schedule[j].Producer? == b;
      assert tail[j - 1].Producer? == b;
    }
  }

  /** The call in progress has returned after some prefix of the schedule. */
  ghost predicate Ends(cfg: Config, s: State, schedule: seq<Event>)
    requires cfg.Valid()
  {
    exists k :: 0 <= k <= |schedule| && !Active(Exec(cfg, s, schedule[..k]).c)
  }

  lemma EndsLater(cfg: Config, s: State, schedule: seq<Event>)
    requires cfg.Valid() && schedule != []
    requires Ends(cfg, Next(cfg, s, schedule[0]), schedule[1..])
    ensures Ends(cfg, s, schedule)
  {
    var k :| 0 <= k <= |schedule[1..]| && !Active(Exec(cfg, Next(cfg, s, schedule[0]), schedule[1..][..k]).c);
    assert schedule[..k + 1][1..] == schedule[1..][..k];
    assert !Active(Exec(cfg, s, schedule[..k + 1]).c);
  }

  lemma WorkIsNatural(cfg: Config, s: State, f: nat)
    requires Inv(cfg, s)
    ensures Work(cfg, s, f) >= 0
  {
    hide Transfer, CallResult, Settled, LogInv;
    MulMonotone(0, f, 4 * cfg.B + 64);
  }

  /** The schedule still has w events for each unit of work, and the due thread steps within `left` of them. */
  lemma {:induction false} DueThreadComes(cfg: Config, s: State, schedule: seq<Event>, w: nat, left: nat, work: nat)
    requires Inv(cfg, s) && CanEnd(cfg, s) && cfg.maxBlocks >= 2 && Fair(schedule, w)
    requires Work(cfg, s, FailingReads(schedule)) <= work
    requires |schedule| >= left + Offset(w, work)
    requires Occurs(schedule, 0, left, ProducerIsDue(cfg, s))
    ensures Ends(cfg, s, schedule)
    decreases schedule
  {
    assert cfg.Valid();
    hide Inv, Work;
    var e, tail := schedule[0], schedule[1..];
    var f := FailingReads(schedule);
    var s' := Next(cfg, s, e);
    var due := ProducerIsDue(cfg, s);
    InvNext(cfg, s, e);
    StepAdvances(cfg, s, e, f);
    if !Active(s'.c) {
      assert tail[..0] == [];
      assert !Active(Exec(cfg, s', tail[..0]).c);
    } else {
      FairTail(schedule, w);
      WorkIsNatural(cfg, s', f - Failing(e));
      if Work(cfg, s', f - Failing(e)) < Work(cfg, s, f) {
        assert Occurs(tail, 0, w, true) && Occurs(tail, 0, w, false);
        DueThreadComes(cfg, s', tail, w, w, work - 1);
      } else {
        var j :| 0 <= j < left && j < |schedule| && schedule[j].Producer? == due;
        assert tail[j - 1].Producer? == due;
        DueThreadComes(cfg, s', tail, w, left - 1, work);
      }
    }
    EndsLater(cfg, s, schedule);
  }

  lemma EventsPerWork(w: nat, work: nat)
    ensures w * (work + 1) == w + Offset(w, work) >= w
  {
    OffsetIsMultiple(w, work);
  }

  /**
   Progress: with maxBlocks >= 2, a call that is under way in a state some schedule reached, and that is in
   range or reads a file that ends on a block boundary, returns within w * (Work + 1) further steps, whatever
   the interleaving, as long as every w steps in a row hold one of each thread. Work counts each event of the
   schedule with which a read would fail.
   */
  lemma FairCallReturns(cfg: Config, before: seq<Event>, after: seq<Event>, w: nat)
    requires cfg.Valid() && cfg.maxBlocks >= 2
    requires CanEnd(cfg, Exec(cfg, InitialState(), before))
    requires Fair(after, w)
    requires |after| >= w * (Work(cfg, Exec(cfg, InitialState(), before), FailingReads(after)) + 1)
    ensures Ends(cfg, Exec(cfg, InitialState(), before), after)
  {
    hide Inv, Work, Offset;
    var s := Exec(cfg, InitialState(), before);
    InvInit(cfg);
    InvExec(cfg, InitialState(), before);
    WorkIsNatural(cfg, s, FailingReads(after));
    var work: nat := Work(cfg, s, FailingReads(after));
    EventsPerWork(w, work);
    assert Occurs(after, 0, w, true) && Occurs(after, 0, w, false);
    DueThreadComes(cfg, s, after, w, w, work);
  }

  // ----- closing

  /** The producer is parked with nobody left to answer it. */
  ghost predicate Hung(s: State) {
    s.c.Join? && s.p.Parked? && s.reaction == NoReaction
  }

  /** A read failure is pending, or the producer is past its test of `closing` and will read again. */
  ghost predicate ErrorCanStillPark(cfg: Config, s: State) {
    || s.p.Raise?
    || (s.p.Parked? && s.reaction == NoReaction)
    || s.p.Fill?
    || (s.p.Full? && s.blockCount != cfg.maxBlocks)
  }

  ghost predicate HangsUnder(cfg: Config, s: State, schedule: seq<Event>)
    requires cfg.Valid()
  {
    Hung(Exec(cfg, s, schedule))
  }

  lemma {:induction false} HungForEver(cfg: Config, s: State, schedule: seq<Event>)
    requires cfg.Valid() && Hung(s)
    ensures Exec(cfg, s, schedule) == s
    decreases schedule
  {
    if schedule != [] {
      HungForEver(cfg, s, schedule[1..]);
    }
  }

  lemma {:induction false} CloseCannotHang(cfg: Config, s: State, schedule: seq<Event>)
    requires Inv(cfg, s) && (s.c.Join? || s.c.Drain? || s.c.Closed?) && !ErrorCanStillPark(cfg, s)
    ensures !HangsUnder(cfg, s, schedule)
    decreases schedule
  {
    hide Transfer, CallResult, Settled, RoundInv, LogInv, ListInv, ProducerInv, Offset, PositionInv;
    if schedule != [] {
      InvNext(cfg, s, schedule[0]);
      CloseCannotHang(cfg, Next(cfg, s, schedule[0]), schedule[1..]);
    }
  }

  lemma CloseCanHang(cfg: Config, s: State) returns (schedule: seq<Event>)
    requires Inv(cfg, s) && s.c.Join? && ErrorCanStillPark(cfg, s)
    ensures HangsUnder(cfg, s, schedule)
  {
    hide Transfer, CallResult, Settled, RoundInv, LogInv, ListInv, Offset, PositionInv;
    var fail := Producer(0, 0);
    var s1 := Next(cfg, s, fail);
    var s2 := Next(cfg, s1, fail);
    var s3 := Next(cfg, s2, fail);
    schedule := if s.p.Parked? then [] else if s.p.Raise? then [fail] else if s.p.Fill?
        then [fail, fail] else [fail, fail, fail];
    assert [fail][1..] == [] && [fail, fail][1..] == [fail] && [fail, fail, fail][1..] == [fail, fail];
    assert Exec(cfg, s2, [fail]) == s3;
    assert Exec(cfg, s1, [fail]) == s2;
    assert Exec(cfg, s, [fail]) == s1;
    assert Exec(cfg, s1, [fail, fail]) == s3;
  }

  /** The producer can be parked with nobody left to answer it exactly when a failure is pending or a read to come. */
  lemma CloseHangsIff(cfg: Config, before: seq<Event>)
    requires cfg.Valid() && Exec(cfg, InitialState(), before).c.Join?
    ensures var s := Exec(cfg, InitialState(), before);
      (exists schedule :: HangsUnder(cfg, s, schedule)) <==> ErrorCanStillPark(cfg, s)
  {
    var s := Exec(cfg, InitialState(), before);
    InvInit(cfg);
    InvExec(cfg, InitialState(), before);
    if ErrorCanStillPark(cfg, s) {
      var schedule := CloseCanHang(cfg, s);
    } else {
      forall schedule
        ensures !HangsUnder(cfg, s, schedule)
      {
        CloseCannotHang(cfg, s, schedule);
      }
    }
  }

  // ----- closing that comes to its end

  ghost predicate Closing(c: ConsumerPc) {
    c.Join? || c.Drain? || c.Closed?
  }

  ghost function CloseProducerRank(s: State): nat {
    match s.p
    case Test => 3
    case Full => 4
    case Append(_) => 5
    case Parked => if s.reaction == Retry then 5 else 3
    case Seek => 4
    case Finish => 2
    case _ => 0
  }

  /** Steps that a close still needs when nothing can park the producer. */
  ghost function CloseWork(s: State): nat {
    match s.c
    case Join => CloseProducerRank(s) + |s.list| + 3 + (if s.p.Append? then 1 else 0)
    case Drain => |s.list| + 1
    case _ => 0
  }

  /** The step of the thread that is due, true for the producer, gets on with the close; no step sets it back. */
  ghost predicate CloseAdvances(s: State, s': State, due: bool) {
    || s'.c.Closed?
    || (&& Closing(s'.c) && CloseWork(s') <= CloseWork(s)
        && (CloseWork(s') < CloseWork(s) || (!due && s'.p.Exited? == s.p.Exited?)))
  }

  lemma CloseProducerStep(cfg: Config, s: State, got: nat, junk: nat)
    requires Inv(cfg, s) && Closing(s.c) && !s.c.Closed? && !ErrorCanStillPark(cfg, s)
    ensures var s' := ProducerStep(cfg, s, got, junk);
      !ErrorCanStillPark(cfg, s') && CloseAdvances(s, s', !s.p.Exited?)
  {
    hide Transfer, CallResult, Settled, RoundInv, LogInv, ListInv, ProducerInv, Offset, PositionInv, CallInv;
  }

  lemma CloseConsumerStep(cfg: Config, s: State, request: Request, cancel: bool, written: int)
    requires Inv(cfg, s) && Closing(s.c) && !s.c.Closed? && !ErrorCanStillPark(cfg, s)
    ensures var s' := ConsumerStep(cfg, s, request, cancel, written);
      !ErrorCanStillPark(cfg, s') && CloseAdvances(s, s', s.p.Exited?)
  {
    hide Transfer, CallResult, Settled, RoundInv, LogInv, ListInv, ProducerInv, Offset, PositionInv, CallInv;
  }

  lemma CloseStepAdvances(cfg: Config, s: State, e: Event)
    requires Inv(cfg, s) && Closing(s.c) && !s.c.Closed? && !ErrorCanStillPark(cfg, s)
    ensures !ErrorCanStillPark(cfg, Next(cfg, s, e)) && CloseAdvances(s, Next(cfg, s, e), e.Producer? != s.p.Exited?)
  {
    hide Inv, CloseAdvances, ErrorCanStillPark, ProducerStep, ConsumerStep;
    match e
    case Producer(got, junk) => CloseProducerStep(cfg, s, got, junk);
    case Consumer(request, cancel, written) => CloseConsumerStep(cfg, s, request, cancel, written);
  }

  /** mappedFile_close has returned after some prefix of the schedule. */
  ghost predicate CloseEnds(cfg: Config, s: State, schedule: seq<Event>)
    requires cfg.Valid()
  {
    exists k :: 0 <= k <= |schedule| && Exec(cfg, s, schedule[..k]).c.Closed?
  }

  lemma CloseEndsLater(cfg: Config, s: State, schedule: seq<Event>)
    requires cfg.Valid() && schedule != []
    requires CloseEnds(cfg, Next(cfg, s, schedule[0]), schedule[1..])
    ensures CloseEnds(cfg, s, schedule)
  {
    var k :| 0 <= k <= |schedule[1..]| && Exec(cfg, Next(cfg, s, schedule[0]), schedule[1..][..k]).c.Closed?;
    assert schedule[..k + 1][1..] == schedule[1..][..k];
    assert Exec(cfg, s, schedule[..k + 1]).c.Closed?;
  }

  lemma CloseEndsNow(cfg: Config, s: State, schedule: seq<Event>)
    requires cfg.Valid() && s.c.Closed?
    ensures CloseEnds(cfg, s, schedule)
  {
    assert Exec(cfg, s, schedule[..0]).c.Closed?;
  }

  lemma {:induction false} CloseComes(cfg: Config, s: State, schedule: seq<Event>, w: nat, left: nat, work: nat)
    requires Inv(cfg, s) && Closing(s.c) && !s.c.Closed? && !ErrorCanStillPark(cfg, s) && Fair(schedule, w)
    requires CloseWork(s) <= work && |schedule| >= left + Offset(w, work)
    requires Occurs(schedule, 0, left, !s.p.Exited?)
    ensures CloseEnds(cfg, s, schedule)
    decreases schedule
  {
    assert cfg.Valid();
    hide Inv, CloseWork, ErrorCanStillPark, CloseEnds;
    var e, tail := schedule[0], schedule[1..];
    var s' := Next(cfg, s, e);
    InvNext(cfg, s, e);
    CloseStepAdvances(cfg, s, e);
    if s'.c.Closed? {
      CloseEndsNow(cfg, s', tail);
    } else {
      FairTail(schedule, w);
      if CloseWork(s') < CloseWork(s) {
        assert Occurs(tail, 0, w, true) && Occurs(tail, 0, w, false);
        CloseComes(cfg, s', tail, w, w, work - 1);
      } else {
        var due := !s.p.Exited?;
        var j :| 0 <= j < left && j < |schedule| && schedule[j].Producer? == due;
        assert tail[j - 1].Producer? == due;
        CloseComes(cfg, s', tail, w, left - 1, work);
      }
    }
    CloseEndsLater(cfg, s, schedule);
  }

  /** Every fair schedule that is long enough brings the close to its end. */
  ghost predicate CloseReturns(cfg: Config, s: State)
    requires cfg.Valid()
  {
    forall after: seq<Event>, w: nat :: Fair(after, w) && |after| >= w * (CloseWork(s) + 1) ==> CloseEnds(cfg, s, after)
  }

  lemma FairCloseReturns(cfg: Config, before: seq<Event>, after: seq<Event>, w: nat)
    requires cfg.Valid() && Exec(cfg, InitialState(), before).c.Join?
    requires !ErrorCanStillPark(cfg, Exec(cfg, InitialState(), before))
    requires Fair(after, w) && |after| >= w * (CloseWork(Exec(cfg, InitialState(), before)) + 1)
    ensures CloseEnds(cfg, Exec(cfg, InitialState(), before), after)
  {
    hide Inv, CloseWork, Offset, ErrorCanStillPark, CloseEnds;
    var s := Exec(cfg, InitialState(), before);
    InvInit(cfg);
    InvExec(cfg, InitialState(), before);
    EventsPerWork(w, CloseWork(s));
    assert Occurs(after, 0, w, true) && Occurs(after, 0, w, false);
    CloseComes(cfg, s, after, w, w, CloseWork(s));
  }

  // ----- closing that does not

  lemma {:induction false} ExecConcat(cfg: Config, s: State, x: seq<Event>, y: seq<Event>)
    requires cfg.Valid()
    ensures Exec(cfg, s, x + y) == Exec(cfg, Exec(cfg, s, x), y)
    decreases x
  {
    if x == [] {
      assert x + y == y;
    } else {
      assert (x + y)[1..] == x[1..] + y;
      ExecConcat(cfg, Next(cfg, s, x[0]), x[1..], y);
    }
  }

  lemma {:induction false} ClosedForEver(cfg: Config, s: State, schedule: seq<Event>)
    requires cfg.Valid() && s.c.Closed?
    ensures Exec(cfg, s, schedule).c.Closed?
    decreases schedule
  {
    if schedule != [] {
      ClosedForEver(cfg, Next(cfg, s, schedule[0]), schedule[1..]);
    }
  }

  /** Both threads in turn. */
  function InTurn(n: nat): (r: seq<Event>)
    ensures |r| == n && forall i :: 0 <= i < n ==> r[i].Producer? == (i % 2 == 0)
  {
    seq(n, i requires 0 <= i => if i % 2 == 0 then Producer(1, 0) else Consumer(Stay, false, 0))
  }

  lemma InTurnIsFair(front: seq<Event>, n: nat, w: nat)
    requires |front| + 2 <= w
    ensures Fair(front + InTurn(n), w)
  {
    var schedule := front + InTurn(n);
    forall i: nat, b: bool | i + w <= |schedule|
      ensures Occurs(schedule, i, w, b)
    {
      var j := i + w - 2;
      assert schedule[j] == InTurn(n)[j - |front|] && schedule[j + 1] == InTurn(n)[j + 1 - |front|];
      assert schedule[if schedule[j].Producer? == b then j else j + 1].Producer? == b;
    }
  }

  /** After a schedule that hangs, no schedule brings the close to its end, fair ones included. */
  lemma HungCloseNeverEnds(cfg: Config, s: State, front: seq<Event>, n: nat)
    requires cfg.Valid() && HangsUnder(cfg, s, front)
    ensures !CloseEnds(cfg, s, front + InTurn(n))
  {
    var schedule := front + InTurn(n);
    ExecConcat(cfg, s, front, InTurn(n));
    HungForEver(cfg, Exec(cfg, s, front), InTurn(n));
    forall k | 0 <= k <= |schedule|
      ensures !Exec(cfg, s, schedule[..k]).c.Closed?
    {
      if Exec(cfg, s, schedule[..k]).c.Closed? {
        assert schedule == schedule[..k] + schedule[k..];
        ExecConcat(cfg, s, schedule[..k], schedule[k..]);
        ClosedForEver(cfg, Exec(cfg, s, schedule[..k]), schedule[k..]);
      }
    }
  }

  /**
   mappedFile_close waits for the producer without answering it. From the join on it returns under every fair
   schedule if and only if no read failure is pending and the producer is not past its test of `closing` with
   a read still to come; otherwise some schedule parks the producer, and then no schedule ends the close.
   */
  lemma CloseReturnsIff(cfg: Config, before: seq<Event>)
    requires cfg.Valid() && Exec(cfg, InitialState(), before).c.Join?
    ensures var s := Exec(cfg, InitialState(), before);
      && (CloseReturns(cfg, s) <==> !ErrorCanStillPark(cfg, s))
      && ((exists schedule :: HangsUnder(cfg, s, schedule)) <==> ErrorCanStillPark(cfg, s))
  {
    hide Inv, CloseWork, ErrorCanStillPark, CloseEnds, HangsUnder, Fair;
    var s := Exec(cfg, InitialState(), before);
    CloseHangsIff(cfg, before);
    if ErrorCanStillPark(cfg, s) {
      var front :| HangsUnder(cfg, s, front);
      var w := |front| + 2;
      var n := w * (CloseWork(s) + 1);
      InTurnIsFair(front, n, w);
      HungCloseNeverEnds(cfg, s, front, n);
      assert !CloseReturns(cfg, s);
    } else {
      forall after: seq<Event>, w: nat | Fair(after, w) && |after| >= w * (CloseWork(s) + 1)
        ensures CloseEnds(cfg, s, after)
      {
        FairCloseReturns(cfg, before, after, w);
      }
    }
  }

  // ----- what a caller of mappedFile_close can see

  /** The caller closes the idle reader. */
  function Closes(cfg: Config, s: State): State
    requires cfg.Valid()
  {
    Next(cfg, s, Consumer(Close, false, 0))
  }

  /** Once everything has been read ahead, closing always comes to its end. */
  lemma CloseAtTheEndReturns(cfg: Config, before: seq<Event>)
    requires cfg.Valid() && Exec(cfg, InitialState(), before).c.Idle?
    requires Exec(cfg, InitialState(), before).ra == |cfg.data|
    ensures CloseReturns(cfg, Closes(cfg, Exec(cfg, InitialState(), before)))
  {
    hide Inv, CloseReturns, ErrorCanStillPark;
    var close := Consumer(Close, false, 0);
    var s := Exec(cfg, InitialState(), before);
    ExecConcat(cfg, InitialState(), before, [close]);
    assert [close][1..] == [];
    assert Exec(cfg, s, [close]) == Closes(cfg, s);
    InvInit(cfg);
    InvExec(cfg, InitialState(), before + [close]);
    NothingLeftToRead(cfg, Closes(cfg, s));
    CloseReturnsIff(cfg, before + [close]);
  }

  lemma NothingLeftToRead(cfg: Config, s: State)
    requires Inv(cfg, s) && s.ra == |cfg.data|
    ensures !ErrorCanStillPark(cfg, s)
  {
    hide Transfer, CallResult, Settled, RoundInv, LogInv, ListInv, PositionInv, CallInv, Offset;
  }

  /** Blocks are left to be read, there is room for two more, and nothing was cancelled. */
  ghost predicate StillReading(cfg: Config, s: State) {
    s.ra + cfg.B < |cfg.data| && s.blockCount + 1 < cfg.maxBlocks && s.cancels == 0
  }

  /** The same of a producer that is about to link a block, and of one that has linked it. */
  ghost predicate WillRead(cfg: Config, s: State) {
    && s.c.Idle? && s.cancels == 0 && s.ra < |cfg.data| && s.blockCount < cfg.maxBlocks
    && (s.p.Append? ==> StillReading(cfg, s))
  }

  ghost function StepsToRead(p: ProducerPc): nat {
    match p
    case Test => 1
    case Append(_) => 2
    case Seek => 2
    case Parked => 3
    case _ => 0
  }

  lemma OneStepToRead(cfg: Config, s: State)
    requires Inv(cfg, s) && WillRead(cfg, s) && !ErrorCanStillPark(cfg, Closes(cfg, s))
    ensures var s' := ProducerStep(cfg, s, 1, 0); WillRead(cfg, s') && StepsToRead(s'.p) < StepsToRead(s.p)
  {
    hide Transfer, CallResult, Settled, RoundInv, LogInv, ListInv, PositionInv, CallInv, Offset;
  }

  /** Left alone, the producer comes to a read. */
  lemma {:induction false} ComesToRead(cfg: Config, s: State) returns (front: seq<Event>)
    requires Inv(cfg, s) && WillRead(cfg, s)
    ensures forall e :: e in front ==> e.Producer?
    ensures Exec(cfg, s, front).c.Idle? && ErrorCanStillPark(cfg, Closes(cfg, Exec(cfg, s, front)))
    decreases StepsToRead(s.p)
  {
    assert cfg.Valid();
    hide Inv, ErrorCanStillPark;
    if ErrorCanStillPark(cfg, Closes(cfg, s)) {
      front := [];
    } else {
      OneStepToRead(cfg, s);
      InvNext(cfg, s, Producer(1, 0));
      var rest := ComesToRead(cfg, Next(cfg, s, Producer(1, 0)));
      front := [Producer(1, 0)] + rest;
      assert front[1..] == rest;
    }
  }

  /**
   While the reader is idle, has blocks left to read and room for them, and nothing was cancelled, the caller
   can be unlucky: some steps of the producer later, some failing read makes a close hang for ever.
   */
  lemma CloseWhileReadingCanHang(cfg: Config, before: seq<Event>) returns (front: seq<Event>, hang: seq<Event>)
    requires cfg.Valid() && Exec(cfg, InitialState(), before).c.Idle?
    requires StillReading(cfg, Exec(cfg, InitialState(), before))
    ensures forall e :: e in front ==> e.Producer?
    ensures var s := Exec(cfg, Exec(cfg, InitialState(), before), front);
      s.c.Idle? && HangsUnder(cfg, Closes(cfg, s), hang) && !CloseReturns(cfg, Closes(cfg, s))
  {
    hide Inv, CloseReturns, ErrorCanStillPark, HangsUnder;
    var close := Consumer(Close, false, 0);
    InvInit(cfg);
    InvExec(cfg, InitialState(), before);
    front := ComesToRead(cfg, Exec(cfg, InitialState(), before));
    ExecConcat(cfg, InitialState(), before, front);
    var s := Exec(cfg, InitialState(), before + front);
    ExecConcat(cfg, InitialState(), before + front, [close]);
    assert [close][1..] == [];
    assert Exec(cfg, s, [close]) == Closes(cfg, s);
    InvExec(cfg, InitialState(), before + front + [close]);
    hang := CloseCanHang(cfg, Closes(cfg, s));
    CloseReturnsIff(cfg, before + front + [close]);
  }
}
