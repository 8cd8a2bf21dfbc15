/**
 What the answers of the surroundings do to the threaded reader: a callback that says cancel or not, and a
 write that takes all it is given or not. Both are counted from the events of the schedule.
 */
module ReaderAnswers {
  import opened Bytes
  import opened ReaderSpec
  import opened ThreadedReader

  // ----- answers in a schedule

  /** The callback is called in this event and says cancel. */
  predicate SaysCancel(cfg: Config, s: State, e: Event) {
    e.Consumer? && s.c.Callback? && cfg.hasCallback && e.cancel
  }

  /** write() is called in this event and takes less than it is given. */
  predicate WritesShort(cfg: Config, s: State, e: Event)
    requires cfg.Valid()
  {
    && e.Consumer? && s.c.Put? && s.c.i < |s.outs| && s.call.Copy?
    && s.pos <= |cfg.data| && e.written < ToCopy(|cfg.data|, cfg.B, s.pos, s.rem)
  }

  function Cancellations(cfg: Config, s: State, schedule: seq<Event>): nat
    requires cfg.Valid()
    decreases schedule
  {
    if schedule == [] then 0
    else
      (if SaysCancel(cfg, s, schedule[0]) then 1 else 0) + Cancellations(cfg, Next(cfg, s, schedule[0]), schedule[1..])
  }

  function ShortWrites(cfg: Config, s: State, schedule: seq<Event>): nat
    requires cfg.Valid()
    decreases schedule
  {
    if schedule == [] then 0
    else
      (if WritesShort(cfg, s, schedule[0]) then 1 else 0) + ShortWrites(cfg, Next(cfg, s, schedule[0]), schedule[1..])
  }

  /** In the whole run, no callback says cancel and no write falls short. */
  predicate Undisturbed(cfg: Config, schedule: seq<Event>)
    requires cfg.Valid()
  {
    Cancellations(cfg, InitialState(), schedule) == 0 && ShortWrites(cfg, InitialState(), schedule) == 0
  }

  /** It is so when there is no callback or it never says cancel, and write() takes whole blocks. */
  lemma {:induction false} UndisturbedByEvents(cfg: Config, s: State, schedule: seq<Event>)
    requires cfg.Valid()
    requires forall e :: e in schedule && e.Consumer? ==> !(cfg.hasCallback && e.cancel) && e.written >= cfg.B
    ensures Cancellations(cfg, s, schedule) == 0 && ShortWrites(cfg, s, schedule) == 0
    decreases schedule
  {
    hide Next;
    if schedule != [] {
      UndisturbedByEvents(cfg, Next(cfg, s, schedule[0]), schedule[1..]);
    }
  }

  // ----- the reader keeps count

  function Pending(s: State): nat {
    if s.c == Acknowledge(Cancel) then 1 else 0
  }

  lemma PutCounts(cfg: Config, s: State, e: Event)
    requires Inv(cfg, s) && e.Consumer? && s.c.Put?
    ensures var s' := Next(cfg, s, e);
      && s'.cancels == s.cancels && Pending(s') == 0
      && s'.writeFailures == s.writeFailures + (if WritesShort(cfg, s, e) then 1 else 0)
  {
    hide Transfer, CallResult, Settled, RoundInv, LogInv, ListInv, ProducerInv, ErrorInv, Chunk, ToCopy, Slice, PutStep,
      Offset;
    ChunkLength(cfg, s);
    PutStepCounts(cfg, s, s.c.i, s.c.cur, s.c.before, e.written);
  }

  lemma ChunkLength(cfg: Config, s: State)
    requires Inv(cfg, s) && s.c.Put?
    ensures s.pos <= |cfg.data| && |Chunk(cfg, s.pos, s.rem, s.c.cur)| == ToCopy(|cfg.data|, cfg.B, s.pos, s.rem)
  {
    hide Transfer, CallResult, Settled, RoundInv, LogInv, ListInv, ProducerInv, ErrorInv, Chunk, ToCopy, Offset,
      CallInv;
    ChunkIsFileBytes(cfg, s);
  }

  lemma PutStepCounts(cfg: Config, s: State, i: nat, cur: seq<byte>, before: seq<seq<byte>>, written: int)
    requires cfg.Valid()
    ensures var s' := PutStep(cfg, s, i, cur, before, written);
      && s'.cancels == s.cancels && !s'.c.Acknowledge?
      && s'.writeFailures
           == s.writeFailures
              + (if i < |s.outs| && s.call.Copy? && written < |Chunk(cfg, s.pos, s.rem, cur)| then 1 else 0)
  {
    hide Chunk, Slice;
  }

  lemma StepCounts(cfg: Config, s: State, e: Event)
    requires Inv(cfg, s)
    ensures var s' := Next(cfg, s, e);
      && s'.cancels + Pending(s') == s.cancels + Pending(s) + (if SaysCancel(cfg, s, e) then 1 else 0)
      && s'.writeFailures == s.writeFailures + (if WritesShort(cfg, s, e) then 1 else 0)
  {
    hide Transfer, CallResult, Settled, RoundInv, LogInv, ListInv, ProducerInv, Chunk, ToCopy, Slice, PutStep, Offset;
    if e.Consumer? && s.c.Put? {
      PutCounts(cfg, s, e);
    }
  }

  lemma {:induction false} RunCounts(cfg: Config, s: State, schedule: seq<Event>)
    requires Inv(cfg, s)
    ensures var end := Exec(cfg, s, schedule);
      && end.cancels + Pending(end) == s.cancels + Pending(s) + Cancellations(cfg, s, schedule)
      && end.writeFailures == s.writeFailures + ShortWrites(cfg, s, schedule)
    decreases schedule
  {
    assert cfg.Valid();
    hide Inv, Next, Pending, SaysCancel, WritesShort;
    if schedule != [] {
      StepCounts(cfg, s, schedule[0]);
      InvNext(cfg, s, schedule[0]);
      RunCounts(cfg, Next(cfg, s, schedule[0]), schedule[1..]);
    }
  }

  /**
   The counters of a run are the answers of its schedule: every cancellation comes from a callback that said
   so, every write failure from a write that fell short, and none gets lost.
   */
  lemma CountersAreAnswers(cfg: Config, schedule: seq<Event>)
    requires cfg.Valid()
    ensures var s := Exec(cfg, InitialState(), schedule);
      && s.cancels == Cancellations(cfg, InitialState(), schedule) - (if s.c == Acknowledge(Cancel) then 1 else 0)
      && s.writeFailures == ShortWrites(cfg, InitialState(), schedule)
  {
    InvInit(cfg);
    hide Inv;
    RunCounts(cfg, InitialState(), schedule);
  }

  // ----- cancel

  /** The producer has been told to cancel, or is past that. */
  predicate Leaving(p: ProducerPc, reaction: Reaction) {
    (p.Parked? && reaction == Cancel) || p.Finish? || p.Exited?
  }

  lemma LeavingStays(cfg: Config, s: State, e: Event)
    requires Inv(cfg, s) && Leaving(s.p, s.reaction)
    ensures var s' := Next(cfg, s, e); Leaving(s'.p, s'.reaction) && s'.ra == s.ra && s'.produced == s.produced
  {
    hide Transfer, CallResult, Settled, RoundInv, LogInv, ListInv, ProducerInv, Chunk, Slice, Offset;
  }

  lemma {:induction false} NothingMoreIsRead(cfg: Config, s: State, schedule: seq<Event>)
    requires Inv(cfg, s) && Leaving(s.p, s.reaction)
    ensures var end := Exec(cfg, s, schedule);
      Leaving(end.p, end.reaction) && end.ra == s.ra && end.produced == s.produced
    decreases schedule
  {
    assert cfg.Valid();
    hide Inv, Next, Leaving;
    if schedule != [] {
      LeavingStays(cfg, s, schedule[0]);
      InvNext(cfg, s, schedule[0]);
      NothingMoreIsRead(cfg, Next(cfg, s, schedule[0]), schedule[1..]);
    }
  }

  /**
   When the callback says cancel, the call returns false two consumer steps later with what it has moved so far,
   the error is down, and no schedule ever makes the producer read another block: two more steps of it end it.
   */
  lemma CancelEndsCallAndProducer(cfg: Config, s: State, answer: Event, ack: Event, later: seq<Event>)
    requires Inv(cfg, s) && s.c.Callback? && answer.Consumer? && ack.Consumer?
    requires cfg.hasCallback && answer.cancel
    ensures var s2 := Next(cfg, Next(cfg, s, answer), ack);
      && s2.c.Idle? && s2.log == s.log + [Outcome(s.call, s.start, Returns(false, s.outs, s.pos))] && !s2.hasError
      && Exec(cfg, s2, later).ra == s.ra && Exec(cfg, s2, later).produced == s.produced
      && Next(cfg, Next(cfg, s2, Producer(1, 0)), Producer(1, 0)).p.Exited?
      && Next(cfg, Next(cfg, s2, Producer(1, 0)), Producer(1, 0)).complete
  {
    hide Transfer, CallResult, Settled, RoundInv, LogInv, ListInv, ProducerInv, Chunk, Slice, Offset, PositionInv,
      CallInv;
    InvNext(cfg, s, answer);
    InvNext(cfg, Next(cfg, s, answer), ack);
    NothingMoreIsRead(cfg, Next(cfg, Next(cfg, s, answer), ack), later);
  }

  /**
   When there is no callback, or it does not say cancel, the call goes on waiting two consumer steps later, the
   error is down, and the producer seeks back to readaheadPos and begins the same block again.
   */
  lemma OtherwiseTheBlockIsReadAgain(cfg: Config, s: State, answer: Event, ack: Event)
    requires Inv(cfg, s) && s.c.Callback? && answer.Consumer? && ack.Consumer?
    requires !(cfg.hasCallback && answer.cancel)
    ensures var s2 := Next(cfg, Next(cfg, s, answer), ack);
      var go := Producer(1, 0);
      var s3 := Next(cfg, Next(cfg, s2, go), go);
      var s5 := Next(cfg, Next(cfg, s3, go), go);
      && s2.c.SpinCount? && s2.log == s.log && !s2.hasError
      && s3.p.Test? && s3.fd == s.ra == s3.ra
      && s5.p == Fill([]) && s5.fd == s.ra
  {
    hide Transfer, CallResult, Settled, RoundInv, LogInv, ListInv, Chunk, Slice, Offset, PositionInv, CallInv;
    InvNext(cfg, s, answer);
    InvNext(cfg, Next(cfg, s, answer), ack);
  }

  // ----- short writes

  /** A write that takes only part of what it is given makes the copy return false; the target keeps that part. */
  lemma ShortWriteEndsTheCopy(cfg: Config, s: State, e: Event)
    requires Inv(cfg, s) && WritesShort(cfg, s, e)
    ensures var s' := Next(cfg, s, e);
      var taken := if e.written < 0 then 0 else e.written;
      && s.pos + taken <= |cfg.data|
      && s'.c.Idle? && s'.pos == s.pos
      && s'.log == s.log + [Outcome(s.call, s.start, Returns(false, s'.outs, s.pos))]
      && s'.outs == s.outs[s.c.i := s.outs[s.c.i] + cfg.data[s.pos..s.pos + taken]]
  {
    hide Transfer, CallResult, Settled, LogInv, ListInv, ProducerInv, ErrorInv, Chunk, ToCopy, Offset;
    ChunkIsFileBytes(cfg, s);
    TakenPart(cfg.data, s.pos, ToCopy(|cfg.data|, cfg.B, s.pos, s.rem), if e.written < 0 then 0 else e.written);
  }

  lemma TakenPart(data: seq<byte>, pos: nat, t: nat, taken: nat)
    requires pos + t <= |data| && taken <= t
    ensures Slice(data[pos..pos + t], 0, taken) == data[pos..pos + taken]
  {
  }

  // ----- the threshold

  /** A block at hand is fetched at once. */
  lemma TakesABlockAtHand(cfg: Config, s: State, e: Event)
    requires cfg.Valid() && s.c.Entry? && e.Consumer?
    ensures Next(cfg, s, e).c == if s.blockCount >= 1 then Get else SpinCount
  {
  }

  /**
   Without a block at hand the consumer waits until maxBlocks / 2 blocks are there, and never for more than
   eight: it asks on only while there are fewer.
   */
  lemma WaitsForBlocks(cfg: Config, s: State, e: Event)
    requires cfg.Valid() && s.c.SpinCount? && e.Consumer?
    ensures Next(cfg, s, e).c == if s.blockCount < cfg.maxBlocks / 2 && s.blockCount < 8 then SpinComplete else Get
  {
  }
}
