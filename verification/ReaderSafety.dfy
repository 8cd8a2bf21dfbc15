/** What holds after every schedule of the threaded reader. */
module ReaderSafety {
  import opened Bytes
  import opened ReaderSpec
  import opened ThreadedReader
  import opened ReaderAnswers
  import opened FlatReader

  function Run(cfg: Config, schedule: seq<Event>): State
    requires cfg.Valid()
  {
    Exec(cfg, InitialState(), schedule)
  }

  lemma RunInv(cfg: Config, schedule: seq<Event>)
    requires cfg.Valid()
    ensures Inv(cfg, Run(cfg, schedule))
  {
    InvInit(cfg);
    InvExec(cfg, InitialState(), schedule);
  }

  /** The bytes [k * B, (k + 1) * B) of the file, as far as they exist. */
  function BlockBytes(data: seq<byte>, B: nat, k: nat): seq<byte> {
    data[Min(k * B, |data|)..Min(k * B + B, |data|)]
  }

  /** Where the call behind entry i of the log has to start: at 0, or where the call before it ended. */
  function StartOf(log: seq<Outcome>, first: nat, i: nat): nat
    requires i < |log|
  {
    if i == 0 then first
    else if log[i - 1].result.Returns? then log[i - 1].result.end
    else 0
  }

  /**
   The list is exactly the file blocks from the number disposed up to readaheadPos, its length is
   blockCount, and blockCount never exceeds maxBlocks although fullness is tested outside the lock.
   */
  lemma ListIsTheReadAheadWindow(cfg: Config, schedule: seq<Event>)
    requires cfg.Valid()
    ensures var s := Run(cfg, schedule);
      && s.blockCount == |s.list| <= cfg.maxBlocks
      && s.ra == Min((s.disposed + |s.list|) * cfg.B, |cfg.data|)
      && forall i :: 0 <= i < |s.list| ==> s.list[i] == BlockBytes(cfg.data, cfg.B, s.disposed + i)
  {
    hide Transfer, CallResult, Settled, RoundInv, LogInv, ListInv, ProducerInv, CallInv, ErrorInv, PositionInv,
      Offset, BlockBytes;
    RunInv(cfg, schedule);
    var s := Run(cfg, schedule);
    WindowOfList(cfg, s.ra, s.list, s.blockCount, s.produced, s.disposed);
  }

  lemma WindowOfList(cfg: Config, ra: nat, list: seq<seq<byte>>, blockCount: int, produced: nat, disposed: nat)
    requires cfg.Valid() && ListInv(cfg, ra, list, blockCount, produced, disposed)
    ensures blockCount == |list| <= cfg.maxBlocks && ra == Min((disposed + |list|) * cfg.B, |cfg.data|)
    ensures forall i :: 0 <= i < |list| ==> list[i] == BlockBytes(cfg.data, cfg.B, disposed + i)
  {
    hide Offset;
    OffsetIsMultiple(cfg.B, produced);
    forall i | 0 <= i < |list|
      ensures list[i] == BlockBytes(cfg.data, cfg.B, disposed + i)
    {
      OffsetIsMultiple(cfg.B, disposed + i);
      assert list[i] == cfg.Block(disposed + i);
    }
  }

  /**
   hasError is up only while the producer waits for it, each failure gets exactly one reaction, and
   a block read, first try or retry, starts with the descriptor at readaheadPos and reads on from there.
   */
  lemma ErrorHandshake(cfg: Config, schedule: seq<Event>)
    requires cfg.Valid()
    ensures var s := Run(cfg, schedule);
      && (s.hasError ==> s.p.Parked? && s.reaction == NoReaction)
      && s.failures == s.acks + (if s.p.Raise? || s.hasError then 1 else 0)
      && (s.p.Test? || s.p.Full? ==> s.fd == s.ra)
      && (s.p.Fill? ==> s.ra <= s.fd <= |cfg.data| && s.p.buf == cfg.data[s.ra..s.fd])
      && (s.p.Append? ==> s.ra < |cfg.data| && s.p.block == cfg.data[s.ra..Min(s.ra + cfg.B, |cfg.data|)])
  {
    RunInv(cfg, schedule);
  }

  /** A close that came to its end has joined the producer and freed every block that was ever linked, once. */
  lemma CloseFreesEveryBlock(cfg: Config, schedule: seq<Event>)
    requires cfg.Valid() && Run(cfg, schedule).c.Closed?
    ensures var s := Run(cfg, schedule);
      s.p.Exited? && s.complete && s.list == [] && s.blockCount == 0 && s.disposed == s.produced
  {
    RunInv(cfg, schedule);
  }

  /** What LogInv says of each entry. */
  lemma {:induction false} LogEntry(cfg: Config, clean: bool, log: seq<Outcome>, at: nat, i: nat)
    requires cfg.Valid() && LogInv(cfg, clean, log, at) && i < |log|
    ensures OutcomeOk(cfg, clean, log[i])
    ensures log[i].start == StartOf(log, 0, i)
    ensures log[|log| - 1].result.Returns? && log[|log| - 1].result.end == at
    decreases |log|
  {
    var front := log[..|log| - 1];
    if i < |front| {
      LogEntry(cfg, clean, front, log[|front|].start, i);
    } else if i > 0 {
      LogEntry(cfg, clean, front, log[i].start, i - 1);
    }
  }

  /**
   Under every interleaving and every pattern of short reads, failures, retries and cancellations, a
   copyToFiles that returned true appended exactly file[pos..pos+len) to every output and moved the
   position by len; one that returned false left a prefix of it in each output.
   */
  lemma CopyToFilesIsExact(cfg: Config, schedule: seq<Event>, i: nat)
    requires cfg.Valid() && i < |Run(cfg, schedule).log|
    ensures var o := Run(cfg, schedule).log[i];
      && o.result.Returns?
      && o.start == StartOf(Run(cfg, schedule).log, 0, i)
      && (o.call.Copy? && o.result.ok ==>
            && o.start < |cfg.data| && o.start + o.call.len <= |cfg.data|
            && o.result == Returns(true, Repeat(o.call.n, cfg.data[o.start..o.start + o.call.len]),
                o.start + o.call.len))
      && (o.call.Copy? && !o.result.ok ==>
            && |o.result.outs| == o.call.n
            && forall j :: 0 <= j < o.call.n ==>
                 o.result.outs[j] <= cfg.data[Min(o.start, |cfg.data|)..Min(o.start + o.call.len, |cfg.data|)])
  {
    RunInv(cfg, schedule);
    var s := Run(cfg, schedule);
    LogEntry(cfg, Clean(cfg, s), s.log, Position(s), i);
  }

  /** Where no callback says cancel and no write falls short, the run is clean. */
  lemma UndisturbedIsClean(cfg: Config, schedule: seq<Event>)
    requires cfg.Valid() && Undisturbed(cfg, schedule)
    ensures Run(cfg, schedule).cancels == 0 && Run(cfg, schedule).writeFailures == 0
  {
    hide Cancellations, ShortWrites;
    CountersAreAnswers(cfg, schedule);
  }

  /** With no callback saying cancel and no short write, every call that returned did what the sequential loop does. */
  lemma ThreadedRefinesSequential(cfg: Config, schedule: seq<Event>, i: nat)
    requires cfg.Valid() && cfg.maxBlocks >= 2 && Undisturbed(cfg, schedule) && i < |Run(cfg, schedule).log|
    ensures var o := Run(cfg, schedule).log[i];
      o.result == CallResult(cfg.data, cfg.B, o.start, o.call)
  {
    RunInv(cfg, schedule);
    UndisturbedIsClean(cfg, schedule);
    var s := Run(cfg, schedule);
    LogEntry(cfg, true, s.log, Position(s), i);
  }

  /** A request beyond the end of a file that does not end on a block boundary never returns. */
  lemma OverlongRequestNeverReturns(cfg: Config, schedule: seq<Event>, i: nat)
    requires cfg.Valid() && cfg.maxBlocks >= 2 && Undisturbed(cfg, schedule) && i < |Run(cfg, schedule).log|
    ensures var o := Run(cfg, schedule).log[i];
      o.start < |cfg.data| < o.start + o.call.Len() ==>
        |cfg.data| % cfg.B == 0 && o.result.Returns? && !o.result.ok && o.result.end == |cfg.data|
  {
    ThreadedRefinesSequential(cfg, schedule, i);
    CopyToFilesIsExact(cfg, schedule, i);
    var o := Run(cfg, schedule).log[i];
    if o.start < |cfg.data| < o.start + o.call.Len() {
      TransferOutOfRange(cfg.data, cfg.B, o.call, o.start, o.call.Len(), o.call.Targets());
    }
  }

  // ----- refinement of the flat reader

  /** The log the flat reader would write for the same calls, from position pos on. */
  function FlatLog(data: seq<byte>, pos: nat, log: seq<Outcome>): seq<Outcome>
    decreases |log|
  {
    if log == [] then []
    else
      var call := log[0].call;
      if call.Copy? && pos + call.len > |data| then []
      else
        var r := FlatResult(data, pos, call);
        [Outcome(call, pos, r)] + FlatLog(data, r.end, log[1..])
  }

  lemma {:induction false} LogIsFlat(cfg: Config, log: seq<Outcome>, pos: nat)
    requires cfg.Valid()
    requires forall i :: 0 <= i < |log| ==>
      && log[i].start == StartOf(log, pos, i)
      && log[i].result.Returns?
      && log[i].result == CallResult(cfg.data, cfg.B, log[i].start, log[i].call)
      && Fits(|cfg.data|, cfg.B, log[i].start, log[i].call)
    ensures FlatLog(cfg.data, pos, log) == log
    decreases |log|
  {
    if log != [] {
      assert log[0].start == StartOf(log, pos, 0) == pos;
      FitsAgree(cfg.data, cfg.B, pos, log[0].call);
      forall i | 0 <= i < |log| - 1
        ensures log[1..][i].start == StartOf(log[1..], log[0].result.end, i)
      {
        assert log[i + 1].start == StartOf(log, pos, i + 1);
      }
      LogIsFlat(cfg, log[1..], log[0].result.end);
    }
  }

  /**
   Any sequence of in-range, non-empty copies and single-block reads gives, on the threaded reader, the
   same bytes, results and positions as on the flat one.
   */
  lemma ThreadedRefinesFlat(cfg: Config, schedule: seq<Event>)
    requires cfg.Valid() && cfg.maxBlocks >= 2 && Undisturbed(cfg, schedule)
    requires forall o :: o in Run(cfg, schedule).log ==>
               && 0 < o.call.Len() && o.start + o.call.Len() <= |cfg.data|
               && (o.call.Read? ==> o.start % cfg.B + o.call.Len() <= cfg.B)
    ensures Run(cfg, schedule).log == FlatLog(cfg.data, 0, Run(cfg, schedule).log)
  {
    var s := Run(cfg, schedule);
    forall i | 0 <= i < |s.log|
      ensures s.log[i].start == StartOf(s.log, 0, i)
      ensures s.log[i].result.Returns?
      ensures s.log[i].result == CallResult(cfg.data, cfg.B, s.log[i].start, s.log[i].call)
    {
      CopyToFilesIsExact(cfg, schedule, i);
      ThreadedRefinesSequential(cfg, schedule, i);
    }
    LogIsFlat(cfg, s.log, 0);
  }

  // ----- the threshold

  /** A call failed although it was in range and no callback said cancel and no write fell short. */
  ghost predicate SpuriousFailure(cfg: Config, schedule: seq<Event>)
    requires cfg.Valid()
  {
    && Undisturbed(cfg, schedule)
    && exists i :: 0 <= i < |Run(cfg, schedule).log| && FailsInRange(cfg, Run(cfg, schedule).log[i])
  }

  predicate FailsInRange(cfg: Config, o: Outcome) {
    o.result.Returns? && !o.result.ok && o.start < |cfg.data| && o.start + o.call.Len() <= |cfg.data|
  }

  lemma NoSpuriousFailure(cfg: Config, schedule: seq<Event>)
    requires cfg.Valid() && cfg.maxBlocks >= 2
    ensures !SpuriousFailure(cfg, schedule)
  {
    if Undisturbed(cfg, schedule) {
      forall i | 0 <= i < |Run(cfg, schedule).log|
        ensures !FailsInRange(cfg, Run(cfg, schedule).log[i])
      {
        ThreadedRefinesSequential(cfg, schedule, i);
        var o := Run(cfg, schedule).log[i];
        if o.start < |cfg.data| && o.start + o.call.Len() <= |cfg.data| {
          TransferInRange(cfg.data, cfg.B, o.call, o.start, o.call.Len(), o.call.Targets());
        }
      }
    }
  }

  /**
   With room for fewer than two blocks the threshold is 0, so a consumer that comes before the first block
   finds none: any first call that is in range and not empty can fail.
   */
  lemma EagerConsumerFails(cfg: Config, call: Call) returns (schedule: seq<Event>)
    requires cfg.Valid() && cfg.maxBlocks < 2 && 0 < call.Len() <= |cfg.data|
    ensures SpuriousFailure(cfg, schedule)
  {
    var go := Consumer(Stay, false, cfg.B);
    schedule := [Consumer(Begin(call), false, cfg.B), go, go, go, go];
    UndisturbedByEvents(cfg, InitialState(), schedule);
    hide Cancellations, ShortWrites;
    var s0 := InitialState();
    var s1 := Next(cfg, s0, schedule[0]);
    var s2 := Next(cfg, s1, go);
    var s3 := Next(cfg, s2, go);
    var s4 := Next(cfg, s3, go);
    var s5 := Next(cfg, s4, go);
    assert s4.c.Get? && s4.list == [];
    assert schedule[1..] == [go, go, go, go] && [go, go, go, go][1..] == [go, go, go];
    assert [go, go, go][1..] == [go, go] && [go, go][1..] == [go] && [go][1..] == [];
    assert Exec(cfg, s4, [go]) == s5;
    assert Exec(cfg, s3, [go, go]) == s5;
    assert Exec(cfg, s2, [go, go, go]) == s5;
    assert Exec(cfg, s1, [go, go, go, go]) == s5;
    assert Run(cfg, schedule) == s5;
    assert s5.log[0] == Outcome(call, 0, Returns(false, s4.outs, 0));
    assert FailsInRange(cfg, Run(cfg, schedule).log[0]);
  }

  /** In-range calls fail only after a callback said cancel or a write fell short exactly when maxBlocks >= 2. */
  lemma NoSpuriousFailureIff(cfg: Config)
    requires cfg.Valid()
    ensures (forall schedule :: !SpuriousFailure(cfg, schedule)) <==> cfg.maxBlocks >= 2
  {
    if cfg.maxBlocks >= 2 {
      forall schedule
        ensures !SpuriousFailure(cfg, schedule)
      {
        NoSpuriousFailure(cfg, schedule);
      }
    } else {
      var schedule := EagerConsumerFails(cfg, Copy(1, 1));
    }
  }
}
