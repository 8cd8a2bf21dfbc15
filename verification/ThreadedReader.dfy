/**
 The threaded read-ahead reader of installer/mappedfile_mt.c as a step system.

 A producer thread reads blocks of the file into a bounded list, a consumer thread drains them.
 Each region under a lock is one step and so is each test of a shared field made outside the locks.
 `Exec` runs a schedule: any sequence of events, each naming the thread that steps and what its
 surroundings (the disk, the callback, the target files, the caller) answered. Every interleaving
 and every pattern of short reads, failures and retries is the run of some schedule.
 */
module ThreadedReader {
  import opened Bytes
  import opened ReaderSpec

  /** The opened file, the block size and the bound on the list. mappedFile_open asserts a non-empty file. */
  datatype Config = Config(data: seq<byte>, B: nat, maxBlocks: nat, hasCallback: bool)
  {
    ghost predicate Valid() {
      B > 0 && data != []
    }

    /** Block number k of the file. */
    function Block(k: nat): seq<byte> {
      data[Min(Offset(B, k), |data|)..Min(Offset(B, k) + B, |data|)]
    }

    function Threshold(): nat {
      Min(maxBlocks / 2, 8)
    }

    /** Size of the block to be read ahead at offset ra. */
    function ToRead(ra: nat): nat {
      if ra <= |data| then Min(|data| - ra, B) else 0
    }
  }

  datatype Reaction = NoReaction | Retry | Cancel

  /** Where the producer is: threadFunc, readAhead1Block, readInternal and readAheadHandleError. */
  datatype ProducerPc =
    | Test                        // about to test closing and readaheadPos
    | Full                        // about to compare blockCount with maxBlocks
    | Fill(buf: seq<byte>)        // inside readInternal, buf already read
    | Append(block: seq<byte>)    // about to link the block into the list
    | Raise                       // about to flag the error
    | Parked                      // waiting for a reaction
    | Seek                        // about to seek back for a retry
    | Finish                      // about to set readaheadComplete
    | Exited

  /** Where the consumer is: the transfer loops, waitForValidBlockAndGet and close. */
  datatype ConsumerPc =
    | Idle
    | Loop                        // about to test len
    | Entry                       // about to test blockCount > 0
    | SpinCount                   // about to compare blockCount with the threshold
    | SpinComplete                // about to test readaheadComplete
    | SpinError                   // about to test hasError
    | Callback                    // about to ask what to do
    | Acknowledge(reaction: Reaction)
    | Get                         // about to fetch memFirst
    | Put(i: nat, cur: seq<byte>, before: seq<seq<byte>>) // target i is next
    | Dispose                     // about to free the drained block
    | Join                        // close: waiting for the producer
    | Drain                       // close: freeing what is left
    | Closed

  datatype Outcome = Outcome(call: Call, start: nat, result: Result)

  datatype State = State(
    fd: nat,                      // offset of the file descriptor
    pos: nat,
    ra: nat,                      // readaheadPos
    closing: bool,
    complete: bool,               // readaheadComplete
    hasError: bool,
    reaction: Reaction,
    blockCount: int,
    list: seq<seq<byte>>,         // memFirst .. memLast
    p: ProducerPc,
    c: ConsumerPc,
    // the call in progress
    call: Call,
    start: nat,
    rem: nat,
    outs: seq<seq<byte>>,
    // history: what happened so far, never read by the program
    produced: nat,
    disposed: nat,
    failures: nat,
    acks: nat,
    cancels: nat,
    writeFailures: nat,
    log: seq<Outcome>)

  function InitialState(): State {
    State(0, 0, 0, false, false, false, NoReaction, 0, [], Test, Idle,
          Copy(0, 0), 0, 0, [], 0, 0, 0, 0, 0, 0, [])
  }

  datatype Request = Stay | Begin(call: Call) | Close

  datatype Event =
    | Producer(got: nat, junk: nat)   // read() delivers up to `got` bytes; 0 = it failed, leaving the offset at junk
    | Consumer(request: Request, cancel: bool, written: int) // what the caller, the user and write() do

  // ----- the producer

  function ReadStep(cfg: Config, s: State, buf: seq<byte>, got: nat, junk: nat): State {
    var left := cfg.ToRead(s.ra) - |buf|;
    var k := Min(got, Min(left, |cfg.data| - s.fd));
    if k <= 0 then s.(p := Raise, fd := junk, failures := s.failures + 1)
    else
      var buf' := buf + Slice(cfg.data, s.fd, k);
      s.(fd := s.fd + k, p := if k == left then Append(buf') else Fill(buf'))
  }

  function ProducerStep(cfg: Config, s: State, got: nat, junk: nat): State {
    match s.p
    case Test => s.(p := if !s.closing && s.ra < |cfg.data| then Full else Finish)
    case Full => s.(p := if s.blockCount == cfg.maxBlocks then Test else Fill([]))
    case Fill(buf) => ReadStep(cfg, s, buf, got, junk)
    case Append(block) =>
      s.(ra := s.ra + cfg.ToRead(s.ra), blockCount := s.blockCount + 1, list := s.list + [block],
         produced := s.produced + 1, p := Test)
    case Raise => s.(reaction := NoReaction, hasError := true, p := Parked)
    case Parked =>
      if s.reaction == NoReaction then s else s.(p := if s.reaction == Cancel then Finish else Seek)
    case Seek => s.(fd := s.ra, p := Test)
    case Finish => s.(complete := true, p := Exited)
    case Exited => s
  }

  // ----- the consumer

  function Return(s: State, ok: bool): State {
    s.(c := Idle, log := s.log + [Outcome(s.call, s.start, Returns(ok, s.outs, s.pos))])
  }

  function DropFirst(s: State): State {
    s.(list := if s.list == [] then [] else s.list[1..], blockCount := s.blockCount - 1, disposed := s.disposed + 1)
  }

  function BeginCall(cfg: Config, s: State, call: Call): State {
    var s' := s.(call := call, start := s.pos, rem := call.Len(), outs := call.Targets());
    if s.pos >= |cfg.data| then Return(s', false) else s'.(c := Loop)
  }

  /** The bytes of the current block that this round transfers. */
  function Chunk(cfg: Config, pos: nat, rem: nat, cur: seq<byte>): seq<byte>
    requires cfg.Valid()
  {
    if pos <= |cfg.data| then Slice(cur, pos % cfg.B, ToCopy(|cfg.data|, cfg.B, pos, rem)) else []
  }

  function PutStep(cfg: Config, s: State, i: nat, cur: seq<byte>, before: seq<seq<byte>>, written: int): State
    requires cfg.Valid()
  {
    var chunk := Chunk(cfg, s.pos, s.rem, cur);
    if i >= |s.outs| then
      s.(pos := s.pos + |chunk|, rem := if s.rem >= |chunk| then s.rem - |chunk| else 0,
         c := if s.pos % cfg.B + |chunk| == cfg.B then Dispose else Loop)
    else if s.call.Copy? && (written < 0 || written < |chunk|) then
      var part := Slice(chunk, 0, if written < 0 then 0 else written);
      Return(s.(outs := s.outs[i := s.outs[i] + part], writeFailures := s.writeFailures + 1), false)
    else
      s.(outs := s.outs[i := s.call.Deliver(s.outs[i], chunk)], c := Put(i + 1, cur, before))
  }

  /** Steps that test one shared field, or ask the callback, and branch. */
  function Branch(cfg: Config, s: State, cancel: bool): ConsumerPc {
    match s.c
    case Entry => if s.blockCount > 0 then Get else SpinCount
    case SpinCount => if s.blockCount < cfg.Threshold() then SpinComplete else Get
    case SpinComplete => if s.complete then Get else SpinError
    case SpinError => if s.hasError then Callback else SpinCount
    case Callback => Acknowledge(if cfg.hasCallback && cancel then Cancel else Retry)
    case Join => if s.p.Exited? then Drain else Join
    case c => c
  }

  function ConsumerStep(cfg: Config, s: State, request: Request, cancel: bool, written: int): State
    requires cfg.Valid()
  {
    match s.c
    case Idle =>
      (match request
       case Stay => s
       case Begin(call) => BeginCall(cfg, s, call)
       case Close => s.(closing := true, c := Join))
    case Loop => if s.rem == 0 then Return(s, true) else s.(c := Entry)
    case Acknowledge(r) =>
      var s' := s.(hasError := false, reaction := r, acks := s.acks + 1);
      if r == Cancel then Return(s'.(cancels := s.cancels + 1), false) else s'.(c := SpinCount)
    case Get => if s.list == [] then Return(s, false) else s.(c := Put(0, s.list[0], s.outs))
    case Put(i, cur, before) => PutStep(cfg, s, i, cur, before, written)
    case Dispose => DropFirst(s).(c := Loop)
    case Drain => if s.list == [] then s.(c := Closed) else DropFirst(s)
    case _ => s.(c := Branch(cfg, s, cancel))
  }

  function Next(cfg: Config, s: State, e: Event): State
    requires cfg.Valid()
  {
    match e
    case Producer(got, junk) => ProducerStep(cfg, s, got, junk)
    case Consumer(request, cancel, written) => ConsumerStep(cfg, s, request, cancel, written)
  }

  function Exec(cfg: Config, s: State, schedule: seq<Event>): State
    requires cfg.Valid()
    decreases schedule
  {
    if schedule == [] then s else Exec(cfg, Next(cfg, s, schedule[0]), schedule[1..])
  }

  // ----- the invariant

  ghost predicate Active(c: ConsumerPc) {
    !(c.Idle? || c.Join? || c.Drain? || c.Closed?)
  }

  ghost predicate InSpin(c: ConsumerPc) {
    c.SpinCount? || c.SpinComplete? || c.SpinError?
  }

  ghost predicate Clean(cfg: Config, s: State) {
    s.cancels == 0 && s.writeFailures == 0 && cfg.maxBlocks >= 2
  }

  /** Where the next entry of the log starts. */
  ghost function Position(s: State): nat {
    if Active(s.c) then s.start else s.pos
  }

  /** The list is exactly the file blocks number disposed .. produced - 1, none empty, and never outgrows its bound. */
  ghost predicate ListInv(cfg: Config, ra: nat, list: seq<seq<byte>>, blockCount: int, produced: nat, disposed: nat) {
    && ra == Min(Offset(cfg.B, produced), |cfg.data|)
    && produced == disposed + |list|
    && (produced > 0 ==> Offset(cfg.B, produced - 1) < |cfg.data|)
    && blockCount == |list| <= cfg.maxBlocks
    && forall i :: 0 <= i < |list| ==> list[i] == cfg.Block(disposed + i)
  }

  /** A block read starts with the descriptor at readaheadPos, and with room in the list. */
  ghost predicate ProducerInv(cfg: Config, p: ProducerPc, fd: nat, ra: nat, blockCount: int) {
    match p
    case Test => fd == ra
    case Full => fd == ra < |cfg.data|
    case Fill(buf) =>
      && ra < |cfg.data| && blockCount < cfg.maxBlocks
      && |buf| < cfg.ToRead(ra) && fd == ra + |buf| && buf == cfg.data[ra..fd]
    case Append(block) =>
      && ra < |cfg.data| && blockCount < cfg.maxBlocks
      && fd == ra + cfg.ToRead(ra) && block == cfg.data[ra..fd]
    case Finish => true
    case Exited => true
    case _ => ra < |cfg.data| && blockCount < cfg.maxBlocks
  }

  /** hasError is up exactly while the producer waits, and every failure gets exactly one reaction. */
  ghost predicate ErrorInv(cfg: Config, s: State) {
    && (s.hasError <==> s.p.Parked? && s.reaction == NoReaction)
    && s.failures == s.acks + (if s.p.Raise? || s.hasError then 1 else 0)
    && (s.p.Parked? && s.reaction == Cancel ==> s.cancels > 0)
    && (s.p.Finish? || s.p.Exited? ==> s.ra == |cfg.data| || s.closing || s.cancels > 0)
    && (s.complete <==> s.p.Exited?)
    && (s.c.Callback? || s.c.Acknowledge? ==> s.hasError)
    && (s.c.Acknowledge? ==> s.c.reaction != NoReaction)
    && (s.closing <==> s.c.Join? || s.c.Drain? || s.c.Closed?)
    && (s.c.Drain? || s.c.Closed? ==> s.p.Exited?)
    && (s.c.Closed? ==> s.list == [])
  }

  ghost predicate PositionInv(cfg: Config, c: ConsumerPc, pos: nat, list: seq<seq<byte>>, disposed: nat) {
    && pos <= |cfg.data|
    && (c.Idle? || Active(c) ==>
          if c.Dispose? then list != [] && pos == Offset(cfg.B, disposed) + cfg.B
          else Offset(cfg.B, disposed) <= pos < Offset(cfg.B, disposed) + cfg.B)
  }

  /** The targets hold what the transfer loop has moved up to pos. */
  ghost predicate Settled(cfg: Config, call: Call, start: nat, pos: nat, rem: nat, outs: seq<seq<byte>>)
    requires cfg.Valid()
  {
    && start <= pos <= |cfg.data|
    && start < |cfg.data|
    && pos - start + rem == call.Len()
    && CallResult(cfg.data, cfg.B, start, call) == Transfer(cfg.data, cfg.B, call, pos, rem, outs)
    && (call.Copy? ==> outs == Repeat(call.n, cfg.data[start..pos]))
  }

  /** A round in progress: the first i targets have received the chunk of the first listed block. */
  ghost predicate RoundInv(cfg: Config, call: Call, start: nat, pos: nat, rem: nat, outs: seq<seq<byte>>,
                           list: seq<seq<byte>>, i: nat, cur: seq<byte>, before: seq<seq<byte>>)
    requires cfg.Valid()
  {
    && Settled(cfg, call, start, pos, rem, before)
    && list != [] && cur == list[0]
    && i <= |outs| && outs == call.DeliverUpto(before, Chunk(cfg, pos, rem, cur), i)
  }

  ghost predicate CallInv(cfg: Config, s: State)
    requires cfg.Valid()
  {
    && (s.c.Put? ==> RoundInv(cfg, s.call, s.start, s.pos, s.rem, s.outs, s.list, s.c.i, s.c.cur, s.c.before))
    && (Active(s.c) && !s.c.Put? ==> Settled(cfg, s.call, s.start, s.pos, s.rem, s.outs))
    && (Active(s.c) && !s.c.Loop? && !s.c.Dispose? ==> s.rem > 0)
    && (s.c.Get? ==> s.list != [] || cfg.Threshold() == 0 || s.p.Exited?)
  }

  /** A copy that succeeded has appended exactly the requested bytes to every target. */
  ghost predicate CopyExact(data: seq<byte>, o: Outcome) {
    o.result.Returns? && o.result.ok && o.call.Copy? ==>
      && o.start < |data| && o.start + o.call.len <= |data|
      && o.result.end == o.start + o.call.len
      && o.result.outs == Repeat(o.call.n, data[o.start..o.start + o.call.len])
  }

  /** A copy that failed has appended a prefix of the requested bytes to every target. */
  ghost predicate CopyPrefix(data: seq<byte>, o: Outcome) {
    o.result.Returns? && !o.result.ok && o.call.Copy? ==>
      && |o.result.outs| == o.call.n
      && forall j :: 0 <= j < o.call.n ==>
           o.result.outs[j] <= data[Min(o.start, |data|)..Min(o.start + o.call.len, |data|)]
  }

  ghost predicate OutcomeOk(cfg: Config, clean: bool, o: Outcome)
    requires cfg.Valid()
  {
    && o.result.Returns?
    && CopyExact(cfg.data, o)
    && CopyPrefix(cfg.data, o)
    && (clean ==> o.result == CallResult(cfg.data, cfg.B, o.start, o.call))
  }

  /** The log is a chain of calls in order, each starting where the one before it ended. */
  ghost predicate LogInv(cfg: Config, clean: bool, log: seq<Outcome>, at: nat)
    requires cfg.Valid()
    decreases |log|
  {
    if log == [] then at == 0
    else
      var last := log[|log| - 1];
      && OutcomeOk(cfg, clean, last)
      && last.result.end == at
      && LogInv(cfg, clean, log[..|log| - 1], last.start)
  }

  ghost predicate Inv(cfg: Config, s: State) {
    && cfg.Valid()
    && ListInv(cfg, s.ra, s.list, s.blockCount, s.produced, s.disposed)
    && ProducerInv(cfg, s.p, s.fd, s.ra, s.blockCount)
    && ErrorInv(cfg, s)
    && PositionInv(cfg, s.c, s.pos, s.list, s.disposed)
    && CallInv(cfg, s)
    && LogInv(cfg, Clean(cfg, s), s.log, Position(s))
  }

  lemma InvInit(cfg: Config)
    requires cfg.Valid()
    ensures Inv(cfg, InitialState())
  {
    hide Transfer, CallResult, Settled;
  }

  // ----- every producer step keeps the invariant

  lemma InvRead(cfg: Config, s: State, got: nat, junk: nat)
    requires Inv(cfg, s) && s.p.Fill?
    ensures Inv(cfg, ReadStep(cfg, s, s.p.buf, got, junk))
  {
    hide Transfer, CallResult, Settled, RoundInv, LogInv, ListInv, PositionInv;
    var s' := ReadStep(cfg, s, s.p.buf, got, junk);
    if !s'.p.Raise? {
      assert cfg.data[s.ra..s.fd] + cfg.data[s.fd..s'.fd] == cfg.data[s.ra..s'.fd];
    }
  }

  lemma ListAppend(cfg: Config, s: State, block: seq<byte>)
    requires Inv(cfg, s) && s.p == Append(block)
    ensures ListInv(cfg, s.ra + cfg.ToRead(s.ra), s.list + [block], s.blockCount + 1, s.produced + 1, s.disposed)
  {
    assert block == cfg.Block(s.produced);
  }

  lemma InvAppend(cfg: Config, s: State)
    requires Inv(cfg, s) && s.p.Append?
    ensures Inv(cfg, ProducerStep(cfg, s, 0, 0))
  {
    hide Transfer, CallResult, Settled, LogInv, ListInv, Offset;
    var s' := ProducerStep(cfg, s, 0, 0);
    ListAppend(cfg, s, s.p.block);
    assert PositionInv(cfg, s'.c, s'.pos, s'.list, s'.disposed);
    if s.c.Put? {
      assert s'.list[0] == s.list[0];
    }
    assert CallInv(cfg, s');
  }

  /** The steps that leave the list alone. */
  lemma ProducerControl(cfg: Config, s: State)
    requires cfg.Valid() && !s.p.Fill? && !s.p.Append?
    requires s.ra <= |cfg.data| && s.blockCount <= cfg.maxBlocks
    requires ProducerInv(cfg, s.p, s.fd, s.ra, s.blockCount) && ErrorInv(cfg, s)
    ensures var s' := ProducerStep(cfg, s, 0, 0);
      ProducerInv(cfg, s'.p, s'.fd, s'.ra, s'.blockCount) && ErrorInv(cfg, s')
  {
    hide Transfer, CallResult, Settled, LogInv;
  }

  lemma InvProducerControl(cfg: Config, s: State)
    requires Inv(cfg, s) && !s.p.Fill? && !s.p.Append?
    ensures Inv(cfg, ProducerStep(cfg, s, 0, 0))
  {
    hide Transfer, CallResult, Settled, LogInv;
    ProducerControl(cfg, s);
  }

  lemma InvProducer(cfg: Config, s: State, got: nat, junk: nat)
    requires Inv(cfg, s)
    ensures Inv(cfg, ProducerStep(cfg, s, got, junk))
  {
    match s.p {
      case Fill(buf) => InvRead(cfg, s, got, junk);
      case Append(block) => InvAppend(cfg, s);
      case _ => InvProducerControl(cfg, s);
    }
  }

  // ----- every consumer step keeps the invariant

  lemma {:induction false} LogWeaken(cfg: Config, clean: bool, clean': bool, log: seq<Outcome>, at: nat)
    requires cfg.Valid() && LogInv(cfg, clean, log, at) && (clean' ==> clean)
    ensures LogInv(cfg, clean', log, at)
    decreases |log|
  {
    if log != [] {
      LogWeaken(cfg, clean, clean', log[..|log| - 1], log[|log| - 1].start);
    }
  }

  lemma LogReturn(cfg: Config, clean: bool, clean': bool, log: seq<Outcome>, o: Outcome)
    requires cfg.Valid() && LogInv(cfg, clean, log, o.start) && (clean' ==> clean)
    requires OutcomeOk(cfg, clean', o)
    ensures LogInv(cfg, clean', log + [o], o.result.end)
  {
    LogWeaken(cfg, clean, clean', log, o.start);
    assert (log + [o])[..|log|] == log;
  }

  /** A copy that stops early has moved a prefix of what was asked for. */
  lemma SettledPrefix(cfg: Config, call: Call, start: nat, pos: nat, rem: nat, outs: seq<seq<byte>>)
    requires cfg.Valid() && Settled(cfg, call, start, pos, rem, outs)
    ensures CopyPrefix(cfg.data, Outcome(call, start, Returns(false, outs, pos)))
  {
  }

  lemma InvBegin(cfg: Config, s: State, call: Call)
    requires Inv(cfg, s) && s.c.Idle?
    ensures Inv(cfg, BeginCall(cfg, s, call))
  {
    hide ListInv, ProducerInv;
    var clean := Clean(cfg, s);
    if s.pos >= |cfg.data| {
      var o := Outcome(call, s.pos, Returns(false, call.Targets(), s.pos));
      LogReturn(cfg, clean, clean, s.log, o);
    } else {
      assert cfg.data[s.pos..s.pos] == [];
      assert Settled(cfg, call, s.pos, s.pos, call.Len(), call.Targets());
    }
  }

  lemma InvAcknowledge(cfg: Config, s: State)
    requires Inv(cfg, s) && s.c.Acknowledge?
    ensures Inv(cfg, ConsumerStep(cfg, s, Stay, false, 0))
  {
    hide Transfer, CallResult, ListInv, ProducerInv;
    if s.c.reaction == Cancel {
      var o := Outcome(s.call, s.start, Returns(false, s.outs, s.pos));
      SettledPrefix(cfg, s.call, s.start, s.pos, s.rem, s.outs);
      LogReturn(cfg, Clean(cfg, s), false, s.log, o);
    }
  }

  /** An empty list at Get: without a cancellation, the whole file has been drained. */
  lemma DrainedToTheEnd(cfg: Config, s: State)
    requires Inv(cfg, s) && s.c.Get? && s.list == [] && Clean(cfg, s)
    ensures s.pos == |cfg.data| && |cfg.data| % cfg.B == 0
  {
    hide Transfer, CallResult, Settled, LogInv, ProducerInv;
    assert s.ra == |cfg.data|;
    ModOfOffset(s.pos, s.disposed, cfg.B);
  }

  lemma EmptyGetOutcome(cfg: Config, s: State)
    requires Inv(cfg, s) && s.c.Get? && s.list == []
    ensures OutcomeOk(cfg, Clean(cfg, s), Outcome(s.call, s.start, Returns(false, s.outs, s.pos)))
  {
    hide LogInv, ListInv, ProducerInv, PositionInv, ErrorInv;
    SettledPrefix(cfg, s.call, s.start, s.pos, s.rem, s.outs);
    if Clean(cfg, s) {
      DrainedToTheEnd(cfg, s);
    }
  }

  lemma InvGet(cfg: Config, s: State)
    requires Inv(cfg, s) && s.c.Get?
    ensures Inv(cfg, ConsumerStep(cfg, s, Stay, false, 0))
  {
    hide Transfer, CallResult, Settled, LogInv, ListInv, ProducerInv, OutcomeOk;
    if s.list == [] {
      var o := Outcome(s.call, s.start, Returns(false, s.outs, s.pos));
      EmptyGetOutcome(cfg, s);
      LogReturn(cfg, Clean(cfg, s), Clean(cfg, s), s.log, o);
    } else {
      assert s.call.DeliverUpto(s.outs, Chunk(cfg, s.pos, s.rem, s.list[0]), 0) == s.outs;
    }
  }

  lemma SliceOfSlice(data: seq<byte>, from: nat, end: nat, at: nat, n: nat)
    requires from <= at && at + n <= end <= |data|
    ensures Slice(data[from..end], at - from, n) == data[at..at + n]
  {
    var block := data[from..end];
    var piece := block[at - from..at - from + n];
    forall i | 0 <= i < n
      ensures piece[i] == data[at..at + n][i]
    {
      assert piece[i] == block[at - from + i];
    }
    assert piece == data[at..at + n];
  }

  /** The chunk of a round is the next piece of the file: no byte outside the block is touched. */
  lemma ChunkIsFileBytes(cfg: Config, s: State)
    requires Inv(cfg, s) && s.c.Put?
    ensures s.pos % cfg.B == s.pos - Offset(cfg.B, s.disposed)
    ensures var t := ToCopy(|cfg.data|, cfg.B, s.pos, s.rem);
      && s.pos % cfg.B + t <= |s.c.cur|
      && s.pos + t <= |cfg.data|
      && Chunk(cfg, s.pos, s.rem, s.c.cur) == cfg.data[s.pos..s.pos + t]
  {
    hide Transfer, CallResult, Settled, LogInv, ProducerInv, ErrorInv;
    hide Offset;
    ModOfOffset(s.pos, s.disposed, cfg.B);
    assert s.list[0] == cfg.Block(s.disposed + 0);
    SliceOfSlice(cfg.data, Offset(cfg.B, s.disposed), Min(Offset(cfg.B, s.disposed) + cfg.B, |cfg.data|),
                 s.pos, ToCopy(|cfg.data|, cfg.B, s.pos, s.rem));
  }

  /** A finished round leaves the targets settled at the new position. */
  lemma SettledRound(cfg: Config, call: Call, start: nat, pos: nat, rem: nat, before: seq<seq<byte>>)
    requires cfg.Valid() && Settled(cfg, call, start, pos, rem, before) && rem > 0
    ensures var t := ToCopy(|cfg.data|, cfg.B, pos, rem);
      && pos + t <= |cfg.data|
      && Settled(cfg, call, start, pos + t, rem - t, call.DeliverUpto(before, cfg.data[pos..pos + t], |before|))
  {
    var t := ToCopy(|cfg.data|, cfg.B, pos, rem);
    if pos == |cfg.data| {
      DeliverNothing(call, before, |before|);
    } else if call.Copy? {
      assert cfg.data[start..pos] + cfg.data[pos..pos + t] == cfg.data[start..pos + t];
    }
  }

  lemma InvRound(cfg: Config, s: State)
    requires Inv(cfg, s) && s.c.Put? && s.c.i == |s.outs|
    ensures Inv(cfg, PutStep(cfg, s, s.c.i, s.c.cur, s.c.before, 0))
  {
    hide Transfer, CallResult, Settled, LogInv, ListInv, ProducerInv;
    ChunkIsFileBytes(cfg, s);
    SettledRound(cfg, s.call, s.start, s.pos, s.rem, s.c.before);
  }

  /** A target that took only part of a chunk still holds a prefix of what was asked for. */
  lemma WriteFailedPrefix(data: seq<byte>, call: Call, start: nat, pos: nat, before: seq<seq<byte>>,
                          chunk: seq<byte>, i: nat, part: seq<byte>)
    requires call.Copy? && start <= pos && pos + |chunk| <= Min(start + call.len, |data|)
    requires before == Repeat(call.n, data[start..pos]) && chunk == data[pos..pos + |chunk|]
    requires i < call.n && part <= chunk
    ensures var outs := call.DeliverUpto(before, chunk, i);
      CopyPrefix(data, Outcome(call, start, Returns(false, outs[i := outs[i] + part], pos)))
  {
    var outs := call.DeliverUpto(before, chunk, i);
    var all := data[start..Min(start + call.len, |data|)];
    assert data[start..pos] + chunk == data[start..pos + |chunk|] <= all;
    assert forall j :: 0 <= j < call.n ==> outs[j] <= data[start..pos] + chunk;
  }

  lemma WriteFailedOutcome(cfg: Config, s: State, part: seq<byte>)
    requires Inv(cfg, s) && s.c.Put? && s.c.i < |s.outs| && s.call.Copy?
    requires part <= Chunk(cfg, s.pos, s.rem, s.c.cur)
    ensures OutcomeOk(cfg, false,
        Outcome(s.call, s.start, Returns(false, s.outs[s.c.i := s.outs[s.c.i] + part], s.pos)))
  {
    hide LogInv, ListInv, ProducerInv, ErrorInv, Transfer, CallResult;
    ChunkIsFileBytes(cfg, s);
    var chunk := Chunk(cfg, s.pos, s.rem, s.c.cur);
    WriteFailedPrefix(cfg.data, s.call, s.start, s.pos, s.c.before, chunk, s.c.i, part);
  }

  lemma InvWriteFailed(cfg: Config, s: State, written: int)
    requires Inv(cfg, s) && s.c.Put? && s.c.i < |s.outs| && s.call.Copy?
    requires written < 0 || written < |Chunk(cfg, s.pos, s.rem, s.c.cur)|
    ensures Inv(cfg, PutStep(cfg, s, s.c.i, s.c.cur, s.c.before, written))
  {
    hide Transfer, CallResult, Settled, LogInv, ListInv, ProducerInv, OutcomeOk;
    var part := Slice(Chunk(cfg, s.pos, s.rem, s.c.cur), 0, if written < 0 then 0 else written);
    WriteFailedOutcome(cfg, s, part);
    var outs := s.outs[s.c.i := s.outs[s.c.i] + part];
    LogReturn(cfg, Clean(cfg, s), false, s.log, Outcome(s.call, s.start, Returns(false, outs, s.pos)));
  }

  lemma InvPut(cfg: Config, s: State, written: int)
    requires Inv(cfg, s) && s.c.Put?
    ensures Inv(cfg, PutStep(cfg, s, s.c.i, s.c.cur, s.c.before, written))
  {
    hide Transfer, CallResult, Settled, LogInv, ListInv, ProducerInv;
    var chunk := Chunk(cfg, s.pos, s.rem, s.c.cur);
    if s.c.i == |s.outs| {
      InvRound(cfg, s);
    } else if s.call.Copy? && (written < 0 || written < |chunk|) {
      InvWriteFailed(cfg, s, written);
    } else {
      assert s.outs[s.c.i := s.call.Deliver(s.outs[s.c.i], chunk)]
          == s.call.DeliverUpto(s.c.before, chunk, s.c.i + 1);
    }
  }

  lemma ListDrop(cfg: Config, ra: nat, list: seq<seq<byte>>, blockCount: int, produced: nat, disposed: nat)
    requires ListInv(cfg, ra, list, blockCount, produced, disposed) && list != []
    ensures ListInv(cfg, ra, list[1..], blockCount - 1, produced, disposed + 1)
  {
    forall i | 0 <= i < |list| - 1
      ensures list[1..][i] == cfg.Block(disposed + 1 + i)
    {
      assert list[i + 1] == cfg.Block(disposed + (i + 1));
    }
  }

  lemma InvLoop(cfg: Config, s: State)
    requires Inv(cfg, s) && s.c.Loop? && s.rem == 0
    ensures Inv(cfg, Return(s, true))
  {
    hide ListInv, ProducerInv;
    LogReturn(cfg, Clean(cfg, s), Clean(cfg, s), s.log, Outcome(s.call, s.start, Returns(true, s.outs, s.pos)));
  }

  lemma InvDispose(cfg: Config, s: State)
    requires Inv(cfg, s) && s.c.Dispose?
    ensures Inv(cfg, DropFirst(s).(c := Loop))
  {
    hide Transfer, CallResult, Settled, RoundInv, LogInv;
    ListDrop(cfg, s.ra, s.list, s.blockCount, s.produced, s.disposed);
    assert Offset(cfg.B, s.disposed + 1) == Offset(cfg.B, s.disposed) + cfg.B;
    hide Offset;
    assert PositionInv(cfg, Loop, s.pos, s.list[1..], s.disposed + 1);
    assert ProducerInv(cfg, s.p, s.fd, s.ra, s.blockCount - 1);
  }

  lemma InvDrain(cfg: Config, s: State)
    requires Inv(cfg, s) && s.c.Drain? && s.list != []
    ensures Inv(cfg, DropFirst(s))
  {
    hide Transfer, CallResult, Settled, RoundInv, LogInv, Offset;
    ListDrop(cfg, s.ra, s.list, s.blockCount, s.produced, s.disposed);
  }

  ghost predicate Branches(c: ConsumerPc) {
    c.Entry? || InSpin(c) || c.Callback? || c.Join? || c.Closed?
  }

  lemma InvBranch(cfg: Config, s: State, cancel: bool)
    requires Inv(cfg, s) && Branches(s.c)
    ensures Inv(cfg, s.(c := Branch(cfg, s, cancel)))
  {
    hide Transfer, CallResult, Settled, RoundInv, LogInv, ProducerInv, Offset;
    assert s.blockCount == |s.list|;
    hide ListInv;
  }

  lemma InvEnter(cfg: Config, s: State)
    requires Inv(cfg, s) && s.c.Loop? && s.rem > 0
    ensures Inv(cfg, s.(c := Entry))
  {
    hide Transfer, CallResult, Settled, RoundInv, LogInv, ProducerInv, ListInv, Offset;
  }

  lemma InvClose(cfg: Config, s: State)
    requires Inv(cfg, s) && (s.c.Idle? || (s.c.Drain? && s.list == []))
    ensures Inv(cfg, if s.c.Idle? then s.(closing := true, c := Join) else s.(c := Closed))
  {
    hide Transfer, CallResult, Settled, RoundInv, LogInv, ProducerInv, ListInv, Offset;
  }

  lemma InvConsumer(cfg: Config, s: State, request: Request, cancel: bool, written: int)
    requires Inv(cfg, s)
    ensures Inv(cfg, ConsumerStep(cfg, s, request, cancel, written))
  {
    hide Inv;
    match s.c {
      case Idle =>
        if request.Begin? {
          InvBegin(cfg, s, request.call);
        } else if request.Close? {
          InvClose(cfg, s);
        }
      case Loop => if s.rem == 0 { InvLoop(cfg, s); } else { InvEnter(cfg, s); }
      case Get => InvGet(cfg, s);
      case Acknowledge(_) => InvAcknowledge(cfg, s);
      case Put(_, _, _) => InvPut(cfg, s, written);
      case Dispose => InvDispose(cfg, s);
      case Drain => if s.list == [] { InvClose(cfg, s); } else { InvDrain(cfg, s); }
      case _ => InvBranch(cfg, s, cancel);
    }
  }

  lemma InvNext(cfg: Config, s: State, e: Event)
    requires Inv(cfg, s)
    ensures Inv(cfg, Next(cfg, s, e))
  {
    match e
    case Producer(got, junk) => InvProducer(cfg, s, got, junk);
    case Consumer(request, cancel, written) => InvConsumer(cfg, s, request, cancel, written);
  }

  /** Every state that any schedule reaches satisfies the invariant. */
  lemma {:induction false} InvExec(cfg: Config, s: State, schedule: seq<Event>)
    requires Inv(cfg, s)
    ensures Inv(cfg, Exec(cfg, s, schedule))
    decreases schedule
  {
    if schedule != [] {
      InvNext(cfg, s, schedule[0]);
      InvExec(cfg, Next(cfg, s, schedule[0]), schedule[1..]);
    }
  }
}
