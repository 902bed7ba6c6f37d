/** What holds in every reachable state of a striped transfer, and when the transfer is right. */
module StripedRuns {
  import opened Arith
  import opened SetFacts
  import opened Striping
  import opened StripedTransfer

  /** The command of chunk k has been submitted; it has completed. */
  ghost predicate Sent(p: Params, st: State, k: nat)
    requires 0 < p.nobjs == |st.chains|
  {
    var chain := st.chains[k % p.nobjs];
    chain.Done? || (chain.Busy? && k <= chain.cmd.chunk)
  }

  ghost predicate Finished(p: Params, st: State, k: nat)
    requires 0 < p.nobjs == |st.chains|
  {
    var chain := st.chains[k % p.nobjs];
    chain.Done? || (chain.Busy? && k < chain.cmd.chunk)
  }

  /** Chain j works on the chunks k with k mod nobjs = j. */
  ghost predicate Chains(p: Params, st: State)
    requires p.WellFormed()
  {
    && |st.chains| == p.nobjs && st.launched <= p.nobjs
    && forall j :: 0 <= j < p.nobjs ==>
      && (st.chains[j].Idle? <==> st.launched <= j)
      && (st.chains[j].Busy? ==> Exact(p, st.chains[j].cmd) && st.chains[j].cmd.chunk % p.nobjs == j)
  }

  ghost predicate Loop(p: Params, st: State)
    requires p.WellFormed()
  {
    && (if Live(p, st.launched) then st.sbuf == Begin(p, st.launched) else p.len <= st.sbuf)
    && (st.launched > 0 ==> Live(p, st.launched - 1))
  }

  ghost predicate InLog(log: seq<Cmd>, k: nat) {
    exists i :: 0 <= i < |log| && log[i].chunk == k
  }

  ghost predicate Log(p: Params, st: State)
    requires p.WellFormed() && |st.chains| == p.nobjs
  {
    && (forall i :: 0 <= i < |st.log| ==> Exact(p, st.log[i]) && Sent(p, st, st.log[i].chunk))
    && (forall k: nat :: Live(p, k) && Sent(p, st, k) ==> InLog(st.log, k))
    && (forall i, j {:trigger InTurn(p, st.log, i, j)} :: 0 <= i < j < |st.log| ==> InTurn(p, st.log, i, j))
  }

  /** Of two commands of one lane the earlier one has the earlier chunk. */
  ghost predicate InTurn(p: Params, log: seq<Cmd>, i: nat, j: nat)
    requires 0 < p.nobjs && i < |log| && j < |log|
  {
    log[i].chunk % p.nobjs == log[j].chunk % p.nobjs ==> log[i].chunk < log[j].chunk
  }

  /** Address a belongs to the transfer, and to buffer byte Source(p, a). */
  ghost predicate Target(p: Params, a: nat)
    requires p.WellFormed()
  {
    p.objStart <= a < p.objStart + p.total && p.start <= Unplace(p, a - p.objStart) < p.start + p.len
  }

  ghost function Source(p: Params, a: nat): nat
    requires p.WellFormed() && Target(p, a)
  {
    Unplace(p, a - p.objStart) - p.start
  }

  /** The data moved so far is that of the finished chunks, and nothing else has changed. */
  ghost predicate Data(p: Params, st: State, dev: nat -> bv8, buf: nat -> bv8)
    requires p.WellFormed() && |st.chains| == p.nobjs
  {
    if p.write then
      st.buf == buf && forall a: nat :: st.dev(a) == WriteResult(p, st, dev, buf, a)
    else
      st.dev == dev && forall x: nat :: st.buf(x) == ReadResult(p, st, dev, buf, x)
  }

  ghost function WriteResult(p: Params, st: State, dev: nat -> bv8, buf: nat -> bv8, a: nat): bv8
    requires p.WellFormed() && |st.chains| == p.nobjs
  {
    if Target(p, a) && Finished(p, st, ChunkOf(p, Source(p, a))) then buf(Source(p, a)) else dev(a)
  }

  ghost function ReadResult(p: Params, st: State, dev: nat -> bv8, buf: nat -> bv8, x: nat): bv8
    requires p.WellFormed() && |st.chains| == p.nobjs
  {
    if x < p.len && Finished(p, st, ChunkOf(p, x)) then dev(Dest(p, x)) else buf(x)
  }

  ghost predicate Inv(p: Params, st: State, dev: nat -> bv8, buf: nat -> bv8)
    requires p.WellFormed()
  {
    Chains(p, st) && Loop(p, st) && Log(p, st) && Data(p, st, dev, buf)
  }

  // ----- lanes

  /** Two chunks of one lane are at least nobjs apart. */
  lemma LaneGap(n: nat, k: nat, k': nat)
    requires 0 < n && k % n == k' % n && k < k'
    ensures k + n <= k'
  {
    DivMod(k, n);
    DivMod(k', n);
    if k' / n <= k / n {
      MulMonotone(k' / n, k / n, n);
    } else {
      MulMonotone(k / n + 1, k' / n, n);
      Distribute(k / n, 1, n);
    }
  }

  lemma LaneNext(n: nat, k: nat)
    requires 0 < n
    ensures (k + n) % n == k % n
  {
    DivModShift(k, n, 1);
  }

  lemma LaneSmall(n: nat, k: nat)
    requires k < n
    ensures k % n == k
  {
    DivUnique(k, n, 0, k);
  }

  /** A byte of the transfer lies in a live chunk. */
  lemma ByteIsLive(p: Params, x: nat)
    requires p.WellFormed() && x < p.len
    ensures Live(p, ChunkOf(p, x))
  {
    ChunkRange(p, x, ChunkOf(p, x));
  }

  /** The addresses a chunk's command touches are those of the chunk's bytes. */
  lemma CommandCovers(p: Params, k: nat, a: nat)
    requires p.WellFormed() && Live(p, k)
    ensures Addr(p, k) <= a < Addr(p, k) + (End(p, k) - Begin(p, k)) <==>
            Target(p, a) && ChunkOf(p, Source(p, a)) == k
    ensures Target(p, a) && ChunkOf(p, Source(p, a)) == k ==> Source(p, a) == Begin(p, k) + (a - Addr(p, k))
  {
    BeginBasics(p, k);
    if Addr(p, k) <= a < Addr(p, k) + (End(p, k) - Begin(p, k)) {
      var x := Begin(p, k) + (a - Addr(p, k));
      ChunkRange(p, x, k);
      DestInChunk(p, x, k);
      PhysInRange(p, p.start + x);
    }
    if Target(p, a) && ChunkOf(p, Source(p, a)) == k {
      var x := Source(p, a);
      ChunkRange(p, x, k);
      DestInChunk(p, x, k);
      PhysOnto(p, a - p.objStart);
    }
  }

  // ----- the launching loop

  lemma LaunchProgress(p: Params, st: State)
    requires p.WellFormed() && EndFits(p) && Chains(p, st) && Loop(p, st) && Enabled(p, st, Launch)
    ensures var st' := Do(p, st, Launch);
      && st'.chains[st.launched].Busy? && st'.chains[st.launched].cmd.chunk == st.launched
      && st'.log == st.log + [st'.chains[st.launched].cmd]
      && Chains(p, st') && Loop(p, st')
  {
    var i, st' := st.launched, Do(p, st, Launch);
    FirstExact(p, i);
    LaneSmall(p.nobjs, i);
    BeginBasics(p, i);
    MulMonotone(1, p.nobjs, p.chunk);
    NoWrap(Bytes(p, st'.chains[i].cmd));
  }

  /** Launching finishes nothing and sends one chunk. */
  lemma LaunchSends(p: Params, st: State, k: nat)
    requires p.WellFormed() && EndFits(p) && Chains(p, st) && Loop(p, st) && Enabled(p, st, Launch)
    ensures |Do(p, st, Launch).chains| == p.nobjs
    ensures Finished(p, Do(p, st, Launch), k) <==> Finished(p, st, k)
    ensures Sent(p, Do(p, st, Launch), k) <==> Sent(p, st, k) || k == st.launched
  {
    var i := st.launched;
    LaunchProgress(p, st);
    LaneSmall(p.nobjs, i);
    if k % p.nobjs == i && k < i {
      LaneSmall(p.nobjs, k);
    }
  }

  lemma LogGrows(p: Params, st: State, st': State, cmd: Cmd)
    requires p.WellFormed() && |st.chains| == |st'.chains| == p.nobjs && Log(p, st)
    requires st'.log == st.log + [cmd] && Exact(p, cmd) && !Sent(p, st, cmd.chunk)
    requires forall k: nat :: Live(p, k) ==> (Sent(p, st', k) <==> Sent(p, st, k) || k == cmd.chunk)
    requires forall k: nat :: k % p.nobjs == cmd.chunk % p.nobjs && Sent(p, st, k) ==> k < cmd.chunk
    ensures Log(p, st')
  {
    forall k: nat | Live(p, k) && Sent(p, st', k)
      ensures InLog(st'.log, k)
    {
      if k == cmd.chunk {
        assert st'.log[|st.log|].chunk == k;
      } else {
        var i :| 0 <= i < |st.log| && st.log[i].chunk == k;
        assert st'.log[i].chunk == k;
      }
    }
    forall i, j | 0 <= i < j < |st'.log|
      ensures InTurn(p, st'.log, i, j)
    {
      assert Sent(p, st, st.log[i].chunk);
      assert j < |st.log| ==> InTurn(p, st.log, i, j);
    }
  }

  lemma LaunchKeeps(p: Params, st: State, dev: nat -> bv8, buf: nat -> bv8)
    requires p.WellFormed() && EndFits(p) && Inv(p, st, dev, buf) && Enabled(p, st, Launch)
    ensures Inv(p, Do(p, st, Launch), dev, buf)
  {
    var st', i := Do(p, st, Launch), st.launched;
    LaunchProgress(p, st);
    LaneSmall(p.nobjs, i);
    forall k: nat
      ensures Finished(p, st', k) <==> Finished(p, st, k)
      ensures Sent(p, st', k) <==> Sent(p, st, k) || k == i
    {
      LaunchSends(p, st, k);
    }
    LogGrows(p, st, st', st'.chains[i].cmd);
    if p.write {
      assert forall a: nat :: WriteResult(p, st', dev, buf, a) == WriteResult(p, st, dev, buf, a);
    } else {
      assert forall x: nat :: ReadResult(p, st', dev, buf, x) == ReadResult(p, st, dev, buf, x);
    }
  }

  // ----- completions

  lemma CompleteProgress(p: Params, st: State, j: nat)
    requires p.WellFormed() && p.Aligned() && Chains(p, st) && Loop(p, st) && Enabled(p, st, Complete(j))
    ensures Chains(p, Do(p, st, Complete(j))) && Loop(p, Do(p, st, Complete(j)))
  {
    NextExact(p, st.chains[j].cmd);
    LaneNext(p.nobjs, st.chains[j].cmd.chunk);
  }

  /** A completion finishes its chunk, and sends the next chunk of its lane if there is one. */
  lemma CompleteFinishes(p: Params, st: State, j: nat, k: nat)
    requires p.WellFormed() && p.Aligned() && Chains(p, st) && Enabled(p, st, Complete(j)) && Live(p, k)
    ensures var st', done := Do(p, st, Complete(j)), st.chains[j].cmd.chunk;
      && |st'.chains| == p.nobjs
      && (Finished(p, st', k) <==> Finished(p, st, k) || k == done)
      && (Sent(p, st', k) <==> Sent(p, st, k) || k == done + p.nobjs)
  {
    var done := st.chains[j].cmd.chunk;
    NextExact(p, st.chains[j].cmd);
    LaneNext(p.nobjs, done);
    if k % p.nobjs == j && done < k {
      LaneGap(p.nobjs, done, k);
      BeginMonotone(p, done + p.nobjs, k);
      if done + p.nobjs < k {
        LaneGap(p.nobjs, done + p.nobjs, k);
      }
    }
  }

  /** A byte of the device after a completed write. */
  lemma CompleteWrites(p: Params, st: State, j: nat, dev: nat -> bv8, buf: nat -> bv8, a: nat)
    requires p.WellFormed() && p.Aligned() && Chains(p, st) && Data(p, st, dev, buf) && Enabled(p, st, Complete(j)) && p.write
    ensures |Do(p, st, Complete(j)).chains| == p.nobjs
    ensures Do(p, st, Complete(j)).dev(a) == WriteResult(p, Do(p, st, Complete(j)), dev, buf, a)
  {
    CommandCovers(p, st.chains[j].cmd.chunk, a);
    assert st.dev(a) == WriteResult(p, st, dev, buf, a);
    if Target(p, a) {
      ByteIsLive(p, Source(p, a));
      CompleteFinishes(p, st, j, ChunkOf(p, Source(p, a)));
    }
  }

  /** A byte of the buffer after a completed read. */
  lemma CompleteReads(p: Params, st: State, j: nat, dev: nat -> bv8, buf: nat -> bv8, x: nat)
    requires p.WellFormed() && p.Aligned() && Chains(p, st) && Data(p, st, dev, buf) && Enabled(p, st, Complete(j)) && !p.write
    ensures |Do(p, st, Complete(j)).chains| == p.nobjs
    ensures Do(p, st, Complete(j)).buf(x) == ReadResult(p, Do(p, st, Complete(j)), dev, buf, x)
  {
    var k := st.chains[j].cmd.chunk;
    ChunkRange(p, x, k);
    assert st.buf(x) == ReadResult(p, st, dev, buf, x);
    if x < p.len {
      ByteIsLive(p, x);
      CompleteFinishes(p, st, j, ChunkOf(p, x));
      if ChunkOf(p, x) == k {
        DestInChunk(p, x, k);
      }
    }
  }

  lemma CompleteMoves(p: Params, st: State, j: nat, dev: nat -> bv8, buf: nat -> bv8)
    requires p.WellFormed() && p.Aligned() && Chains(p, st) && Data(p, st, dev, buf) && Enabled(p, st, Complete(j))
    ensures |Do(p, st, Complete(j)).chains| == p.nobjs && Data(p, Do(p, st, Complete(j)), dev, buf)
  {
    var st' := Do(p, st, Complete(j));
    if p.write {
      forall a: nat
        ensures st'.dev(a) == WriteResult(p, st', dev, buf, a)
      {
        CompleteWrites(p, st, j, dev, buf, a);
      }
    } else {
      forall x: nat
        ensures st'.buf(x) == ReadResult(p, st', dev, buf, x)
      {
        CompleteReads(p, st, j, dev, buf, x);
      }
    }
  }

  lemma CompleteLogs(p: Params, st: State, j: nat)
    requires p.WellFormed() && p.Aligned() && Chains(p, st) && Log(p, st) && Enabled(p, st, Complete(j))
    ensures |Do(p, st, Complete(j)).chains| == p.nobjs && Log(p, Do(p, st, Complete(j)))
  {
    var st', cmd := Do(p, st, Complete(j)), st.chains[j].cmd;
    NextExact(p, cmd);
    LaneNext(p.nobjs, cmd.chunk);
    CompleteSends(p, st, j);
    if Live(p, cmd.chunk + p.nobjs) {
      LogGrows(p, st, st', NextCmd(p, cmd));
    } else {
      LogStays(p, st, st');
    }
  }

  lemma CompleteSends(p: Params, st: State, j: nat)
    requires p.WellFormed() && p.Aligned() && Chains(p, st) && Enabled(p, st, Complete(j))
    ensures |Do(p, st, Complete(j)).chains| == p.nobjs
    ensures forall k: nat :: Live(p, k) ==>
      (Sent(p, Do(p, st, Complete(j)), k) <==> Sent(p, st, k) || k == st.chains[j].cmd.chunk + p.nobjs)
  {
    CompleteFinishes(p, st, j, st.chains[j].cmd.chunk);
    forall k: nat | Live(p, k)
      ensures Sent(p, Do(p, st, Complete(j)), k) <==> Sent(p, st, k) || k == st.chains[j].cmd.chunk + p.nobjs
    {
      CompleteFinishes(p, st, j, k);
    }
  }

  lemma LogStays(p: Params, st: State, st': State)
    requires p.WellFormed() && |st.chains| == |st'.chains| == p.nobjs && Log(p, st) && st'.log == st.log
    requires forall k: nat :: Live(p, k) ==> (Sent(p, st', k) <==> Sent(p, st, k))
    ensures Log(p, st')
  {
    forall i, j | 0 <= i < j < |st'.log|
      ensures InTurn(p, st'.log, i, j)
    {
      assert InTurn(p, st.log, i, j);
    }
  }

  // ----- all runs

  ghost predicate Reaches(p: Params, from: State, steps: seq<Step>, to: State)
    requires p.WellFormed()
    decreases |steps|
  {
    if steps == [] then from == to
    else Enabled(p, from, steps[0]) && Reaches(p, Do(p, from, steps[0]), steps[1..], to)
  }

  lemma StepKeeps(p: Params, st: State, step: Step, dev: nat -> bv8, buf: nat -> bv8)
    requires p.WellFormed() && p.Aligned() && EndFits(p) && Inv(p, st, dev, buf) && Enabled(p, st, step)
    ensures Inv(p, Do(p, st, step), dev, buf)
  {
    match step {
      case Launch => LaunchKeeps(p, st, dev, buf);
      case Complete(j) =>
        CompleteProgress(p, st, j);
        CompleteMoves(p, st, j, dev, buf);
        CompleteLogs(p, st, j);
    }
  }

  lemma {:induction false} RunOnCourse(p: Params, from: State, steps: seq<Step>, to: State, dev: nat -> bv8, buf: nat -> bv8)
    requires p.WellFormed() && p.Aligned() && EndFits(p) && Inv(p, from, dev, buf) && Reaches(p, from, steps, to)
    ensures Inv(p, to, dev, buf)
    decreases |steps|
  {
    if steps != [] {
      StepKeeps(p, from, steps[0], dev, buf);
      RunOnCourse(p, Do(p, from, steps[0]), steps[1..], to, dev, buf);
    }
  }

  /** Every chain that was launched had a chunk to work on, so that there are slots for all of them. */
  lemma InSlots(p: Params, st: State)
    requires p.WellFormed() && ChainsFit(p) && Chains(p, st) && Loop(p, st)
    ensures !Strays(st)
  {
    if Strays(st) {
      BeginMonotone(p, SLOTS, st.launched - 1);
    }
  }

  /** The engine starts exactly for a transfer of whole blocks, and otherwise does nothing. */
  lemma StartsExactly(p: Params, dev: nat -> bv8, buf: nat -> bv8, step: Step)
    requires p.WellFormed()
    ensures Enabled(p, Init(p, dev, buf), Launch) <==> 0 < p.len && p.len % p.lba == 0 && p.start % p.lba == 0
    ensures Enabled(p, Init(p, dev, buf), step) ==> step == Launch
  {
  }

  /** Every step of every interleaving keeps the invariant, and no chain strays from the array. */
  lemma RunKeeps(p: Params, steps: seq<Step>, st: State, dev: nat -> bv8, buf: nat -> bv8)
    requires p.WellFormed() && p.Aligned() && Fits(p) && Reaches(p, Init(p, dev, buf), steps, st)
    ensures Inv(p, st, dev, buf) && !Strays(st)
  {
    InitInv(p, dev, buf);
    RunOnCourse(p, Init(p, dev, buf), steps, st, dev, buf);
    InSlots(p, st);
  }

  lemma InitInv(p: Params, dev: nat -> bv8, buf: nat -> bv8)
    requires p.WellFormed()
    ensures Inv(p, Init(p, dev, buf), dev, buf)
  {
  }

  lemma LaneOf(n: nat, k: nat) returns (j: nat)
    requires 0 < n
    ensures j == k % n < n && j <= k
  {
    DivMod(k, n);
    MulMonotone(0, k / n, n);
    j := k % n;
  }

  /** When nothing is left to do every chunk is finished. */
  lemma AllFinished(p: Params, st: State, k: nat)
    requires p.WellFormed() && p.Aligned() && Chains(p, st) && Loop(p, st) && Terminal(p, st) && Live(p, k)
    ensures Finished(p, st, k) && Sent(p, st, k)
  {
    var j := LaneOf(p.nobjs, k);
    if st.launched <= j {
      BeginMonotone(p, st.launched, k);
      assert false;
    }
  }

  /** In a finished transfer a byte of the transfer is at its place. */
  lemma ByteArrived(p: Params, st: State, dev: nat -> bv8, buf: nat -> bv8, x: nat)
    requires p.WellFormed() && p.Aligned() && Inv(p, st, dev, buf) && Terminal(p, st) && x < p.len
    ensures if p.write then st.dev(Dest(p, x)) == buf(x) else st.buf(x) == dev(Dest(p, x))
  {
    PhysInRange(p, p.start + x);
    ByteIsLive(p, x);
    AllFinished(p, st, ChunkOf(p, x));
    assert p.write ==> st.dev(Dest(p, x)) == WriteResult(p, st, dev, buf, Dest(p, x));
    assert !p.write ==> st.buf(x) == ReadResult(p, st, dev, buf, x);
  }

  /** Every other byte is as it was. */
  lemma ByteUntouched(p: Params, st: State, dev: nat -> bv8, buf: nat -> bv8, a: nat)
    requires p.WellFormed() && p.Aligned() && Inv(p, st, dev, buf)
    ensures p.write && (forall x: nat :: x < p.len ==> Dest(p, x) != a) ==> st.dev(a) == dev(a)
    ensures !p.write && a >= p.len ==> st.buf(a) == buf(a)
  {
    if p.write {
      assert st.dev(a) == WriteResult(p, st, dev, buf, a);
      if Target(p, a) {
        PhysOnto(p, a - p.objStart);
        assert Dest(p, Source(p, a)) == a;
      }
    } else {
      assert st.buf(a) == ReadResult(p, st, dev, buf, a);
    }
  }

  /** Whatever the order of completions, a finished transfer has moved every byte to its place and nothing else. */
  lemma TransferIsRight(p: Params, steps: seq<Step>, st: State, dev: nat -> bv8, buf: nat -> bv8)
    requires p.WellFormed() && p.Aligned() && Fits(p)
    requires Reaches(p, Init(p, dev, buf), steps, st) && Terminal(p, st)
    ensures p.write ==> forall x: nat :: x < p.len ==> st.dev(Dest(p, x)) == buf(x)
    ensures p.write ==> forall a: nat :: (forall x: nat :: x < p.len ==> Dest(p, x) != a) ==> st.dev(a) == dev(a)
    ensures !p.write ==> forall x: nat :: st.buf(x) == if x < p.len then dev(Dest(p, x)) else buf(x)
    ensures if p.write then st.buf == buf else st.dev == dev
    ensures !Strays(st) && !Overrun(p, st.log)
  {
    RunKeeps(p, steps, st, dev, buf);
    forall x: nat | x < p.len
      ensures if p.write then st.dev(Dest(p, x)) == buf(x) else st.buf(x) == dev(Dest(p, x))
    {
      ByteArrived(p, st, dev, buf, x);
    }
    forall a: nat
      ensures p.write && (forall x: nat :: x < p.len ==> Dest(p, x) != a) ==> st.dev(a) == dev(a)
      ensures !p.write && a >= p.len ==> st.buf(a) == buf(a)
    {
      ByteUntouched(p, st, dev, buf, a);
    }
    NoOverrun(p, st);
  }

  /** Commands that do what their chunks should do stay in the buffer. */
  lemma NoOverrun(p: Params, st: State)
    requires p.WellFormed() && |st.chains| == p.nobjs && Log(p, st)
    ensures !Overrun(p, st.log)
  {
    forall i | 0 <= i < |st.log|
      ensures st.log[i].sbuf + Bytes(p, st.log[i]) <= p.len
    {
      assert Exact(p, st.log[i]);
    }
  }

  predicate Covers(p: Params, cmd: Cmd, x: nat) {
    cmd.sbuf <= x < cmd.sbuf + Bytes(p, cmd)
  }

  /** Of all commands only the i-th covers byte x. */
  ghost predicate OnlyCover(p: Params, log: seq<Cmd>, x: nat, i: nat) {
    forall j :: 0 <= j < |log| ==> (Covers(p, log[j], x) <==> j == i)
  }

  /** The underlying object a chunk of the transfer lives in. */
  function ObjectOf(p: Params, k: nat): nat
    requires 0 < p.chunk && 0 < p.nobjs
  {
    (Q0(p) + k) % p.nobjs
  }

  /** In every reachable state: commands stay in the buffer, and each byte goes to its own address. */
  lemma CommandsAreRight(p: Params, steps: seq<Step>, st: State, dev: nat -> bv8, buf: nat -> bv8, i: nat)
    requires p.WellFormed() && p.Aligned() && Fits(p)
    requires Reaches(p, Init(p, dev, buf), steps, st) && i < |st.log|
    ensures st.log[i].sbuf + Bytes(p, st.log[i]) <= p.len
    ensures forall x: nat :: Covers(p, st.log[i], x) ==>
      Dest(p, x) == st.log[i].slba * p.lba + (x - st.log[i].sbuf)
  {
    RunKeeps(p, steps, st, dev, buf);
    var cmd := st.log[i];
    forall x: nat | Covers(p, cmd, x)
      ensures Dest(p, x) == cmd.slba * p.lba + (x - cmd.sbuf)
    {
      DestInChunk(p, x, cmd.chunk);
    }
  }

  lemma SameObjectSameLane(p: Params, k: nat, k': nat)
    requires p.WellFormed() && ObjectOf(p, k) == ObjectOf(p, k')
    ensures k % p.nobjs == k' % p.nobjs
  {
    ModCancel(Q0(p), k, k', p.nobjs);
  }

  /** Commands of one underlying object are submitted with increasing, non-overlapping addresses. */
  lemma AddressesIncrease(p: Params, steps: seq<Step>, st: State, dev: nat -> bv8, buf: nat -> bv8, i: nat, j: nat)
    requires p.WellFormed() && p.Aligned() && Fits(p)
    requires Reaches(p, Init(p, dev, buf), steps, st) && i < j < |st.log|
    requires ObjectOf(p, st.log[i].chunk) == ObjectOf(p, st.log[j].chunk)
    ensures st.log[i].slba + st.log[i].nlbs + 1 <= st.log[j].slba
  {
    RunKeeps(p, steps, st, dev, buf);
    var a, b := st.log[i], st.log[j];
    assert InTurn(p, st.log, i, j);
    SameObjectSameLane(p, a.chunk, b.chunk);
    LaneGap(p.nobjs, a.chunk, b.chunk);
    AddrMonotone(p, a.chunk, b.chunk);
    InOrder(a.slba, a.nlbs + 1, b.slba, p.lba);
  }

  lemma InOrder(s: nat, n: nat, s': nat, lba: nat)
    requires 0 < lba && s * lba + n * lba <= s' * lba
    ensures s + n <= s'
  {
    Distribute(s, n, lba);
    if s' < s + n {
      MulMonotone(s' + 1, s + n, lba);
      Distribute(s', 1, lba);
    }
  }

  /** Along a lane each chunk, taken whole, ends at or before the next one begins. */
  lemma {:induction false} AddrMonotone(p: Params, k: nat, k': nat)
    requires p.WellFormed() && k % p.nobjs == k' % p.nobjs && k + p.nobjs <= k'
    ensures Addr(p, k) + ((k + 1) * p.chunk - R0(p) - Begin(p, k)) <= Addr(p, k')
    decreases k' - k
  {
    NextAddr(p, k);
    LaneNext(p.nobjs, k);
    if k + p.nobjs < k' {
      LaneGap(p.nobjs, k + p.nobjs, k');
      AddrMonotone(p, k + p.nobjs, k');
      BeginBasics(p, k + p.nobjs);
    }
  }

  /** In every reachable state at most one command covers a byte. */
  lemma NoByteSentTwice(p: Params, steps: seq<Step>, st: State, dev: nat -> bv8, buf: nat -> bv8, i: nat, j: nat, x: nat)
    requires p.WellFormed() && p.Aligned() && Fits(p) && Reaches(p, Init(p, dev, buf), steps, st)
    requires i < |st.log| && j < |st.log| && Covers(p, st.log[i], x) && Covers(p, st.log[j], x)
    ensures i == j
  {
    RunKeeps(p, steps, st, dev, buf);
    ChunkRange(p, x, st.log[i].chunk);
    ChunkRange(p, x, st.log[j].chunk);
    assert i < j ==> InTurn(p, st.log, i, j);
    assert j < i ==> InTurn(p, st.log, j, i);
  }

  /** A finished transfer has sent every byte in exactly one command. */
  lemma EachByteSentOnce(p: Params, steps: seq<Step>, st: State, dev: nat -> bv8, buf: nat -> bv8, x: nat)
    requires p.WellFormed() && p.Aligned() && Fits(p)
    requires Reaches(p, Init(p, dev, buf), steps, st) && Terminal(p, st) && x < p.len
    ensures exists i :: 0 <= i < |st.log| && OnlyCover(p, st.log, x, i)
  {
    RunKeeps(p, steps, st, dev, buf);
    var k := ChunkOf(p, x);
    ChunkRange(p, x, k);
    AllFinished(p, st, k);
    var i :| 0 <= i < |st.log| && st.log[i].chunk == k;
    assert Covers(p, st.log[i], x);
    forall j | 0 <= j < |st.log| && Covers(p, st.log[j], x)
      ensures j == i
    {
      NoByteSentTwice(p, steps, st, dev, buf, i, j, x);
    }
    assert OnlyCover(p, st.log, x, i);
  }

  // ----- when the transfer does not fit

  /** Some command goes past the end of the buffer. */
  ghost predicate Overrun(p: Params, log: seq<Cmd>) {
    exists i :: 0 <= i < |log| && p.len < log[i].sbuf + Bytes(p, log[i])
  }

  lemma OverrunStays(p: Params, log: seq<Cmd>, log': seq<Cmd>)
    requires Overrun(p, log) && log <= log'
    ensures Overrun(p, log')
  {
    var i :| 0 <= i < |log| && p.len < log[i].sbuf + Bytes(p, log[i]);
    assert log'[i] == log[i];
  }

  /** The launching loop without the fitting condition: on course, or past the end of the buffer. */
  ghost predicate Launching(p: Params, st: State)
    requires p.WellFormed()
  {
    Overrun(p, st.log) || st.sbuf == Begin(p, st.launched) < p.len
  }

  /** A first command takes a whole chunk, or the whole transfer length if that is less. */
  lemma LaunchedLength(p: Params, i: nat)
    requires p.WellFormed() && p.Aligned() && 0 < p.len
    ensures 0 <= Begin(p, i) && 0 < p.total
    ensures Bytes(p, LaunchCmd(p, i, Begin(p, i))) == Min(p.len, p.chunk - (if i == 0 then R0(p) else 0)) < TWO_32
  {
    LaunchAddress(p, i);
    MultipleMod(p.start, p.chunk, p.lba);
    MultipleSum(p.chunk, R0(p), p.lba);
    BlockCount(p, Min(p.len, p.chunk - (if i == 0 then R0(p) else 0)));
  }

  lemma LaunchOverruns(p: Params, st: State)
    requires p.WellFormed() && p.Aligned() && !EndFits(p)
    requires Launching(p, st) && Enabled(p, st, Launch)
    ensures Launching(p, Do(p, st, Launch))
  {
    var st', i := Do(p, st, Launch), st.launched;
    if Overrun(p, st.log) {
      OverrunStays(p, st.log, st'.log);
    } else {
      LaunchedLength(p, i);
      BeginBasics(p, i);
      var cmd := LaunchCmd(p, i, st.sbuf);
      NoWrap(Bytes(p, cmd));
      assert st'.log[|st.log|] == cmd;
      if i > 0 && Begin(p, i) + p.chunk == p.len {
        EndsOnBoundary(p, i);
      }
    }
  }

  lemma EndsOnBoundary(p: Params, i: nat)
    requires p.WellFormed() && 0 < i && Begin(p, i) + p.chunk == p.len
    ensures (p.start + p.len) % p.chunk == 0
  {
    DivMod(p.start, p.chunk);
    Distribute(i, 1, p.chunk);
    Distribute(Q0(p), i + 1, p.chunk);
    DivUnique(p.start + p.len, p.chunk, Q0(p) + i + 1, 0);
  }

  lemma {:induction false} RunLaunches(p: Params, from: State, steps: seq<Step>, to: State)
    requires p.WellFormed() && p.Aligned() && !EndFits(p) && Launching(p, from) && Reaches(p, from, steps, to)
    requires |from.chains| == p.nobjs
    ensures Launching(p, to) && |to.chains| == p.nobjs
    decreases |steps|
  {
    if steps != [] {
      var next := Do(p, from, steps[0]);
      if steps[0].Launch? {
        LaunchOverruns(p, from);
      } else if Overrun(p, from.log) {
        OverrunStays(p, from.log, next.log);
      }
      RunLaunches(p, next, steps[1..], to);
    }
  }

  lemma EndMisfitOverruns(p: Params, steps: seq<Step>, st: State, dev: nat -> bv8, buf: nat -> bv8)
    requires p.WellFormed() && p.Aligned() && 0 < p.len && !EndFits(p)
    requires Reaches(p, Init(p, dev, buf), steps, st) && Terminal(p, st)
    ensures Overrun(p, st.log)
  {
    RunLaunches(p, Init(p, dev, buf), steps, st);
    if st.launched >= p.nobjs {
      BeginMonotone(p, p.nobjs, st.launched);
    }
  }

  lemma ChainMisfitStrays(p: Params, steps: seq<Step>, st: State, dev: nat -> bv8, buf: nat -> bv8)
    requires p.WellFormed() && p.Aligned() && EndFits(p) && !ChainsFit(p)
    requires Reaches(p, Init(p, dev, buf), steps, st) && Terminal(p, st)
    ensures Strays(st)
  {
    InitInv(p, dev, buf);
    RunOnCourse(p, Init(p, dev, buf), steps, st, dev, buf);
    if st.launched <= SLOTS {
      BeginMonotone(p, st.launched, SLOTS);
    }
  }

  /**
   The condition is exact: without it every finished transfer has sent a command past the buffer's end or set
   up a chain outside the array.
   */
  lemma MisfitFails(p: Params, steps: seq<Step>, st: State, dev: nat -> bv8, buf: nat -> bv8)
    requires p.WellFormed() && p.Aligned() && 0 < p.len
    requires Reaches(p, Init(p, dev, buf), steps, st) && Terminal(p, st)
    ensures Fits(p) <==> !Overrun(p, st.log) && !Strays(st)
    ensures !EndFits(p) ==> Overrun(p, st.log)
    ensures EndFits(p) && !ChainsFit(p) ==> Strays(st)
  {
    if Fits(p) {
      RunKeeps(p, steps, st, dev, buf);
      NoOverrun(p, st);
    } else if EndFits(p) {
      ChainMisfitStrays(p, steps, st, dev, buf);
    } else {
      EndMisfitOverruns(p, steps, st, dev, buf);
    }
  }

  /**
   Transfers over two objects of two chunks of two blocks: one and a half chunks do not fit; half a chunk,
   two chunks and two and a half chunks do.
   */
  lemma MisfitExists()
    ensures forall len :: len in {4, 12, 16, 20} ==>
      var p := Params(2, 8, 4, 0, len, 32, 0, 4, true);
      p.WellFormed() && p.Aligned() && (Fits(p) <==> len != 12)
  {
  }

  /** A transfer over 1024 objects of one block: with 512 chunks it has slots for its chains, with 513 it has not. */
  lemma ChainMisfitExists()
    ensures forall chunks :: chunks in {512, 513, 1024} ==>
      var p := Params(1024, 4096, 1, 0, chunks * 4096, 1024 * 4096, 0, 4096, true);
      p.WellFormed() && p.Aligned() && EndFits(p) && (ChainsFit(p) <==> chunks == 512)
  {
  }

  // ----- every run ends

  /** The number of chunks of the transfer. */
  function Chunks(p: Params): nat
    requires 0 < p.chunk
  {
    if p.len == 0 then 0 else ChunkOf(p, p.len - 1) + 1
  }

  lemma LiveChunks(p: Params, k: nat)
    requires p.WellFormed()
    ensures Live(p, k) <==> k < Chunks(p)
  {
    BeginBasics(p, k);
    if p.len > 0 {
      var last := ChunkOf(p, p.len - 1);
      ChunkRange(p, p.len - 1, last);
      BeginBasics(p, last);
      if k <= last {
        BeginMonotone(p, k, last);
      } else {
        BeginMonotone(p, last + 1, k);
      }
    }
  }

  ghost function FinishedChunks(p: Params, st: State): set<nat>
    requires 0 < p.nobjs == |st.chains| && 0 < p.chunk
  {
    set k: nat | k < Chunks(p) && Finished(p, st, k)
  }

  lemma LaunchFinishesNone(p: Params, st: State)
    requires p.WellFormed() && EndFits(p) && Chains(p, st) && Loop(p, st) && Enabled(p, st, Launch)
    ensures |Do(p, st, Launch).chains| == p.nobjs && FinishedChunks(p, Do(p, st, Launch)) == FinishedChunks(p, st)
  {
    LaunchProgress(p, st);
    forall k: nat
      ensures Finished(p, Do(p, st, Launch), k) <==> Finished(p, st, k)
    {
      LaunchSends(p, st, k);
    }
  }

  lemma CompleteFinishesOne(p: Params, st: State, j: nat)
    requires p.WellFormed() && p.Aligned() && Chains(p, st) && Enabled(p, st, Complete(j))
    ensures |Do(p, st, Complete(j)).chains| == p.nobjs
    ensures |FinishedChunks(p, Do(p, st, Complete(j)))| == |FinishedChunks(p, st)| + 1
  {
    var st', done := Do(p, st, Complete(j)), st.chains[j].cmd.chunk;
    LiveChunks(p, done);
    CompleteFinishes(p, st, j, done);
    forall k: nat | k < Chunks(p)
      ensures Finished(p, st', k) <==> Finished(p, st, k) || k == done
    {
      LiveChunks(p, k);
      CompleteFinishes(p, st, j, k);
    }
    assert FinishedChunks(p, st') == FinishedChunks(p, st) + {done};
    assert done !in FinishedChunks(p, st);
  }

  /** Every step launches a chain or finishes a chunk. */
  lemma {:induction false} StepsCounted(p: Params, from: State, steps: seq<Step>, to: State, dev: nat -> bv8, buf: nat -> bv8)
    requires p.WellFormed() && p.Aligned() && EndFits(p) && Inv(p, from, dev, buf) && Reaches(p, from, steps, to)
    ensures Inv(p, to, dev, buf)
    ensures |FinishedChunks(p, to)| + to.launched == |FinishedChunks(p, from)| + from.launched + |steps|
    decreases |steps|
  {
    if steps != [] {
      StepKeeps(p, from, steps[0], dev, buf);
      match steps[0] {
        case Launch => LaunchFinishesNone(p, from);
        case Complete(j) => CompleteFinishesOne(p, from, j);
      }
      StepsCounted(p, Do(p, from, steps[0]), steps[1..], to, dev, buf);
    }
  }

  lemma LaunchedBound(p: Params, st: State)
    requires p.WellFormed() && Chains(p, st) && Loop(p, st)
    ensures st.launched <= Min(p.nobjs, Chunks(p))
    ensures Terminal(p, st) && p.Aligned() ==> st.launched == Min(p.nobjs, Chunks(p))
  {
    if st.launched > 0 {
      LiveChunks(p, st.launched - 1);
    }
    LiveChunks(p, st.launched);
  }

  /** A run has at most two steps per chunk; a finished one has finished all chunks and launched all chains it could. */
  lemma RunsEnd(p: Params, steps: seq<Step>, st: State, dev: nat -> bv8, buf: nat -> bv8)
    requires p.WellFormed() && p.Aligned() && Fits(p) && Reaches(p, Init(p, dev, buf), steps, st)
    ensures |steps| <= Chunks(p) + Min(p.nobjs, Chunks(p))
    ensures Terminal(p, st) <==> |steps| == Chunks(p) + Min(p.nobjs, Chunks(p))
  {
    var init := Init(p, dev, buf);
    InitInv(p, dev, buf);
    StepsCounted(p, init, steps, st, dev, buf);
    assert FinishedChunks(p, init) == {};
    LaunchedBound(p, st);
    var done := FinishedChunks(p, st);
    SubsetSize(done, Upto(Chunks(p)));
    if Terminal(p, st) {
      forall k: nat | k < Chunks(p)
        ensures k in done
      {
        LiveChunks(p, k);
        AllFinished(p, st, k);
      }
      assert done == Upto(Chunks(p));
    } else if |steps| == Chunks(p) + Min(p.nobjs, Chunks(p)) {
      SubsetSameSize(done, Upto(Chunks(p)));
      NothingLeft(p, st);
    }
  }

  lemma BusyIsLeft(p: Params, st: State, j: nat)
    requires p.WellFormed() && Chains(p, st) && j < |st.chains| && st.chains[j].Busy?
    ensures FinishedChunks(p, st) != Upto(Chunks(p))
  {
    var k := st.chains[j].cmd.chunk;
    LiveChunks(p, k);
    assert k in Upto(Chunks(p)) && k !in FinishedChunks(p, st);
  }

  /** With all chains launched and all chunks finished there is no step left. */
  lemma NothingLeft(p: Params, st: State)
    requires p.WellFormed() && p.Aligned() && Chains(p, st) && Loop(p, st)
    requires FinishedChunks(p, st) == Upto(Chunks(p)) && st.launched == Min(p.nobjs, Chunks(p))
    ensures Terminal(p, st)
  {
    LiveChunks(p, st.launched);
    forall j | 0 <= j < |st.chains|
      ensures !st.chains[j].Busy?
    {
      if st.chains[j].Busy? {
        BusyIsLeft(p, st, j);
      }
    }
  }
}
