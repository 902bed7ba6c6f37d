/**
 Every interleaving of the striped transfer: a launching loop that starts one chain per object, and
 completions, in any order, that make their chain submit its next command.
 */
module StripedTransfer {
  import opened Arith
  import opened Striping

  /** A submitted command; chunk counts the chunks of the transfer and is bookkeeping of the model. */
  datatype Cmd = Cmd(chunk: nat, slba: nat, nlbs: nat, sbuf: nat)

  datatype Chain = Idle | Busy(cmd: Cmd) | Done

  datatype State = State(launched: nat, sbuf: nat, chains: seq<Chain>, log: seq<Cmd>, dev: nat -> bv8, buf: nat -> bv8)

  datatype Step = Launch | Complete(j: nat)

  function Bytes(p: Params, cmd: Cmd): nat { (cmd.nlbs + 1) * p.lba }

  function Init(p: Params, dev: nat -> bv8, buf: nat -> bv8): State {
    State(0, 0, seq(p.nobjs, _ => Idle), [], dev, buf)
  }

  ghost predicate Enabled(p: Params, st: State, step: Step)
    requires p.WellFormed()
  {
    match step
    case Launch => p.Aligned() && st.launched < p.nobjs && st.launched < |st.chains| && st.sbuf < p.len
    case Complete(j) => j < |st.chains| && st.chains[j].Busy?
  }

  /** The data of a command moves when it completes; outstanding commands never overlap. */
  function Moved(p: Params, cmd: Cmd, st: State): State {
    var addr, n := cmd.slba * p.lba, Bytes(p, cmd);
    if p.write then
      st.(dev := (a: nat) => if addr <= a < addr + n then st.buf(cmd.sbuf + (a - addr)) else st.dev(a))
    else
      st.(buf := (x: nat) => if cmd.sbuf <= x < cmd.sbuf + n then st.dev(addr + (x - cmd.sbuf)) else st.buf(x))
  }

  function StartLba(p: Params): nat
    requires 0 < p.lba
  {
    p.objStart / p.lba
  }

  function LaunchCmd(p: Params, i: nat, sbuf: nat): Cmd
    requires 0 < p.chunk && 0 < p.total && 0 < p.lba
  {
    Cmd(i, ObjSlba(p, sbuf + p.start) + StartLba(p), FirstNlbs(p, sbuf + p.start), sbuf)
  }

  function NextCmd(p: Params, cmd: Cmd): Cmd
    requires 0 < p.lba
  {
    var sbuf := NextSbuf(p, cmd.sbuf, cmd.nlbs);
    Cmd(cmd.chunk + p.nobjs, cmd.slba + cmd.nlbs + 1, NextNlbs(p, sbuf), sbuf)
  }

  ghost function Do(p: Params, st: State, step: Step): State
    requires p.WellFormed() && Enabled(p, st, step)
  {
    match step
    case Launch =>
      PositiveTotal(p);
      var cmd := LaunchCmd(p, st.launched, st.sbuf);
      st.(launched := st.launched + 1, sbuf := st.sbuf + Bytes(p, cmd) % TWO_32,
          chains := st.chains[st.launched := Busy(cmd)], log := st.log + [cmd])
    case Complete(j) =>
      var cmd := st.chains[j].cmd;
      var st' := Moved(p, cmd, st);
      if NextSbuf(p, cmd.sbuf, cmd.nlbs) < p.len then
        st'.(chains := st.chains[j := Busy(NextCmd(p, cmd))], log := st.log + [NextCmd(p, cmd)])
      else
        st'.(chains := st.chains[j := Done])
  }

  lemma PositiveTotal(p: Params)
    requires p.WellFormed()
    ensures 0 < p.total
  {
    MulMonotone(1, p.nobjs, p.ObjBytes());
  }

  /** The loop has ended and nothing is outstanding. */
  ghost predicate Terminal(p: Params, st: State)
    requires p.WellFormed()
  {
    !Enabled(p, st, Launch) && forall j :: 0 <= j < |st.chains| ==> !st.chains[j].Busy?
  }

  // ----- what each chunk of the transfer should do

  function R0(p: Params): nat requires 0 < p.chunk { p.start % p.chunk }
  function Q0(p: Params): nat requires 0 < p.chunk { p.start / p.chunk }

  /** Buffer offset at which chunk k of the transfer begins. */
  function Begin(p: Params, k: nat): int
    requires 0 < p.chunk
  {
    if k == 0 then 0 else k * p.chunk - R0(p)
  }

  function End(p: Params, k: nat): int
    requires 0 < p.chunk
  {
    Min(p.len, (k + 1) * p.chunk - R0(p))
  }

  predicate Live(p: Params, k: nat)
    requires 0 < p.chunk
  {
    Begin(p, k) < p.len
  }

  function Addr(p: Params, k: nat): nat
    requires 0 < p.chunk && 0 < p.nobjs
  {
    p.objStart + Place(p, Q0(p) + k, if k == 0 then R0(p) else 0)
  }

  function ChunkOf(p: Params, x: nat): nat
    requires 0 < p.chunk
  {
    (R0(p) + x) / p.chunk
  }

  /** Device address of buffer byte x. */
  function Dest(p: Params, x: nat): nat
    requires 0 < p.chunk && 0 < p.nobjs
  {
    p.objStart + Phys(p, p.start + x)
  }

  /** The command does exactly what its chunk should do. */
  ghost predicate Exact(p: Params, cmd: Cmd)
    requires 0 < p.chunk && 0 < p.nobjs
  {
    && Live(p, cmd.chunk) && cmd.sbuf == Begin(p, cmd.chunk)
    && Bytes(p, cmd) == End(p, cmd.chunk) - Begin(p, cmd.chunk)
    && cmd.slba * p.lba == Addr(p, cmd.chunk)
  }

  /** The slots of the array that holds the chains; chain i is set up in slot i. */
  const SLOTS: nat := 512

  /** A chain was set up outside the array. */
  predicate Strays(st: State) {
    SLOTS < st.launched
  }

  /**
   The transfer fits its first chunk, ends on a chunk boundary, or reaches its partial last chunk only
   after one whole round of nobjs chunks.
   */
  predicate EndFits(p: Params)
    requires 0 < p.chunk
  {
    || p.len <= p.chunk - R0(p)
    || (p.start + p.len) % p.chunk == 0
    || Begin(p, p.nobjs) < p.len
  }

  /** At most as many chains as there are slots are launched. */
  predicate ChainsFit(p: Params)
    requires 0 < p.chunk
  {
    p.nobjs <= SLOTS || !Live(p, SLOTS)
  }

  /** When the engine is right. */
  predicate Fits(p: Params)
    requires 0 < p.chunk
  {
    EndFits(p) && ChainsFit(p)
  }

  lemma BeginBasics(p: Params, k: nat)
    requires p.WellFormed()
    ensures 0 <= Begin(p, k) < (k + 1) * p.chunk - R0(p)
    ensures Begin(p, k + 1) == (k + 1) * p.chunk - R0(p)
    ensures (k + 1) * p.chunk == k * p.chunk + p.chunk
    ensures k > 0 ==> k * p.chunk >= p.chunk
  {
    Distribute(k, 1, p.chunk);
    if k > 0 {
      MulMonotone(1, k, p.chunk);
    }
  }

  lemma ChunkRange(p: Params, x: nat, k: nat)
    requires p.WellFormed()
    ensures x < p.len && ChunkOf(p, x) == k <==> Begin(p, k) <= x < End(p, k)
  {
    BeginBasics(p, k);
    var y := R0(p) + x;
    if Begin(p, k) <= x < End(p, k) {
      DivUnique(y, p.chunk, k, y - k * p.chunk);
    }
    if x < p.len && ChunkOf(p, x) == k {
      DivMod(y, p.chunk);
    }
  }

  /** Inside a chunk device addresses advance with the buffer. */
  lemma DestInChunk(p: Params, x: nat, k: nat)
    requires p.WellFormed() && Begin(p, k) <= x < End(p, k)
    ensures Dest(p, x) == Addr(p, k) + (x - Begin(p, k))
  {
    BeginBasics(p, k);
    var r := R0(p) + x - k * p.chunk;
    DivMod(p.start, p.chunk);
    Distribute(Q0(p), k, p.chunk);
    DivUnique(p.start + x, p.chunk, Q0(p) + k, r);
  }

  // ----- commands of the code are exact

  lemma BlocksBack(x: nat, b: nat)
    requires 0 < b <= x && x % b == 0 && x / b <= TWO_16
    ensures 0 <= x / b - 1 && ((x / b - 1) % TWO_16 + 1) * b == x
  {
    DivMod(x, b);
    if x / b < 1 {
      MulMonotone(x / b, 0, b);
    }
  }

  lemma BlockCount(p: Params, x: nat)
    requires p.WellFormed() && 0 < x <= p.chunk && x % p.lba == 0
    ensures p.lba <= x && x / p.lba <= TWO_16 && ((x / p.lba - 1) % TWO_16 + 1) * p.lba == x < TWO_32
  {
    DivMod(x, p.lba);
    if x / p.lba < 1 {
      MulMonotone(x / p.lba, 0, p.lba);
    }
    MulMonotone(1, x / p.lba, p.lba);
    DivMod(p.chunk, p.lba);
    if p.chunk / p.lba < x / p.lba {
      MulMonotone(p.chunk / p.lba + 1, x / p.lba, p.lba);
      Distribute(p.chunk / p.lba, 1, p.lba);
    }
    BlocksBack(x, p.lba);
    MulMonotone(1, p.nobjs, p.chunk);
  }

  lemma PlaceAligned(p: Params, q: nat, r: nat)
    requires p.WellFormed() && r % p.lba == 0
    ensures Place(p, q, r) % p.lba == 0
  {
    var row, o := q / p.nobjs, q % p.nobjs;
    DivUnique(p.ObjBytes(), p.lba, p.faobjNlbs, 0);
    MultipleProduct(row, p.chunk, p.lba);
    MultipleSum(row * p.chunk, r, p.lba);
    MultipleProduct(o, p.ObjBytes(), p.lba);
    MultipleSum(o * p.ObjBytes(), Join(row, r, p.chunk), p.lba);
  }

  /** The launched slba is the device block of the chunk. */
  lemma LaunchAddress(p: Params, k: nat)
    requires p.WellFormed() && p.Aligned()
    ensures 0 <= Begin(p, k)
    ensures p.total > 0 && (ObjSlba(p, Begin(p, k) + p.start) + StartLba(p)) * p.lba == Addr(p, k)
    ensures (Begin(p, k) + p.start) % p.chunk == if k == 0 then R0(p) else 0
  {
    BeginBasics(p, k);
    PositiveTotal(p);
    var x, r := Begin(p, k) + p.start, if k == 0 then R0(p) else 0;
    DivMod(p.start, p.chunk);
    Distribute(Q0(p), k, p.chunk);
    DivUnique(x, p.chunk, Q0(p) + k, r);
    ChunkFitsObject(p);
    TranslateIsPhys(p, x);
    MultipleMod(p.start, p.chunk, p.lba);
    PlaceAligned(p, Q0(p) + k, r);
    DivMod(Translate(p, x), p.lba);
    DivMod(p.objStart, p.lba);
    Distribute(ObjSlba(p, x), StartLba(p), p.lba);
  }

  lemma ChunkFitsObject(p: Params)
    requires p.WellFormed()
    ensures p.chunk <= p.ObjBytes()
  {
    DivMod(p.ObjBytes(), p.chunk);
    if p.ObjBytes() / p.chunk < 1 {
      MulMonotone(p.ObjBytes() / p.chunk, 0, p.chunk);
    } else {
      MulMonotone(1, p.ObjBytes() / p.chunk, p.chunk);
    }
  }

  /** Lengths in whole blocks. */
  lemma ChunkAligned(p: Params, k: nat)
    requires p.WellFormed() && p.Aligned()
    ensures Begin(p, k) % p.lba == 0 && (End(p, k) - Begin(p, k)) % p.lba == 0
  {
    MultipleMod(p.start, p.chunk, p.lba);
    MultipleProduct(k, p.chunk, p.lba);
    MultipleProduct(k + 1, p.chunk, p.lba);
    MultipleSum(k * p.chunk, R0(p), p.lba);
    MultipleSum((k + 1) * p.chunk, R0(p), p.lba);
    DivUnique(0, p.lba, 0, 0);
    MultipleSum(End(p, k), Begin(p, k), p.lba);
  }

  /** In the first round a chunk after the first one is whole, if the transfer fits. */
  lemma FirstRoundWhole(p: Params, i: nat)
    requires p.WellFormed() && EndFits(p) && 0 < i < p.nobjs && Live(p, i)
    ensures Begin(p, i) + p.chunk <= p.len
  {
    BeginBasics(p, i);
    MulMonotone(1, i, p.chunk);
    if Begin(p, p.nobjs) < p.len {
      MulMonotone(i + 1, p.nobjs, p.chunk);
    } else if (p.start + p.len) % p.chunk == 0 {
      WholeChunks(p.start, p.len, p.chunk, i);
    }
  }

  /** A transfer that ends on a boundary and goes past the start of chunk i takes all of it. */
  lemma WholeChunks(start: nat, len: nat, chunk: nat, i: nat)
    requires 0 < chunk && (start + len) % chunk == 0 && i * chunk - start % chunk < len
    ensures i * chunk - start % chunk + chunk <= len
  {
    var y, q := len - (i * chunk - start % chunk), start / chunk;
    DivMod(start, chunk);
    DivModShift(start + len, chunk, -(q + i));
    Distribute(q, i, chunk);
    assert y == start + len + -(q + i) * chunk;
    if y < chunk {
      DivUnique(y, chunk, 0, y);
    }
  }

  /** The length of a first command is that of its chunk. */
  lemma FirstLength(p: Params, i: nat)
    requires p.WellFormed() && p.Aligned() && EndFits(p) && i < p.nobjs && Live(p, i)
    ensures Min(p.len, p.chunk - (if i == 0 then R0(p) else 0)) == End(p, i) - Begin(p, i)
    ensures 0 < End(p, i) - Begin(p, i) <= p.chunk
  {
    BeginBasics(p, i);
    if i > 0 {
      FirstRoundWhole(p, i);
    }
  }

  lemma FirstExact(p: Params, i: nat)
    requires p.WellFormed() && p.Aligned() && EndFits(p) && i < p.nobjs && Live(p, i)
    ensures p.total > 0 && 0 <= Begin(p, i) && Exact(p, LaunchCmd(p, i, Begin(p, i)))
  {
    LaunchAddress(p, i);
    ChunkAligned(p, i);
    FirstLength(p, i);
    BlockCount(p, End(p, i) - Begin(p, i));
  }

  /** A chain is launched in a slot of the array, with the command of its first chunk. */
  lemma LaunchExact(p: Params, i: nat)
    requires p.WellFormed() && p.Aligned() && Fits(p) && i < p.nobjs && Live(p, i)
    ensures i < SLOTS
    ensures p.total > 0 && 0 <= Begin(p, i) && Exact(p, LaunchCmd(p, i, Begin(p, i)))
  {
    FirstExact(p, i);
    if SLOTS <= i {
      BeginMonotone(p, SLOTS, i);
    }
  }

  lemma BeginMonotone(p: Params, k: nat, k': nat)
    requires p.WellFormed() && k <= k'
    ensures Begin(p, k) <= Begin(p, k')
  {
    BeginBasics(p, k);
    MulMonotone(k, k', p.chunk);
    if k' > 0 {
      MulMonotone(1, k', p.chunk);
    }
  }

  /** The callback's next command: none exactly when the chain has no chunk left, else the right one. */
  lemma NextExact(p: Params, cmd: Cmd)
    requires p.WellFormed() && p.Aligned() && Exact(p, cmd)
    ensures NextSbuf(p, cmd.sbuf, cmd.nlbs) < p.len <==> Live(p, cmd.chunk + p.nobjs)
    ensures Live(p, cmd.chunk + p.nobjs) ==> Exact(p, NextCmd(p, cmd))
  {
    NextBegins(p, cmd);
    if Live(p, cmd.chunk + p.nobjs) {
      NextLength(p, cmd.chunk + p.nobjs);
      NextPlace(p, cmd);
    }
  }

  /** The buffer offset of the next command is where the next chunk of the lane begins. */
  lemma NextBegins(p: Params, cmd: Cmd)
    requires p.WellFormed() && Exact(p, cmd)
    ensures NextSbuf(p, cmd.sbuf, cmd.nlbs) < p.len <==> Live(p, cmd.chunk + p.nobjs)
    ensures Live(p, cmd.chunk + p.nobjs) ==>
      NextSbuf(p, cmd.sbuf, cmd.nlbs) == Begin(p, cmd.chunk + p.nobjs) && End(p, cmd.chunk) == (cmd.chunk + 1) * p.chunk - R0(p)
  {
    var k, n, c := cmd.chunk, p.nobjs, p.chunk;
    NextSbufIs(p, cmd);
    BeginBasics(p, k);
    BeginBasics(p, k + n);
    MulMonotone(k + 1, k + n, c);
  }

  lemma NextLength(p: Params, k: nat)
    requires p.WellFormed() && p.Aligned() && Live(p, k) && 0 < k
    ensures 0 <= Begin(p, k) && (NextNlbs(p, Begin(p, k)) + 1) * p.lba == End(p, k) - Begin(p, k)
  {
    BeginBasics(p, k);
    ChunkAligned(p, k);
    BlockCount(p, End(p, k) - Begin(p, k));
  }

  lemma NextPlace(p: Params, cmd: Cmd)
    requires p.WellFormed() && Exact(p, cmd) && End(p, cmd.chunk) == (cmd.chunk + 1) * p.chunk - R0(p)
    ensures (cmd.slba + cmd.nlbs + 1) * p.lba == Addr(p, cmd.chunk + p.nobjs)
  {
    NextAddr(p, cmd.chunk);
    Distribute(cmd.slba, cmd.nlbs + 1, p.lba);
  }

  lemma NoWrap(x: int)
    requires 0 <= x < TWO_32
    ensures x % TWO_32 == x
  {
  }

  lemma RoundOfChunks(k: nat, n: nat, c: nat)
    requires 0 < n
    ensures 0 <= c * (n - 1) <= c * n
    ensures (k + 1) * c + c * (n - 1) == (k + n) * c
  {
    MulMonotone(n - 1, n, c);
    MulMonotone(0, n - 1, c);
    Distribute(k + 1, n - 1, c);
  }

  lemma NextSbufIs(p: Params, cmd: Cmd)
    requires p.WellFormed() && Exact(p, cmd)
    ensures NextSbuf(p, cmd.sbuf, cmd.nlbs) == End(p, cmd.chunk) + p.chunk * (p.nobjs - 1)
    ensures (cmd.chunk + 1) * p.chunk + p.chunk * (p.nobjs - 1) == (cmd.chunk + p.nobjs) * p.chunk
  {
    RoundOfChunks(cmd.chunk, p.nobjs, p.chunk);
    NoWrap(p.chunk * (p.nobjs - 1));
    BeginBasics(p, cmd.chunk);
    MulMonotone(1, p.nobjs, p.chunk);
    NoWrap(Bytes(p, cmd));
  }

  lemma NextAddr(p: Params, k: nat)
    requires p.WellFormed()
    ensures Addr(p, k + p.nobjs) == Addr(p, k) + ((k + 1) * p.chunk - R0(p) - Begin(p, k))
  {
    BeginBasics(p, k);
    var q := Q0(p) + k;
    DivModShift(q, p.nobjs, 1);
    Distribute(q / p.nobjs, 1, p.chunk);
  }
}
