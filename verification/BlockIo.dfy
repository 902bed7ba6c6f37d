/**
 Block transfers: the loops of src/flexalloc_xnvme_env.c that split a transfer at the device's limit, and
 the read-modify-write of fla_object_unaligned_write in src/flexalloc_mm.c.
 */
module BlockIo {
  import opened Arith

  newtype byte = b: int | 0 <= b < 256

  /** s with data written over it from position at on. */
  function Spliced<T>(s: seq<T>, at: nat, data: seq<T>): (r: seq<T>)
    requires at + |data| <= |s|
    ensures |r| == |s|
    ensures forall i {:trigger r[i]} :: 0 <= i < |s| ==> r[i] == if at <= i < at + |data| then data[i - at] else s[i]
  {
    s[..at] + data + s[at + |data|..]
  }

  /** Writing the next piece of a buffer after what was written before. */
  lemma SpliceMore<T>(s: seq<T>, at: nat, buf: seq<T>, w: nat, w': nat, pos: nat)
    requires at + |buf| <= |s| && w <= w' <= |buf| && pos == at + w
    ensures Spliced(Spliced(s, at, buf[..w]), pos, buf[w..w']) == Spliced(s, at, buf[..w'])
  {
  }

  lemma SpliceAll<T>(s: seq<T>, at: nat, buf: seq<T>)
    requires at + |buf| <= |s|
    ensures Spliced(s, at, buf[..0]) == s && buf[..|buf|] == buf
  {
  }

  lemma SubSlice<T>(s: seq<T>, a: nat, b: nat, lo: nat, hi: nat, from: nat, to: nat)
    requires a <= b <= |s| && lo <= hi && a + hi <= b && from == a + lo && to == a + hi
    ensures s[a..b][lo..hi] == s[from..to]
  {
    var t := s[a..b];
    assert forall i {:trigger t[lo..hi][i]} :: 0 <= i < hi - lo ==> t[lo..hi][i] == t[lo + i];
  }

  function MinOf(a: nat, b: nat): nat { if a < b then a else b }

  // ----- bytes in blocks

  function BlockNo(x: nat, lb: nat): nat
    requires 0 < lb
  {
    x / lb
  }

  function InBlock(x: nat, lb: nat): (r: nat)
    requires 0 < lb
    ensures r < lb
  {
    x % lb
  }

  /** All blocks have lb bytes. */
  ghost predicate Uniform(blocks: seq<seq<byte>>, lb: nat) {
    forall i {:trigger blocks[i]} :: 0 <= i < |blocks| ==> |blocks[i]| == lb
  }

  /** Byte x of a sequence of blocks. */
  function ByteAt(blocks: seq<seq<byte>>, lb: nat, x: nat): byte
    requires 0 < lb && Uniform(blocks, lb) && BlockNo(x, lb) < |blocks|
  {
    blocks[BlockNo(x, lb)][InBlock(x, lb)]
  }

  lemma BlockNoMonotone(x: nat, y: nat, lb: nat)
    requires 0 < lb && x <= y
    ensures BlockNo(x, lb) <= BlockNo(y, lb)
  {
    DivMod(x, lb);
    DivMod(y, lb);
    if y / lb < x / lb {
      MulMonotone(y / lb + 1, x / lb, lb);
      Distribute(y / lb, 1, lb);
    }
  }

  /** A block starts at a multiple of the block size. */
  lemma BlockStarts(x: nat, lb: nat)
    requires 0 < lb && 0 < x
    ensures InBlock(x, lb) == 0 ==> BlockNo(x, lb) == BlockNo(x - 1, lb) + 1
    ensures InBlock(x, lb) != 0 ==> BlockNo(x, lb) == BlockNo(x - 1, lb)
    ensures CeilDiv(x, lb) == BlockNo(x - 1, lb) + 1
  {
    var q, r := x / lb, x % lb;
    DivMod(x, lb);
    Distribute(q, -1, lb);
    Distribute(q, 1, lb);
    if r == 0 {
      DivUnique(x - 1, lb, q - 1, lb - 1);
      DivUnique(x + lb - 1, lb, q, lb - 1);
    } else {
      DivUnique(x - 1, lb, q, r - 1);
      DivUnique(x + lb - 1, lb, q + 1, r - 1);
    }
  }

  /** The blocks lo up to hi that hold the bytes sb up to eb. */
  ghost predicate Spans(lo: nat, hi: nat, sb: nat, eb: nat, lb: nat)
    requires 0 < lb
  {
    lo == BlockNo(sb, lb) && hi == CeilDiv(eb, lb) && lo < hi
  }

  lemma SpanExists(sb: nat, eb: nat, lb: nat)
    requires 0 < lb && sb <= eb && (sb < eb || InBlock(sb, lb) != 0)
    ensures Spans(BlockNo(sb, lb), CeilDiv(eb, lb), sb, eb, lb)
  {
    DivMod(sb, lb);
    BlockStarts(eb, lb);
    if sb < eb {
      BlockNoMonotone(sb, eb - 1, lb);
    }
  }

  /** Where a byte is in relation to the span. */
  lemma ByteInSpan(lo: nat, hi: nat, sb: nat, eb: nat, lb: nat, x: nat)
    requires 0 < lb && sb <= eb && Spans(lo, hi, sb, eb, lb)
    ensures sb <= x < eb ==> lo <= BlockNo(x, lb) < hi
    ensures x < sb && lo <= BlockNo(x, lb) ==> BlockNo(x, lb) == lo && InBlock(sb, lb) != 0
    ensures eb <= x && BlockNo(x, lb) < hi ==> BlockNo(x, lb) == hi - 1 && InBlock(eb, lb) != 0
  {
    if eb > 0 {
      BlockStarts(eb, lb);
    }
    if sb <= x < eb {
      BlockNoMonotone(sb, x, lb);
      BlockNoMonotone(x, eb - 1, lb);
    } else if x < sb {
      BlockStarts(sb, lb);
      BlockNoMonotone(x, sb - 1, lb);
      BlockNoMonotone(sb - 1, sb, lb);
    } else {
      BlockNoMonotone(eb, x, lb);
      if eb > 0 {
        BlockNoMonotone(eb - 1, eb, lb);
      }
    }
  }

  /** The bounce buffer, which stands for the blocks lo up to hi, agrees with the device before sb and from eb on. */
  ghost predicate Edges(bounce: seq<seq<byte>>, blocks: seq<seq<byte>>, sb: nat, eb: nat, lb: nat, lo: nat)
    requires 0 < lb
  {
    && 0 < |bounce| && lo + |bounce| <= |blocks|
    && (InBlock(sb, lb) != 0 ==> bounce[0] == blocks[lo])
    && (InBlock(eb, lb) != 0 ==> bounce[|bounce| - 1] == blocks[lo + |bounce| - 1])
  }

  /** Byte x of the span, with n bytes of wbuf copied over the bounce buffer first. */
  ghost function Expected(first: seq<seq<byte>>, lb: nat, sb: nat, wbuf: seq<byte>, n: nat, lo: nat, x: nat): byte
    requires 0 < lb && Uniform(first, lb) && n <= |wbuf| && lo <= BlockNo(x, lb) < lo + |first|
  {
    if sb <= x < sb + n then wbuf[x - sb] else first[BlockNo(x, lb) - lo][InBlock(x, lb)]
  }

  /** The bounce buffer has n bytes of wbuf from byte sb on, and is first otherwise. */
  ghost predicate Copied(buf: seq<seq<byte>>, first: seq<seq<byte>>, lb: nat, sb: nat, wbuf: seq<byte>, n: nat, lo: nat)
    requires 0 < lb && Uniform(first, lb) && n <= |wbuf|
  {
    && |buf| == |first| && Uniform(buf, lb)
    && forall x: nat {:trigger Expected(first, lb, sb, wbuf, n, lo, x)} :: lo <= BlockNo(x, lb) < lo + |first| ==>
      buf[BlockNo(x, lb) - lo][InBlock(x, lb)] == Expected(first, lb, sb, wbuf, n, lo, x)
  }

  lemma SameByte(x: nat, y: nat, lb: nat)
    requires 0 < lb && BlockNo(x, lb) == BlockNo(y, lb) && InBlock(x, lb) == InBlock(y, lb)
    ensures x == y
  {
    DivMod(x, lb);
    DivMod(y, lb);
  }

  lemma CopyOne(buf: seq<seq<byte>>, buf': seq<seq<byte>>, first: seq<seq<byte>>, lb: nat, sb: nat, wbuf: seq<byte>, n: nat, lo: nat)
    requires 0 < lb && Uniform(first, lb) && n < |wbuf| && Copied(buf, first, lb, sb, wbuf, n, lo)
    requires var k, i := BlockNo(sb + n, lb), InBlock(sb + n, lb);
      lo <= k < lo + |first| && buf' == buf[k - lo := buf[k - lo][i := wbuf[n]]]
    ensures Copied(buf', first, lb, sb, wbuf, n + 1, lo)
  {
    forall x: nat | lo <= BlockNo(x, lb) < lo + |first|
      ensures buf'[BlockNo(x, lb) - lo][InBlock(x, lb)] == Expected(first, lb, sb, wbuf, n + 1, lo, x)
    {
      assert buf[BlockNo(x, lb) - lo][InBlock(x, lb)] == Expected(first, lb, sb, wbuf, n, lo, x);
      if BlockNo(x, lb) == BlockNo(sb + n, lb) && InBlock(x, lb) == InBlock(sb + n, lb) {
        SameByte(x, sb + n, lb);
      }
    }
  }

  /** Writing back the blocks with the new bytes in them changes just these bytes. */
  lemma WriteBack(blocks: seq<seq<byte>>, first: seq<seq<byte>>, buf: seq<seq<byte>>, lb: nat, sb: nat, wbuf: seq<byte>, lo: nat, x: nat)
    requires 0 < lb && Uniform(blocks, lb) && Uniform(first, lb) && BlockNo(x, lb) < |blocks|
    requires Spans(lo, lo + |first|, sb, sb + |wbuf|, lb) && Edges(first, blocks, sb, sb + |wbuf|, lb, lo)
    requires Copied(buf, first, lb, sb, wbuf, |wbuf|, lo)
    ensures Uniform(Spliced(blocks, lo, buf), lb)
    ensures ByteAt(Spliced(blocks, lo, buf), lb, x) == if sb <= x < sb + |wbuf| then wbuf[x - sb] else ByteAt(blocks, lb, x)
  {
    ByteInSpan(lo, lo + |first|, sb, sb + |wbuf|, lb, x);
    if lo <= BlockNo(x, lb) < lo + |first| {
      assert buf[BlockNo(x, lb) - lo][InBlock(x, lb)] == Expected(first, lb, sb, wbuf, |wbuf|, lo, x);
    }
  }

  class Device {
    /** Bytes in a block, and how many blocks one command may carry. */
    const lb: nat
    const limit: nat
    var blocks: seq<seq<byte>>

    ghost predicate Valid()
      reads this
    {
      0 < lb && 0 < limit && Uniform(blocks, lb)
    }

    /** One write command; nlb is zero based. */
    method NvmWrite(slba: nat, nlb: nat, data: seq<seq<byte>>)
      requires slba + nlb < |blocks| && |data| == nlb + 1 && nlb < limit
      modifies this
      ensures blocks == Spliced(old(blocks), slba, data)
    {
      blocks := Spliced(blocks, slba, data);
    }

    /** Splitting the write at the limit has the effect of one whole write. */
    method SyncWrite(slba: nat, elba: nat, buf: seq<seq<byte>>)
      requires 0 < limit && slba <= elba < |blocks| && |buf| == elba + 1 - slba
      modifies this
      ensures blocks == Spliced(old(blocks), slba, buf)
    {
      ghost var start := blocks;
      var at, wbuf := slba, 0;
      SpliceAll(start, slba, buf);
      while at <= elba
        invariant wbuf <= |buf| && |blocks| == |start| && (if at <= elba then at == slba + wbuf else wbuf == |buf|)
        invariant blocks == Spliced(start, slba, buf[..wbuf])
        decreases elba + 1 - at
      {
        var nlb := MinOf(elba - at, limit - 1);
        var next := wbuf + (nlb + 1);
        SpliceMore(start, slba, buf, wbuf, next, at);
        NvmWrite(at, nlb, buf[wbuf..next]);
        wbuf := next;
        at := at + limit;
      }
    }

    /** One read command into the buffer, from position off on; data is what the blocks hold. */
    method NvmRead(slba: nat, nlb: nat, buf: array<seq<byte>>, off: nat, ghost data: seq<seq<byte>>)
      requires slba + nlb < |blocks| && nlb < limit && off + nlb < buf.Length && data == blocks[slba..slba + nlb + 1]
      modifies buf
      ensures buf[..] == Spliced(old(buf[..]), off, data)
    {
      for i := 0 to nlb + 1
        invariant buf[..] == Spliced(old(buf[..]), off, data[..i])
      {
        buf[off + i] := blocks[slba + i];
      }
    }

    /** Splitting the read at the limit has the effect of one whole read into the buffer from position off on. */
    method SyncRead(slba: nat, elba: nat, buf: array<seq<byte>>, off: nat)
      requires 0 < limit && slba <= elba < |blocks| && off + (elba + 1 - slba) <= buf.Length
      modifies buf
      ensures buf[..] == Spliced(old(buf[..]), off, blocks[slba..elba + 1])
    {
      ghost var start, want := buf[..], blocks[slba..elba + 1];
      var at, rbuf := slba, 0;
      SpliceAll(start, off, want);
      while at <= elba
        invariant rbuf <= |want| && (if at <= elba then at == slba + rbuf else rbuf == |want|)
        invariant buf[..] == Spliced(start, off, want[..rbuf])
        decreases elba + 1 - at
      {
        var nlb := MinOf(elba - at, limit - 1);
        var next := rbuf + (nlb + 1);
        SpliceMore(start, off, want, rbuf, next, off + rbuf);
        SubSlice(blocks, slba, elba + 1, rbuf, next, at, at + nlb + 1);
        NvmRead(at, nlb, buf, off + rbuf, want[rbuf..next]);
        rbuf := next;
        at := at + limit;
      }
    }

    method ReadBlock(lba: nat, buf: array<seq<byte>>, pos: nat)
      requires 0 < limit && lba < |blocks| && pos < buf.Length
      modifies buf
      ensures buf[..] == old(buf[..])[pos := blocks[lba]]
    {
      SyncRead(lba, lba, buf, pos);
    }

    /** Reads the block a range starts inside, and the block it ends inside; they may be the same. */
    method FillBounce(lo: nat, hi: nat, sb: nat, eb: nat) returns (bounce: array<seq<byte>>)
      requires Valid() && lo < hi <= |blocks|
      ensures fresh(bounce) && bounce.Length == hi - lo && Uniform(bounce[..], lb)
      ensures Edges(bounce[..], blocks, sb, eb, lb, lo)
    {
      bounce := new seq<byte>[hi - lo](_ => seq(lb, _ => 0));
      if InBlock(sb, lb) != 0 {
        ReadBlock(lo, bounce, 0);
      }
      if InBlock(eb, lb) != 0 {
        ReadBlock(hi - 1, bounce, hi - lo - 1);
      }
    }

    /**
     Changes exactly the |wbuf| bytes from the given offset on, through a buffer of whole blocks.  An empty
     range at a block boundary has no block to write and is refused by the device.
     */
    method UnalignedWrite(objSlba: nat, offset: nat, wbuf: seq<byte>)
      requires Valid() && (wbuf != [] || InBlock(objSlba * lb + offset, lb) != 0)
      requires CeilDiv(objSlba * lb + offset + |wbuf|, lb) <= |blocks|
      modifies this
      ensures Valid() && |blocks| == |old(blocks)|
      ensures var sb := objSlba * lb + offset;
        forall x: nat {:trigger ByteAt(blocks, lb, x)} :: BlockNo(x, lb) < |blocks| ==>
          ByteAt(blocks, lb, x) == if sb <= x < sb + |wbuf| then wbuf[x - sb] else ByteAt(old(blocks), lb, x)
    {
      var sb := objSlba * lb + offset;
      WriteBytes(sb, wbuf);
    }

    method WriteBytes(sb: nat, wbuf: seq<byte>)
      requires Valid() && (wbuf != [] || InBlock(sb, lb) != 0) && CeilDiv(sb + |wbuf|, lb) <= |blocks|
      modifies this
      ensures Valid() && |blocks| == |old(blocks)|
      ensures forall x: nat {:trigger ByteAt(blocks, lb, x)} :: BlockNo(x, lb) < |blocks| ==>
        ByteAt(blocks, lb, x) == if sb <= x < sb + |wbuf| then wbuf[x - sb] else ByteAt(old(blocks), lb, x)
    {
      var eb := sb + |wbuf|;
      var lo, hi := BlockNo(sb, lb), CeilDiv(eb, lb);
      SpanExists(sb, eb, lb);
      ghost var start := blocks;
      var bounce := FillBounce(lo, hi, sb, eb);
      ghost var first := bounce[..];
      CopyInto(bounce, lb, sb, wbuf, lo);
      SyncWrite(lo, hi - 1, bounce[..]);
      WriteBackAll(start, first, bounce[..], lb, sb, wbuf, lo);
    }
  }

  lemma WriteBackAll(blocks: seq<seq<byte>>, first: seq<seq<byte>>, buf: seq<seq<byte>>, lb: nat, sb: nat, wbuf: seq<byte>, lo: nat)
    requires 0 < lb && Uniform(blocks, lb) && Uniform(first, lb)
    requires Spans(lo, lo + |first|, sb, sb + |wbuf|, lb) && Edges(first, blocks, sb, sb + |wbuf|, lb, lo)
    requires Copied(buf, first, lb, sb, wbuf, |wbuf|, lo)
    ensures Uniform(Spliced(blocks, lo, buf), lb)
    ensures var blocks' := Spliced(blocks, lo, buf);
      forall x: nat {:trigger ByteAt(blocks', lb, x)} :: BlockNo(x, lb) < |blocks'| ==>
        ByteAt(blocks', lb, x) == if sb <= x < sb + |wbuf| then wbuf[x - sb] else ByteAt(blocks, lb, x)
  {
    WriteBack(blocks, first, buf, lb, sb, wbuf, lo, sb);
    forall x: nat | BlockNo(x, lb) < |blocks|
      ensures ByteAt(Spliced(blocks, lo, buf), lb, x) == if sb <= x < sb + |wbuf| then wbuf[x - sb] else ByteAt(blocks, lb, x)
    {
      WriteBack(blocks, first, buf, lb, sb, wbuf, lo, x);
    }
  }

  /** memcpy into a buffer that stands for the blocks from lo on. */
  method CopyInto(buf: array<seq<byte>>, lb: nat, sb: nat, wbuf: seq<byte>, lo: nat)
    requires 0 < lb && Uniform(buf[..], lb) && Spans(lo, lo + buf.Length, sb, sb + |wbuf|, lb)
    modifies buf
    ensures Copied(buf[..], old(buf[..]), lb, sb, wbuf, |wbuf|, lo)
  {
    ghost var first := buf[..];
    for n := 0 to |wbuf|
      invariant Copied(buf[..], first, lb, sb, wbuf, n, lo)
    {
      ghost var before := buf[..];
      var k, i := BlockNo(sb + n, lb), InBlock(sb + n, lb);
      ByteInSpan(lo, lo + buf.Length, sb, sb + |wbuf|, lb, sb + n);
      buf[k - lo] := buf[k - lo][i := wbuf[n]];
      CopyOne(before, buf[..], first, lb, sb, wbuf, n, lo);
    }
  }
}
