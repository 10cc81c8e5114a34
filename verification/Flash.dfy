/** The flash device under the bootloader: erase and write commands that may fail, what a run
    of them leaves in memory, and the device as an object.  Addresses index `mem` directly. */
module Flash {
  import opened Words
  import opened Mbin

  /** The value erased bytes read as. */
  const ERASE_VALUE: byte := 0xFF

  /** What the hardware does with one command.  A command that fails may leave anything in the
      range it was given: the byte at address `a` becomes `junk(a)`. */
  datatype Response = Works | Fails(junk: int -> byte)

  /** The responses of the hardware, command by command. */
  type Hardware = nat -> Response

  /** `mem` with `data` stored at `addr`. */
  function Patch(mem: seq<byte>, addr: nat, data: seq<byte>): (r: seq<byte>)
    requires addr + |data| <= |mem|
    ensures |r| == |mem|
    ensures forall i :: 0 <= i < |mem| ==>
              r[i] == if addr <= i < addr + |data| then data[i - addr] else mem[i]
  {
    mem[..addr] + data + mem[addr + |data|..]
  }

  function Junk(addr: nat, size: nat, junk: int -> byte): (r: seq<byte>)
    ensures |r| == size
  {
    seq(size, i => junk(addr + i))
  }

  /** `m` and `m'` differ at most at addresses in `[from, to)`. */
  ghost predicate SameOutside(m: seq<byte>, m': seq<byte>, from: nat, to: nat) {
    && |m| == |m'|
    && forall i :: 0 <= i < |m| && !(from <= i < to) ==> m[i] == m'[i]
  }

  /** The blocks of the device: size by start address, for every block start from `addr` up to
      the first one at or after `end`.  Each of them ends below 2^32. */
  predicate Tiles(blocks: map<nat, nat>, addr: nat, end: nat, limit: nat)
    decreases end - addr
  {
    if addr >= end then addr <= limit
    else
      && addr in blocks && blocks[addr] > 0 && addr + blocks[addr] < U32
      && Tiles(blocks, addr + blocks[addr], end, limit)
  }

  /** The end of the last block that starts before `end`. */
  function Cover(blocks: map<nat, nat>, addr: nat, end: nat, limit: nat): (r: nat)
    requires Tiles(blocks, addr, end, limit)
    ensures addr <= r <= limit && end <= r
    decreases end - addr
  {
    if addr >= end then addr else Cover(blocks, addr + blocks[addr], end, limit)
  }

  // ---------------------------------------------------------------------------------------
  // Runs of commands
  // ---------------------------------------------------------------------------------------

  /** The memory after one command, and whether the command reported success. */
  datatype Effect = Effect(ok: bool, mem: seq<byte>)

  function EraseEffect(mem: seq<byte>, addr: nat, size: nat, r: Response): (e: Effect)
    requires addr + size <= |mem|
    ensures SameOutside(mem, e.mem, addr, addr + size)
    ensures e.ok ==> forall i :: addr <= i < addr + size ==> e.mem[i] == ERASE_VALUE
  {
    match r
    case Works => Effect(true, Patch(mem, addr, seq(size, _ => ERASE_VALUE)))
    case Fails(junk) => Effect(false, Patch(mem, addr, Junk(addr, size, junk)))
  }

  /** A write that does not lie in the device fails and changes nothing. */
  function WriteEffect(mem: seq<byte>, s: Segment, r: Response): (e: Effect)
    ensures SameOutside(mem, e.mem, s.addr, s.addr + |s.data|)
    ensures e.ok ==> e.mem == Store(mem, s)
  {
    if s.addr + |s.data| > |mem| then Effect(false, mem) else
    match r
    case Works => Effect(true, Patch(mem, s.addr, s.data))
    case Fails(junk) => Effect(false, Patch(mem, s.addr, Junk(s.addr, |s.data|, junk)))
  }

  function Store(mem: seq<byte>, s: Segment): (r: seq<byte>)
    ensures |r| == |mem|
  {
    if s.addr + |s.data| > |mem| then mem else Patch(mem, s.addr, s.data)
  }

  /** `segs` stored in order. */
  function Fold(mem: seq<byte>, segs: seq<Segment>): (r: seq<byte>)
    ensures |r| == |mem|
    decreases |segs|
  {
    if segs == [] then mem else Fold(Store(mem, segs[0]), segs[1..])
  }

  /** The result of a run of commands: the memory, the commands used, the erase calls made. */
  datatype Run = Run(ok: bool, mem: seq<byte>, ops: nat, erases: multiset<nat>)

  /** Erasing one block, with one more try if the first fails. */
  function EraseTwice(blocks: map<nat, nat>, mem: seq<byte>, addr: nat, hw: Hardware, ops: nat): (r: Run)
    requires addr in blocks && addr + blocks[addr] <= |mem|
    ensures SameOutside(mem, r.mem, addr, addr + blocks[addr])
    ensures r.ok ==> forall i :: addr <= i < addr + blocks[addr] ==> r.mem[i] == ERASE_VALUE
    ensures r.ok == (hw(ops).Works? || hw(ops + 1).Works?)
    ensures ops < r.ops
  {
    var first := EraseEffect(mem, addr, blocks[addr], hw(ops));
    if first.ok then Run(true, first.mem, ops + 1, multiset{addr}) else
    var second := EraseEffect(first.mem, addr, blocks[addr], hw(ops + 1));
    Run(second.ok, second.mem, ops + 2, multiset{addr} + multiset{addr})
  }

  /** Erasing block after block up to the first that fails twice. */
  function EraseFrom(blocks: map<nat, nat>, mem: seq<byte>, addr: nat, end: nat, hw: Hardware, ops: nat): (r: Run)
    requires Tiles(blocks, addr, end, |mem|)
    ensures |r.mem| == |mem| && ops <= r.ops
    decreases end - addr
  {
    if addr >= end then Run(true, mem, ops, multiset{}) else
    CoverStep(blocks, addr, end, |mem|);
    var b := EraseTwice(blocks, mem, addr, hw, ops);
    if !b.ok then b else
    var r := EraseFrom(blocks, b.mem, addr + blocks[addr], end, hw, b.ops);
    r.(erases := b.erases + r.erases)
  }

  lemma EraseUnfold(blocks: map<nat, nat>, mem: seq<byte>, addr: nat, end: nat, hw: Hardware, ops: nat)
    requires addr < end && Tiles(blocks, addr, end, |mem|)
    ensures addr in blocks && 0 < blocks[addr] && addr + blocks[addr] <= |mem|
    ensures var b := EraseTwice(blocks, mem, addr, hw, ops);
      && Tiles(blocks, addr + blocks[addr], end, |b.mem|)
      && EraseFrom(blocks, mem, addr, end, hw, ops) ==
           if !b.ok then b else
           var r := EraseFrom(blocks, b.mem, addr + blocks[addr], end, hw, b.ops);
           r.(erases := b.erases + r.erases)
  {
    CoverStep(blocks, addr, end, |mem|);
  }

  lemma CoverStep(blocks: map<nat, nat>, addr: nat, end: nat, limit: nat)
    requires addr < end && Tiles(blocks, addr, end, limit)
    ensures addr + blocks[addr] <= Cover(blocks, addr, end, limit) <= limit
  {
  }

  /** Writing segment after segment up to the first failure. */
  function ProgramAll(mem: seq<byte>, segs: seq<Segment>, hw: Hardware, ops: nat): (r: Run)
    ensures ops <= r.ops
    ensures r.erases == multiset{} && |r.mem| == |mem|
    decreases |segs|
  {
    if segs == [] then Run(true, mem, ops, multiset{}) else
    var e := WriteEffect(mem, segs[0], hw(ops));
    if e.ok then ProgramAll(e.mem, segs[1..], hw, ops + 1) else Run(false, e.mem, ops + 1, multiset{})
  }

  // ---------------------------------------------------------------------------------------
  // What the runs achieve
  // ---------------------------------------------------------------------------------------

  /** Erasing covers every byte of the area, whatever the mixture of block sizes, touches
      nothing but the blocks that start before its end, and calls erase at most twice a block. */
  lemma {:induction false} EraseCovers(
      blocks: map<nat, nat>, mem: seq<byte>, addr: nat, end: nat, hw: Hardware, ops: nat)
    requires Tiles(blocks, addr, end, |mem|)
    ensures var r, top := EraseFrom(blocks, mem, addr, end, hw, ops), Cover(blocks, addr, end, |mem|);
            && SameOutside(mem, r.mem, addr, top)
            && (r.ok ==> forall i :: addr <= i < top ==> r.mem[i] == ERASE_VALUE)
            && (forall b :: r.erases[b] <= if addr <= b < end then 2 else 0)
    decreases end - addr
  {
    if addr < end {
      CoverStep(blocks, addr, end, |mem|);
      var b := EraseTwice(blocks, mem, addr, hw, ops);
      if b.ok {
        EraseCovers(blocks, b.mem, addr + blocks[addr], end, hw, b.ops);
      }
    }
  }

  /** A programming run that reports success has stored every segment, in order. */
  lemma {:induction false} ProgramStores(mem: seq<byte>, segs: seq<Segment>, hw: Hardware, ops: nat)
    ensures var r := ProgramAll(mem, segs, hw, ops);
            && |r.mem| == |mem|
            && (r.ok ==> r.mem == Fold(mem, segs)
                         && forall i :: 0 <= i < |segs| ==> segs[i].addr + |segs[i].data| <= |mem|)
    decreases |segs|
  {
    if segs != [] {
      var e := WriteEffect(mem, segs[0], hw(ops));
      if e.ok {
        ProgramStores(e.mem, segs[1..], hw, ops + 1);
      }
    }
  }

  /** The `i`th write of a run is inside the device and the hardware takes it. */
  predicate WriteWorks(limit: nat, segs: seq<Segment>, hw: Hardware, ops: nat, i: nat)
    requires i < |segs|
  {
    hw(ops + i).Works? && segs[i].addr + |segs[i].data| <= limit
  }

  /** Programming succeeds exactly when no write fails. */
  lemma {:induction false} ProgramWorks(mem: seq<byte>, segs: seq<Segment>, hw: Hardware, ops: nat)
    ensures ProgramAll(mem, segs, hw, ops).ok <==>
              forall i :: 0 <= i < |segs| ==> WriteWorks(|mem|, segs, hw, ops, i)
    decreases |segs|
  {
    if segs != [] {
      var e, rest := WriteEffect(mem, segs[0], hw(ops)), segs[1..];
      assert e.ok == WriteWorks(|mem|, segs, hw, ops, 0);
      if e.ok {
        ProgramWorks(e.mem, rest, hw, ops + 1);
        if ProgramAll(e.mem, rest, hw, ops + 1).ok {
          forall i | 0 <= i < |segs|
            ensures WriteWorks(|mem|, segs, hw, ops, i)
          {
            if i > 0 {
              assert WriteWorks(|mem|, rest, hw, ops + 1, i - 1);
              assert ops + i == ops + 1 + (i - 1);
            }
          }
        } else {
          var j :| 0 <= j < |rest| && !WriteWorks(|mem|, rest, hw, ops + 1, j);
          assert ops + 1 + j == ops + (j + 1);
          assert !WriteWorks(|mem|, segs, hw, ops, j + 1);
        }
      }
    }
  }

  /** Success and the number of commands do not depend on what is in the flash. */
  lemma {:induction false} EraseHasNoContent(
      blocks: map<nat, nat>, mem: seq<byte>, mem': seq<byte>, addr: nat, end: nat, hw: Hardware, ops: nat)
    requires |mem| == |mem'| && Tiles(blocks, addr, end, |mem|)
    ensures var r, r' := EraseFrom(blocks, mem, addr, end, hw, ops), EraseFrom(blocks, mem', addr, end, hw, ops);
            r.ok == r'.ok && r.ops == r'.ops
    decreases end - addr
  {
    if addr < end {
      CoverStep(blocks, addr, end, |mem|);
      var b, b' := EraseTwice(blocks, mem, addr, hw, ops), EraseTwice(blocks, mem', addr, hw, ops);
      if b.ok {
        EraseHasNoContent(blocks, b.mem, b'.mem, addr + blocks[addr], end, hw, b.ops);
      }
    }
  }

  /** Nor on what is written, only on where. */
  lemma {:induction false} ProgramHasNoContent(
      mem: seq<byte>, mem': seq<byte>, segs: seq<Segment>, segs': seq<Segment>, hw: Hardware, ops: nat)
    requires |mem| == |mem'| && SameRanges(segs, segs')
    ensures var r, r' := ProgramAll(mem, segs, hw, ops), ProgramAll(mem', segs', hw, ops);
            r.ok == r'.ok && r.ops == r'.ops
    decreases |segs|
  {
    if segs != [] {
      var e, e' := WriteEffect(mem, segs[0], hw(ops)), WriteEffect(mem', segs'[0], hw(ops));
      assert e.ok == e'.ok;
      if e.ok {
        ProgramHasNoContent(e.mem, e'.mem, segs[1..], segs'[1..], hw, ops + 1);
      }
    }
  }

  /** A run of segments inside `[from, to)` leaves everything else alone, success or not. */
  lemma {:induction false} ProgramStaysInside(
      mem: seq<byte>, segs: seq<Segment>, hw: Hardware, ops: nat, from: nat, to: nat)
    requires forall i :: 0 <= i < |segs| ==> from <= segs[i].addr && segs[i].addr + |segs[i].data| <= to
    ensures SameOutside(mem, ProgramAll(mem, segs, hw, ops).mem, from, to)
    decreases |segs|
  {
    if segs != [] {
      var e := WriteEffect(mem, segs[0], hw(ops));
      if e.ok {
        ProgramStaysInside(e.mem, segs[1..], hw, ops + 1, from, to);
      }
    }
  }

  lemma {:induction false} FoldAppend(mem: seq<byte>, segs: seq<Segment>, s: Segment)
    ensures Fold(mem, segs + [s]) == Store(Fold(mem, segs), s)
    decreases |segs|
  {
    if segs == [] {
      assert (segs + [s])[1..] == [];
    } else {
      assert (segs + [s])[1..] == segs[1..] + [s];
      FoldAppend(Store(mem, segs[0]), segs[1..], s);
    }
  }

  /** The byte that the last segment over address `i` holds there, or `blank` if none does. */
  function LastWritten(segs: seq<Segment>, i: nat, blank: byte): byte
    decreases |segs|
  {
    if segs == [] then blank else
    var s := segs[|segs| - 1];
    if s.addr <= i < s.addr + |s.data| then s.data[i - s.addr]
    else LastWritten(segs[..|segs| - 1], i, blank)
  }

  lemma StoreAt(mem: seq<byte>, s: Segment, i: nat)
    requires s.addr + |s.data| <= |mem| && i < |mem|
    ensures Store(mem, s)[i] == if s.addr <= i < s.addr + |s.data| then s.data[i - s.addr] else mem[i]
  {
  }

  /** Later segments win, and bytes under no segment stay. */
  lemma {:induction false} FoldIsLastWritten(mem: seq<byte>, segs: seq<Segment>, i: nat)
    requires forall k :: 0 <= k < |segs| ==> segs[k].addr + |segs[k].data| <= |mem|
    requires i < |mem|
    ensures Fold(mem, segs)[i] == LastWritten(segs, i, mem[i])
    decreases |segs|
  {
    hide Fold, LastWritten, Store;
    LastWrittenUnfold(segs, i, mem[i]);
    if segs == [] {
      FoldNothing(mem);
    } else {
      var init, s := segs[..|segs| - 1], segs[|segs| - 1];
      FoldIsLastWritten(mem, init, i);
      assert segs == init + [s];
      FoldAppend(mem, init, s);
      StoreAt(Fold(mem, init), s, i);
    }
  }

  lemma FoldNothing(mem: seq<byte>)
    ensures Fold(mem, []) == mem
  {
  }

  lemma LastWrittenUnfold(segs: seq<Segment>, i: nat, blank: byte)
    ensures LastWritten(segs, i, blank) ==
            if segs == [] then blank else
            var s := segs[|segs| - 1];
            if s.addr <= i < s.addr + |s.data| then s.data[i - s.addr]
            else LastWritten(segs[..|segs| - 1], i, blank)
  {
  }

  /** Memories that agree on a range still agree there after the same segments. */
  lemma {:induction false} FoldAgrees(m: seq<byte>, m': seq<byte>, segs: seq<Segment>, from: nat, to: nat)
    requires |m| == |m'| && from <= to <= |m| && m[from..to] == m'[from..to]
    ensures Fold(m, segs)[from..to] == Fold(m', segs)[from..to]
    decreases |segs|
  {
    if segs != [] {
      var n, n' := Store(m, segs[0]), Store(m', segs[0]);
      forall i | from <= i < to
        ensures n[i] == n'[i]
      {
        assert m[i] == m[from..to][i - from] && m'[i] == m'[from..to][i - from];
      }
      FoldAgrees(n, n', segs[1..], from, to);
    }
  }

  // ---------------------------------------------------------------------------------------
  // The 32-bit block address
  // ---------------------------------------------------------------------------------------

  /** Blocks without a gap from `addr` up to the first one at or after `end`, which may be the
      end of the address space: all that a linker script can promise. */
  predicate Contiguous(blocks: map<nat, nat>, addr: nat, end: nat)
    decreases end - addr
  {
    if addr >= end then true
    else
      && addr in blocks && blocks[addr] > 0 && addr + blocks[addr] <= U32
      && Contiguous(blocks, addr + blocks[addr], end)
  }

  /** The loop variable of the erasing after `k` passes. */
  function BlockAddress(blocks: map<nat, nat>, start: nat, k: nat): nat {
    if k == 0 then start
    else
      var a := BlockAddress(blocks, start, k - 1);
      if a in blocks then (a + blocks[a]) % U32 else a
  }

  /** The first `k` passes erase blocks that start inside `[start, end)`. */
  predicate Inside(blocks: map<nat, nat>, start: nat, end: nat, k: nat) {
    forall j :: 0 <= j < k ==> start <= BlockAddress(blocks, start, j) < end
  }

  /** The loop ends after `k` passes, and never leaves its blocks. */
  predicate EndsAfter(blocks: map<nat, nat>, start: nat, end: nat, k: nat) {
    BlockAddress(blocks, start, k) >= end && Inside(blocks, start, end, k)
  }

  lemma FirstBlock(blocks: map<nat, nat>, start: nat, end: nat)
    ensures BlockAddress(blocks, start, 0) == start && Inside(blocks, start, end, 0)
  {
  }

  lemma NextBlock(blocks: map<nat, nat>, start: nat, end: nat, k: nat)
    requires Inside(blocks, start, end, k)
    requires var a := BlockAddress(blocks, start, k); start <= a < end && a in blocks
    ensures Inside(blocks, start, end, k + 1)
    ensures var a := BlockAddress(blocks, start, k);
            && (a + blocks[a] < U32 ==> BlockAddress(blocks, start, k + 1) == a + blocks[a])
            && (a + blocks[a] == U32 ==> BlockAddress(blocks, start, k + 1) == 0)
            && (a < U32 && blocks[a] < U32 ==> BlockAddress(blocks, start, k + 1) == Add32(a, blocks[a]))
  {
    var a := BlockAddress(blocks, start, k);
    if a < U32 && blocks[a] < U32 {
      WordArithmetic(a, blocks[a]);
    }
  }

  lemma {:induction false} TilesEnd(blocks: map<nat, nat>, start: nat, end: nat, k: nat)
    requires start <= BlockAddress(blocks, start, k) && Inside(blocks, start, end, k)
    requires Tiles(blocks, BlockAddress(blocks, start, k), end, U32)
    ensures exists n: nat :: EndsAfter(blocks, start, end, n)
    decreases end - BlockAddress(blocks, start, k)
  {
    if BlockAddress(blocks, start, k) >= end {
      assert EndsAfter(blocks, start, end, k);
    } else {
      NextBlock(blocks, start, end, k);
      TilesEnd(blocks, start, end, k + 1);
    }
  }

  /** Where a block ends at 2^32 the erasing goes on at address 0. */
  lemma {:induction false} ErasingWraps(blocks: map<nat, nat>, start: nat, end: nat, k: nat) returns (n: nat)
    requires end < U32 && start <= BlockAddress(blocks, start, k) && Inside(blocks, start, end, k)
    requires var a := BlockAddress(blocks, start, k);
             a < U32 && Contiguous(blocks, a, end) && !Tiles(blocks, a, end, U32)
    ensures n > k && BlockAddress(blocks, start, n) == 0 && Inside(blocks, start, end, n)
    decreases end - BlockAddress(blocks, start, k)
  {
    var a := BlockAddress(blocks, start, k);
    NextBlock(blocks, start, end, k);
    if a + blocks[a] == U32 {
      n := k + 1;
    } else {
      n := ErasingWraps(blocks, start, end, k + 1);
    }
  }

  lemma {:induction false} Repeats(blocks: map<nat, nat>, n: nat, j: nat)
    requires BlockAddress(blocks, 0, n) == 0
    ensures BlockAddress(blocks, 0, n + j) == BlockAddress(blocks, 0, j)
    decreases j
  {
    if j > 0 {
      Repeats(blocks, n, j - 1);
    }
  }

  lemma {:induction false} NeverEnds(blocks: map<nat, nat>, end: nat, n: nat, k: nat)
    requires n > 0 && BlockAddress(blocks, 0, n) == 0 && Inside(blocks, 0, end, n)
    ensures BlockAddress(blocks, 0, k) < end
    decreases k
  {
    if k >= n {
      Repeats(blocks, n, k - n);
      NeverEnds(blocks, end, n, k - n);
    }
  }

  /** In 32-bit arithmetic the erasing ends, without leaving the blocks of the area, exactly
      when the last of these blocks ends below 2^32. */
  lemma ErasingEndsExactlyBelowWrap(blocks: map<nat, nat>, start: nat, end: nat)
    requires start < end < U32 && Contiguous(blocks, start, end)
    ensures (exists k: nat :: EndsAfter(blocks, start, end, k)) <==> Tiles(blocks, start, end, U32)
  {
    if Tiles(blocks, start, end, U32) {
      TilesEnd(blocks, start, end, 0);
    } else {
      var n := ErasingWraps(blocks, start, end, 0);
      forall k: nat ensures !EndsAfter(blocks, start, end, k) {
        if EndsAfter(blocks, start, end, k) {
          assert k >= n && start <= BlockAddress(blocks, start, n) == 0;
          NeverEnds(blocks, end, n, k);
        }
      }
    }
  }

  // ---------------------------------------------------------------------------------------
  // The device
  // ---------------------------------------------------------------------------------------

  class Device {
    const hw: Hardware
    const blocks: map<nat, nat>
    var mem: seq<byte>
    var ops: nat
    ghost var erases: multiset<nat>

    constructor (hw: Hardware, blocks: map<nat, nat>, mem: seq<byte>)
      ensures this.hw == hw && this.blocks == blocks && this.mem == mem
      ensures ops == 0 && erases == multiset{}
    {
      this.hw, this.blocks, this.mem := hw, blocks, mem;
      ops, erases := 0, multiset{};
    }

    /** Erases the block that starts at `addr`. */
    method Erase(addr: nat) returns (ok: bool)
      requires addr in blocks && addr + blocks[addr] <= |mem|
      modifies this
      ensures Effect(ok, mem) == EraseEffect(old(mem), addr, blocks[addr], hw(old(ops)))
      ensures ok <==> hw(old(ops)).Works?
      ensures ok ==> forall i :: addr <= i < addr + blocks[addr] ==> mem[i] == ERASE_VALUE
      ensures SameOutside(old(mem), mem, addr, addr + blocks[addr])
      ensures ops == old(ops) + 1 && erases == old(erases) + multiset{addr}
    {
      var e := EraseEffect(mem, addr, blocks[addr], hw(ops));
      ok, mem, ops, erases := e.ok, e.mem, ops + 1, erases + multiset{addr};
    }

    /** Writes a segment; one that does not lie in the device is refused. */
    method Write(s: Segment) returns (ok: bool)
      modifies this`mem, this`ops
      ensures ok <==> hw(old(ops)).Works? && s.addr + |s.data| <= |old(mem)|
      ensures SameOutside(old(mem), mem, s.addr, s.addr + |s.data|)
      ensures ok ==> mem[s.addr..s.addr + |s.data|] == s.data
      ensures Effect(ok, mem) == WriteEffect(old(mem), s, hw(old(ops)))
      ensures ops == old(ops) + 1
    {
      var e := WriteEffect(mem, s, hw(ops));
      ok, mem, ops := e.ok, e.mem, ops + 1;
    }
  }
}
