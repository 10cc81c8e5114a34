/** Chunked access to device memory over SDIO: the command device with its address window, and
    the functions that split a transfer by 64 KiB page, then into blocks and a byte tail. */
module Sdio {
  import opened Words

  const PAGE: nat := 0x1_0000
  const LAST_PAGE: nat := 0xFFFF_0000
  const CMD53_MAX_BLOCKS: nat := 128
  const BLOCK_SIZE_FN1: nat := 8
  const BLOCK_SIZE_FN2: nat := 512
  const MAX_BLOCK_TRANSFER_SIZE_FN2: nat := BLOCK_SIZE_FN2 * CMD53_MAX_BLOCKS

  const MMHAL_SDIO_INVALID_ARGUMENT: int := -1
  const MMHAL_SDIO_OTHER_ERROR: int := -9

  const MORSE_REG_ADDRESS_WINDOW_0: nat := 0x10000
  const MORSE_REG_ADDRESS_WINDOW_1: nat := 0x10001
  const MORSE_REG_ADDRESS_CONFIG: nat := 0x10002
  const MORSE_CONFIG_ACCESS_4BYTE: byte := 2

  /** The memory of the chip: one byte for every 32-bit address. */
  type Memory = m: seq<byte> | |m| == U32 ghost witness seq(U32, _ => 0)

  // ---------------------------------------------------------------------------------------
  // Ranges of a 32-bit address space
  // ---------------------------------------------------------------------------------------

  /** How far address `i` is above `addr`, around the end of the address space. */
  function Offset(i: nat, addr: nat): (o: nat)
    requires i < U32 && addr < U32
    ensures o < U32 && Add32(addr, o) == i
  {
    Sub32(i, addr)
  }

  /** `mem` with `s` stored from `addr` on, around the end of the address space. */
  function Copied(mem: Memory, addr: nat, s: seq<byte>): (r: Memory)
    requires addr < U32
  {
    seq(U32, i requires 0 <= i < U32 => if Offset(i, addr) < |s| then s[Offset(i, addr)] else mem[i])
  }

  /** The `len` bytes of `mem` from `addr` on, around the end of the address space. */
  function Range(mem: Memory, addr: nat, len: nat): (r: seq<byte>)
    requires addr < U32 && len <= U32
    ensures |r| == len
  {
    seq(len, i requires 0 <= i < len => mem[Add32(addr, i)])
  }

  /** Byte by byte: the `k`th byte goes to `addr + k` modulo 2^32, and nothing else changes. */
  lemma CopiedInBytes(mem: Memory, addr: nat, s: seq<byte>)
    requires addr < U32 && |s| <= U32
    ensures forall k :: 0 <= k < |s| ==> Copied(mem, addr, s)[(addr + k) % 0x1_0000_0000] == s[k]
    ensures forall i :: 0 <= i < U32 && (i - addr) % 0x1_0000_0000 >= |s| ==> Copied(mem, addr, s)[i] == mem[i]
  {
    forall k | 0 <= k < |s| ensures Copied(mem, addr, s)[(addr + k) % 0x1_0000_0000] == s[k] {
      CopiedByte(mem, addr, s, k);
    }
    forall i | 0 <= i < U32 && (i - addr) % 0x1_0000_0000 >= |s| ensures Copied(mem, addr, s)[i] == mem[i] {
      WordArithmetic(i, addr);
    }
  }

  lemma CopiedByte(mem: Memory, addr: nat, s: seq<byte>, k: nat)
    requires addr < U32 && k < |s| <= U32
    ensures Copied(mem, addr, s)[(addr + k) % 0x1_0000_0000] == s[k]
  {
    WordArithmetic(addr, k);
    assert Offset(Add32(addr, k), addr) == k;
  }

  lemma RangeInBytes(mem: Memory, addr: nat, len: nat)
    requires addr < U32 && len <= U32
    ensures forall k :: 0 <= k < len ==> Range(mem, addr, len)[k] == mem[(addr + k) % 0x1_0000_0000]
  {
    forall k | 0 <= k < len ensures Range(mem, addr, len)[k] == mem[(addr + k) % 0x1_0000_0000] {
      WordArithmetic(addr, k);
    }
  }

  lemma CopiedNothing(mem: Memory, addr: nat)
    requires addr < U32
    ensures Copied(mem, addr, []) == mem
  {
  }

  /** Two copies one after the other are one copy. */
  lemma CopiedTwice(mem: Memory, addr: nat, s: seq<byte>, t: seq<byte>)
    requires addr < U32 && |s| + |t| <= U32
    ensures Copied(Copied(mem, addr, s), Add32(addr, |s|), t) == Copied(mem, addr, s + t)
  {
    var next := Add32(addr, |s|);
    var l, r := Copied(Copied(mem, addr, s), next, t), Copied(mem, addr, s + t);
    forall i | 0 <= i < U32
      ensures l[i] == r[i]
    {
      OffsetShift(i, addr, |s|);
    }
  }

  lemma OffsetShift(i: nat, addr: nat, n: nat)
    requires i < U32 && addr < U32 && n <= U32
    ensures var o := Offset(i, addr);
            Offset(i, Add32(addr, n)) == if n <= o then o - n else if n == U32 then o else o + U32 - n
  {
  }

  /** Two ranges one after the other are one range. */
  lemma RangeTwice(mem: Memory, addr: nat, m: nat, n: nat)
    requires addr < U32 && m + n <= U32
    ensures Range(mem, addr, m) + Range(mem, Add32(addr, m), n) == Range(mem, addr, m + n)
  {
    var l, r := Range(mem, addr, m) + Range(mem, Add32(addr, m), n), Range(mem, addr, m + n);
    forall i | 0 <= i < m + n
      ensures l[i] == r[i]
    {
    }
  }

  /** What was stored is what is read back. */
  lemma RangeOfCopied(mem: Memory, addr: nat, s: seq<byte>)
    requires addr < U32 && |s| <= U32
    ensures Range(Copied(mem, addr, s), addr, |s|) == s
  {
    var r := Range(Copied(mem, addr, s), addr, |s|);
    forall i | 0 <= i < |s|
      ensures r[i] == s[i]
    {
      assert Offset(Add32(addr, i), addr) == i;
    }
  }

  // ---------------------------------------------------------------------------------------
  // The split by 64 KiB page
  // ---------------------------------------------------------------------------------------

  /** The size of the next chunk, in 32-bit arithmetic. */
  function ChunkSize(address: nat, len: nat): nat
    requires address < U32 && 0 < len < U32
  {
    var size := if len < MAX_BLOCK_TRANSFER_SIZE_FN2 then len else MAX_BLOCK_TRANSFER_SIZE_FN2;
    var nextBoundary := Add32(address - address % PAGE, PAGE);
    if Add32(address, size) > nextBoundary then Sub32(nextBoundary, address) else size
  }

  /** What that arithmetic comes to: the rest of the page or of the data, whichever is less,
      except in the last page, where it is always the rest of the page. */
  lemma ChunkIs(address: nat, len: nat)
    requires address < U32 && 0 < len < U32
    ensures ChunkSize(address, len) ==
            if address >= LAST_PAGE then U32 - address
            else if len < PAGE - address % PAGE then len else PAGE - address % PAGE
  {
    var base := address - address % PAGE;
    if address >= LAST_PAGE {
      assert base == LAST_PAGE;
    } else {
      assert base + PAGE <= LAST_PAGE;
    }
  }

  /** No chunk of the transfer is larger than the data left. */
  predicate StaysInBuffer(address: nat, len: nat)
    requires address < U32 && len < U32
    decreases len
  {
    len == 0 ||
    var size := ChunkSize(address, len);
    0 < size <= len && StaysInBuffer(Add32(address, size), len - size)
  }

  /** The end of the range is not strictly inside the last page of the address space. */
  predicate EndsWell(address: nat, len: nat)
    requires address < U32 && len <= U32
  {
    Add32(address, len) <= LAST_PAGE
  }

  lemma EndsWellExactly(address: nat, len: nat)
    requires address < U32 && len <= U32
    ensures EndsWell(address, len) <==> (address + len) % 0x1_0000_0000 <= 0xFFFF_0000
  {
  }

  lemma EndsWellStep(address: nat, len: nat)
    requires address < U32 && 0 < len < U32
    ensures var size := ChunkSize(address, len);
            && 0 < size && address % PAGE + size <= PAGE
            && (EndsWell(address, len) ==> size <= len)
            && (size <= len ==> (EndsWell(Add32(address, size), len - size) <==> EndsWell(address, len)))
            && (size == len ==> EndsWell(address, len))
  {
    ChunkIs(address, len);
    var size := ChunkSize(address, len);
  }

  /** The split never reaches outside the caller's buffer exactly when the range does not end
      inside the last page. */
  lemma {:induction false} StaysExactlyWhenEndsWell(address: nat, len: nat)
    requires address < U32 && len < U32
    ensures len > 0 ==> (StaysInBuffer(address, len) <==> EndsWell(address, len))
    decreases len
  {
    if len > 0 {
      EndsWellStep(address, len);
      var size := ChunkSize(address, len);
      if 0 < size < len {
        StaysExactlyWhenEndsWell(Add32(address, size), len - size);
      }
    }
  }

  /** The 64 KiB pages that a range touches. */
  function PagesTouched(address: nat, len: nat): nat {
    if len == 0 then 0 else (address + len - 1) / PAGE - address / PAGE + 1
  }

  lemma PagesNone(address: nat)
    ensures PagesTouched(address, 0) == 0
  {
  }

  lemma PagesStep(address: nat, len: nat)
    requires address < U32 && 0 < len < U32 && EndsWell(address, len)
    ensures var size := ChunkSize(address, len);
            size <= len && PagesTouched(address, len) == 1 + PagesTouched(Add32(address, size), len - size)
  {
    ChunkIs(address, len);
    EndsWellStep(address, len);
    var size := ChunkSize(address, len);
    if size < len {
      var next := address - address % PAGE + PAGE;
      assert next == (address / PAGE + 1) * PAGE && address + size == next;
      assert (address + len - 1) == next + (len - size - 1);
    }
  }

  // ---------------------------------------------------------------------------------------
  // The device
  // ---------------------------------------------------------------------------------------

  /** The keyhole registers of one SDIO function. */
  datatype Window = Window(w0: byte, w1: byte, config: byte)
  {
    /** The upper 16 bits that the registers supply. */
    function Base(): (b: nat)
      ensures b <= LAST_PAGE && b % PAGE == 0
    {
      (w0 + 0x100 * (w1 as int)) * PAGE
    }
  }

  /** The two window bytes give back the page base that they were taken from. */
  lemma WindowBytes(base: nat)
    requires base <= LAST_PAGE && base % PAGE == 0
    ensures forall config: byte ::
              Window(base / PAGE % 0x100, base / (0x100 * PAGE) % 0x100, config).Base() == base
  {
  }

  /** A CMD53: `count` blocks, with the block size the host uses, or `count` bytes. */
  datatype Command = Command(fn: nat, block: bool, address: nat, count: nat, hostBlockSize: nat)
  {
    function Size(): nat {
      if block then count * BlockSize(fn) else count
    }
  }

  /** The block size of a function on the chip. */
  function BlockSize(fn: nat): nat {
    if fn == 1 then BLOCK_SIZE_FN1 else BLOCK_SIZE_FN2
  }

  /** A command that the chip and the host controller understand alike (section 5.3 of the
      SDIO Specification, Part E1): counts that fit, the same block size on both sides, and a
      range that stays in one page. */
  predicate Proper(c: Command) {
    && c.fn in {1, 2}
    && 1 <= c.count
    && (if c.block then c.fn == 2 && c.count <= CMD53_MAX_BLOCKS && c.hostBlockSize == BlockSize(c.fn)
        else c.count <= 511)
    && c.address + c.Size() <= PAGE
  }

  /** A command that was issued, and the upper address bits in the window of its function then. */
  datatype Issued = Issued(c: Command, base: nat)

  /** The command is proper, for one of the functions, and what it transfers lies among the `len`
      bytes from `address`. */
  predicate IsFor(e: Issued, fns: set<nat>, address: nat, len: nat)
    requires address < U32
  {
    && Proper(e.c) && e.c.fn in fns
    && e.base <= LAST_PAGE && e.base % PAGE == 0
    && Offset(e.base + e.c.address, address) + e.c.Size() <= len
  }

  /** The log grew, by commands for that range only. */
  ghost predicate IssuedFor(before: seq<Issued>, after: seq<Issued>, fns: set<nat>, address: nat, len: nat)
    requires address < U32
  {
    && before <= after
    && forall k :: |before| <= k < |after| ==> IsFor(after[k], fns, address, len)
  }

  lemma IssuedNone(log: seq<Issued>, fns: set<nat>, address: nat, len: nat)
    requires address < U32
    ensures IssuedFor(log, log, fns, address, len)
  {
  }

  lemma IssuedOnce(log: seq<Issued>, c: Command, base: nat, address: nat, size: nat)
    requires address < U32 && Proper(c) && c.Size() == size
    requires base <= LAST_PAGE && base % PAGE == 0 && base + c.address == address
    ensures IssuedFor(log, log + [Issued(c, base)], {c.fn}, address, size)
  {
  }

  /** Commands for a part of the range are commands for the range. */
  lemma IssuedMore(
      a: seq<Issued>, b: seq<Issued>, c: seq<Issued>, fns: set<nat>, part: set<nat>,
      address: nat, len: nat, at: nat, off: nat, size: nat)
    requires address < U32 && len <= U32 && off + size <= len && at == Add32(address, off)
    requires IssuedFor(a, b, fns, address, len) && IssuedFor(b, c, part, at, size) && part <= fns
    ensures IssuedFor(a, c, fns, address, len)
  {
    forall k | |a| <= k < |c| ensures IsFor(c[k], fns, address, len) {
      if k < |b| {
        assert c[k] == b[k];
      } else {
        IsForMore(c[k], part, address, len, at, off, size);
      }
    }
  }

  lemma IsForMore(e: Issued, fns: set<nat>, address: nat, len: nat, at: nat, off: nat, size: nat)
    requires address < U32 && len <= U32 && off + size <= len && at == Add32(address, off)
    requires IsFor(e, fns, at, size)
    ensures IsFor(e, fns, address, len)
  {
    assert e.c.Size() > 0;
  }

  /** The commands from number `from` up to `to` all succeed. */
  ghost predicate Works(link: nat -> int, from: nat, to: nat) {
    forall i :: from <= i < to ==> link(i) == 0
  }

  ghost predicate Fails(link: nat -> int, from: nat, to: nat) {
    forall i :: from <= i < to ==> link(i) != 0
  }

  lemma WorksOn(link: nat -> int, a: nat, b: nat, c: nat)
    requires a <= b <= c
    ensures Works(link, a, c) <==> Works(link, a, b) && Works(link, b, c)
    ensures Fails(link, a, c) <==> Fails(link, a, b) && Fails(link, b, c)
    ensures Works(link, a, a) && Fails(link, a, a)
  {
  }

  lemma WorksOnce(link: nat -> int, a: nat)
    ensures Works(link, a, a + 1) <==> link(a) == 0
    ensures Fails(link, a, a + 1) <==> link(a) != 0
  {
  }

  /** The chip behind the bus.  `link52` and `link53` give the result of every command, zero
      for success; a command that fails changes nothing.  `echo` says which reads repeat their
      first word in place of the second; only the first read after a window write may. */
  class Device {
    const link52: nat -> int
    const link53: nat -> int
    const echo: nat -> bool
    var mem: Memory
    var windows: seq<Window>
    var n52: nat
    var n53: nat
    var firstRead: bool
    ghost var log: seq<Issued>

    predicate Valid()
      reads this
    {
      |windows| == 3
    }

    constructor (link52: nat -> int, link53: nat -> int, echo: nat -> bool, mem: Memory, windows: seq<Window>)
      requires |windows| == 3
      ensures Valid() && this.mem == mem && log == []
      ensures this.link52 == link52 && this.link53 == link53 && this.echo == echo
    {
      this.link52, this.link53, this.echo := link52, link53, echo;
      this.mem, this.windows := mem, windows;
      n52, n53, firstRead, log := 0, 0, false, [];
    }

    /** CMD52 write of one register. */
    method Cmd52Write(address: nat, data: byte, fn: nat) returns (result: int)
      requires Valid() && fn < 3
      modifies this`windows, this`n52, this`firstRead
      ensures Valid() && n52 == old(n52) + 1 && result == link52(old(n52)) && firstRead
      ensures windows ==
              if result == 0 then old(windows)[fn := Written(old(windows)[fn], address, data)] else old(windows)
    {
      result := link52(n52);
      if result == 0 {
        windows := windows[fn := Written(windows[fn], address, data)];
      }
      n52, firstRead := n52 + 1, true;
    }

    static function Written(w: Window, address: nat, data: byte): Window {
      if address == MORSE_REG_ADDRESS_WINDOW_0 then w.(w0 := data)
      else if address == MORSE_REG_ADDRESS_WINDOW_1 then w.(w1 := data)
      else if address == MORSE_REG_ADDRESS_CONFIG then w.(config := data)
      else w
    }

    /** The address that a command reaches: the window of its function over its 16 bits. */
    function Target(c: Command): (a: nat)
      requires Valid() && c.fn < 3 && c.address < PAGE
      reads this
      ensures a < U32
    {
      windows[c.fn].Base() + c.address
    }

    method Cmd53Write(c: Command, data: seq<byte>) returns (result: int)
      requires Valid() && Proper(c) && |data| == c.Size()
      modifies this`mem, this`n53, this`firstRead, this`log
      ensures n53 == old(n53) + 1 && log == old(log) + [Issued(c, windows[c.fn].Base())] && result == link53(old(n53))
      ensures mem == if result == 0 then Copied(old(mem), old(Target(c)), data) else old(mem)
    {
      result := link53(n53);
      if result == 0 {
        mem := Copied(mem, Target(c), data);
      }
      n53, firstRead, log := n53 + 1, false, log + [Issued(c, windows[c.fn].Base())];
    }

    method Cmd53Read(c: Command, buf: array<byte>, off: nat) returns (result: int)
      requires Valid() && Proper(c) && off + c.Size() <= buf.Length
      modifies this`n53, this`firstRead, this`log, buf
      ensures n53 == old(n53) + 1 && log == old(log) + [Issued(c, windows[c.fn].Base())]
      ensures result == link53(old(n53)) && !firstRead
      ensures Content(buf) ==
                if result == 0
                then Put(old(Content(buf)), off,
                         Seen(Range(mem, Target(c), c.Size()), old(firstRead) && echo(old(n53))))
                else old(Content(buf))
    {
      hide Range, Seen, Put, Copied, Content;
      result := link53(n53);
      if result == 0 {
        var data := Seen(Range(mem, Target(c), c.Size()), firstRead && echo(n53));
        Fill(buf, off, data);
      }
      n53, firstRead, log := n53 + 1, false, log + [Issued(c, windows[c.fn].Base())];
    }
  }

  function Content(buf: array<byte>): (r: seq<byte>)
    reads buf
    ensures |r| == buf.Length
  {
    buf[..]
  }

  method Fill(buf: array<byte>, off: nat, data: seq<byte>)
    requires off + |data| <= buf.Length
    modifies buf
    ensures Content(buf) == Put(old(Content(buf)), off, data)
  {
    forall i | 0 <= i < |data| {
      buf[off + i] := data[i];
    }
  }

  /** `s` with `data` at `off`. */
  function Put(s: seq<byte>, off: nat, data: seq<byte>): (r: seq<byte>)
    requires off + |data| <= |s|
    ensures |r| == |s|
  {
    s[..off] + data + s[off + |data|..]
  }

  lemma PutTwice(s: seq<byte>, off: nat, x: seq<byte>, y: seq<byte>)
    requires off + |x| + |y| <= |s|
    ensures Put(Put(s, off, x), off + |x|, y) == Put(s, off, x + y)
  {
  }

  lemma PutNothing(s: seq<byte>, off: nat)
    requires off <= |s|
    ensures Put(s, off, []) == s
  {
  }

  /** `s` after the first `n` bytes of `data` arrived at `off`. */
  function Loaded(s: seq<byte>, off: nat, data: seq<byte>, n: nat): (r: seq<byte>)
    requires off + |data| <= |s| && n <= |data|
    ensures |r| == |s|
  {
    Put(s, off, data[..n])
  }

  /** A read of `m` and then of `n` bytes is a read of `m + n`. */
  lemma {:induction false} LoadedTwice(s: seq<byte>, off: nat, mem: Memory, address: nat, m: nat, n: nat, echo: bool)
    requires address < U32 && m + n <= U32 && off + m + n <= |s| && (m == 0 || m >= 8)
    ensures var whole := Seen(Range(mem, address, m + n), echo);
            && Loaded(s, off, whole, 0) == s
            && Put(s, off, Seen(Range(mem, address, m), echo)) == Loaded(s, off, whole, m)
            && Put(Loaded(s, off, whole, m), off + m, Seen(Range(mem, Add32(address, m), n), m == 0 && echo)) ==
               Loaded(s, off, whole, m + n)
  {
    hide Range, Seen, Put;
    SeenTwice(mem, address, m, n, echo);
    PutNothing(s, off);
    PutTwice(s, off, Seen(Range(mem, address, m), echo), Seen(Range(mem, Add32(address, m), n), m == 0 && echo));
  }

  /** The first read decides whether the second word is spoilt; the rest follows as it is. */
  lemma {:induction false} SeenTwice(mem: Memory, address: nat, m: nat, n: nat, echo: bool)
    requires address < U32 && m + n <= U32 && (m == 0 || m >= 8)
    ensures var whole, head := Seen(Range(mem, address, m + n), echo), Seen(Range(mem, address, m), echo);
            && whole[..0] == [] && whole[..m] == head && whole[..m + n] == whole
            && head + Seen(Range(mem, Add32(address, m), n), m == 0 && echo) == whole
  {
    RangeTwice(mem, address, m, n);
    var data := Range(mem, address, m + n);
    assert Range(mem, address, m) == data[..m];
  }

  predicate SameWords(s: seq<byte>, off: nat)
    requires off + 8 <= |s|
  {
    s[off..off + 4] == s[off + 4..off + 8]
  }

  /** A buffer that held `before`, after one chunk of a multi-byte read of `data`. */
  function ChunkAfter(before: seq<byte>, off: nat, data: seq<byte>, done: nat, echo: bool, again: bool): (r: seq<byte>)
    requires off + |data| <= |before| && done <= |data|
    ensures |r| == |before|
  {
    var first := Loaded(before, off, Seen(data, echo), done);
    if |data| >= 8 && SameWords(first, off) && again then Put(first, off, data[..8]) else first
  }

  lemma LoadedNone(s: seq<byte>, off: nat, data: seq<byte>)
    requires off + |data| <= |s|
    ensures Loaded(s, off, data, 0) == s
  {
  }

  /** The second read of eight bytes, `n` of which arrived. */
  lemma Reread(first: seq<byte>, off: nat, mem: Memory, at: nat, size: nat, n: nat)
    requires at < U32 && 8 <= size <= U32 && off + size <= |first| && (n == 0 || n == 8)
    ensures Loaded(first, off, Seen(Range(mem, at, 8), false), n) ==
            if n == 8 then Put(first, off, Range(mem, at, size)[..8]) else first
  {
    assert Range(mem, at, 8) == Range(mem, at, size)[..8];
  }

  /** The second read repairs a repeated word, and does no harm where the two words of the
      device are equal. */
  lemma ChunkRepaired(before: seq<byte>, off: nat, data: seq<byte>, echo: bool)
    requires off + |data| <= |before|
    ensures ChunkAfter(before, off, data, |data|, echo, true) == Put(before, off, data)
  {
    var seen := Seen(data, echo);
    assert seen[..|data|] == seen;
    if |data| >= 8 {
      RepeatShows(before, off, data, echo);
      PutOver(before, off, seen, data[..8]);
      assert data[..8] + seen[8..] == data;
    }
  }

  /** A chunk that repeats its first word is read again. */
  lemma RepeatShows(before: seq<byte>, off: nat, data: seq<byte>, echo: bool)
    requires off + |data| <= |before| && |data| >= 8
    ensures SameWords(Put(before, off, Seen(data, echo)), off) || Seen(data, echo) == data
  {
    if echo {
      var s, r := Seen(data, echo), Put(before, off, Seen(data, echo));
      assert r[off..off + 4] == s[..4] && r[off + 4..off + 8] == s[4..8] && s[4..8] == data[..4];
    }
  }

  lemma PutOver(s: seq<byte>, off: nat, x: seq<byte>, y: seq<byte>)
    requires off + |x| <= |s| && |y| <= |x|
    ensures Put(Put(s, off, x), off, y) == Put(s, off, y + x[|y|..])
  {
  }

  /** `ChunkRightExactly` for a buffer that is the chunk. */
  lemma {:induction false} ChunkAloneRightExactly(data: seq<byte>, done: nat, echo: bool, again: bool)
    requires |data| > 0 && done <= |data| && (done < |data| ==> done == 0 || BLOCK_SIZE_FN2 <= done)
    ensures (forall before :: |before| == |data| ==> ChunkAfter(before, 0, data, done, echo, again) == data)
       <==> GoodOutcome(data, done, echo, again)
  {
    if done < |data| {
      MissingBytesShow(data, done, echo, again);
    } else {
      forall before: seq<byte> | |before| == |data|
        ensures ChunkAfter(before, 0, data, done, echo, again) ==
                if again then data else Seen(data, echo)
      {
        if again {
          ChunkRepaired(before, 0, data, echo);
          assert Put(before, 0, data) == data;
        } else {
          assert Loaded(before, 0, Seen(data, echo), done) == Seen(data, echo);
        }
      }
      SeenIsDataExactly(data, echo);
      assert ChunkAfter(data, 0, data, done, echo, again) == if again then data else Seen(data, echo);
    }
  }

  lemma SeenIsDataExactly(data: seq<byte>, echo: bool)
    ensures Seen(data, echo) == data <==> (echo && |data| >= 8 ==> SameWords(data, 0))
  {
    if echo && |data| >= 8 {
      var s := Seen(data, echo);
      assert s[4..8] == data[..4];
      if SameWords(data, 0) {
        assert data == data[0..4] + data[4..8] + data[8..];
      }
    }
  }

  /** Another byte. */
  function Bump(b: byte, k: nat): (r: byte)
    requires k in {1, 2}
    ensures r != b
  {
    ((b as int) + k) % 256
  }

  lemma MissingBytesShow(data: seq<byte>, done: nat, echo: bool, again: bool)
    requires done < |data| && (done == 0 || BLOCK_SIZE_FN2 <= done)
    ensures exists before :: |before| == |data| && ChunkAfter(before, 0, data, done, echo, again) != data
  {
    var before: seq<byte>;
    if |data| == 8 {
      before := DifferentWords(data);
      assert Loaded(before, 0, Seen(data, echo), 0) == before;
    } else {
      before := seq(|data|, i requires 0 <= i < |data| => Bump(data[i], 1));
    }
    assert ChunkAfter(before, 0, data, done, echo, again)[|data| - 1] == before[|data| - 1];
  }

  /** Eight bytes whose words differ and whose last byte is not that of `data`. */
  lemma DifferentWords(data: seq<byte>) returns (before: seq<byte>)
    requires |data| == 8
    ensures |before| == 8 && !SameWords(before, 0) && before[7] != data[7]
  {
    before := [Bump(0, 1), 0, 0, 0, 0, 0, 0, Bump(data[7], 1)];
    assert before[0..4][0] == 1 && before[4..8][0] == 0;
  }

  /** A chunk is its own part of the buffer, which it changes and by which it is decided. */
  lemma ChunkLocal(before: seq<byte>, off: nat, data: seq<byte>, done: nat, echo: bool, again: bool)
    requires off + |data| <= |before| && done <= |data|
    ensures var r := ChunkAfter(before, off, data, done, echo, again);
            && r[..off] == before[..off] && r[off + |data|..] == before[off + |data|..]
            && r[off..off + |data|] == ChunkAfter(before[off..off + |data|], 0, data, done, echo, again)
  {
    hide Put, Seen;
    var here := before[off..off + |data|];
    var first, alone := Loaded(before, off, Seen(data, echo), done), Loaded(here, 0, Seen(data, echo), done);
    PutLocal(before, off, Seen(data, echo)[..done], |data|);
    if |data| >= 8 {
      SameHead(first, off, alone);
      PutLocal(first, off, data[..8], |data|);
    }
  }

  /** The two words at the head of a part. */
  lemma SameHead(s: seq<byte>, off: nat, t: seq<byte>)
    requires |t| >= 8 && off + |t| <= |s| && s[off..off + |t|] == t
    ensures s[off..off + 4] == t[0..4] && s[off + 4..off + 8] == t[4..8]
    ensures SameWords(s, off) == SameWords(t, 0)
  {
    forall i | 0 <= i < |t| ensures s[off + i] == t[i] {
      assert s[off..off + |t|][i] == s[off + i];
    }
    assert forall i :: 0 <= i < 4 ==> s[off..off + 4][i] == t[0..4][i];
    assert forall i :: 0 <= i < 4 ==> s[off + 4..off + 8][i] == t[4..8][i];
  }

  lemma PutLocal(s: seq<byte>, off: nat, data: seq<byte>, size: nat)
    requires |data| <= size && off + size <= |s|
    ensures var r := Put(s, off, data);
            && r[..off] == s[..off] && r[off + size..] == s[off + size..]
            && r[off..off + size] == Put(s[off..off + size], 0, data)
  {
  }

  /** The outcome of a chunk is good: all of the first read arrived, and where it repeated a
      word that differs from the next, so did the second read. */
  predicate GoodOutcome(data: seq<byte>, done: nat, echo: bool, again: bool) {
    done == |data| && (echo && |data| >= 8 && !SameWords(data, 0) ==> again)
  }

  /** Exactly when a chunk is right whatever the buffer held before, though the result of the
      reads is dropped. */
  lemma ChunkRightExactly(size: nat, off: nat, data: seq<byte>, done: nat, echo: bool, again: bool)
    requires |data| > 0 && off + |data| <= size
    requires done <= |data| && (done < |data| ==> done == 0 || BLOCK_SIZE_FN2 <= done)
    ensures (forall before :: |before| == size ==>
               ChunkAfter(before, off, data, done, echo, again)[off..off + |data|] == data)
       <==> GoodOutcome(data, done, echo, again)
  {
    hide ChunkAfter, GoodOutcome, Around;
    if GoodOutcome(data, done, echo, again) {
      forall before: seq<byte> | |before| == size
        ensures ChunkAfter(before, off, data, done, echo, again)[off..off + |data|] == data
      {
        GoodChunk(before, off, data, done, echo, again);
      }
    } else {
      var before := BadChunk(size, off, data, done, echo, again);
    }
  }

  lemma GoodChunk(before: seq<byte>, off: nat, data: seq<byte>, done: nat, echo: bool, again: bool)
    requires |data| > 0 && off + |data| <= |before|
    requires done <= |data| && (done < |data| ==> done == 0 || BLOCK_SIZE_FN2 <= done)
    requires GoodOutcome(data, done, echo, again)
    ensures ChunkAfter(before, off, data, done, echo, again)[off..off + |data|] == data
  {
    hide ChunkAfter, GoodOutcome;
    ChunkAloneRightExactly(data, done, echo, again);
    ChunkLocal(before, off, data, done, echo, again);
  }

  lemma BadChunk(size: nat, off: nat, data: seq<byte>, done: nat, echo: bool, again: bool)
    returns (before: seq<byte>)
    requires |data| > 0 && off + |data| <= size
    requires done <= |data| && (done < |data| ==> done == 0 || BLOCK_SIZE_FN2 <= done)
    requires !GoodOutcome(data, done, echo, again)
    ensures |before| == size && ChunkAfter(before, off, data, done, echo, again)[off..off + |data|] != data
  {
    hide ChunkAfter, GoodOutcome, Around;
    ChunkAloneRightExactly(data, done, echo, again);
    var here :| |here| == |data| && ChunkAfter(here, 0, data, done, echo, again) != data;
    before := Around(size, off, here);
    ChunkLocal(before, off, data, done, echo, again);
  }

  /** Some buffer that holds `here` at `off`. */
  function Around(size: nat, off: nat, here: seq<byte>): (r: seq<byte>)
    requires off + |here| <= size
    ensures |r| == size && r[off..off + |here|] == here
  {
    seq(off, _ => 0) + here + seq(size - off - |here|, _ => 0)
  }

  /** What the host sees of `data`: as it is, or with the first word in place of the second. */
  function Seen(data: seq<byte>, echo: bool): (r: seq<byte>)
    ensures |r| == |data|
  {
    if echo && |data| >= 8 then data[..4] + data[..4] + data[8..] else data
  }

  /** The 16-bit block count of a transfer. */
  function NumBlocks(fn: nat, len: nat): nat {
    len / BlockSize(fn) % 0x10000
  }

  function Slice(data: array<byte>, off: nat, size: nat): (r: seq<byte>)
    requires off + size <= data.Length
    reads data
    ensures |r| == size
  {
    data[off..off + size]
  }

  lemma CopiedSlices(mem: Memory, address: nat, data: array<byte>, off: nat, m: nat, n: nat)
    requires address < U32 && off + m + n <= data.Length && m + n <= U32
    ensures Copied(Copied(mem, address, Slice(data, off, m)), Add32(address, m), Slice(data, off + m, n)) ==
            Copied(mem, address, Slice(data, off, m + n))
  {
    assert Slice(data, off, m) + Slice(data, off + m, n) == Slice(data, off, m + n);
    CopiedTwice(mem, address, Slice(data, off, m), Slice(data, off + m, n));
  }

  /** The bytes that go in blocks. */
  function TransferSize(fn: nat, len: nat): nat {
    NumBlocks(fn, len) * BlockSize(fn)
  }

  /** The block count of a transfer within one page fits, and less than a block is left. */
  lemma BlockSplit(fn: nat, len: nat)
    requires fn in {1, 2} && 0 < len <= PAGE
    requires fn == 1 ==> len < BLOCK_SIZE_FN1
    ensures NumBlocks(fn, len) <= CMD53_MAX_BLOCKS
    ensures NumBlocks(fn, len) == 0 ==> TransferSize(fn, len) == 0
    ensures NumBlocks(fn, len) > 0 ==> fn == 2 && TransferSize(fn, len) == NumBlocks(fn, len) * BLOCK_SIZE_FN2
    ensures TransferSize(fn, len) <= len && len - TransferSize(fn, len) <= 511
  {
  }

  /** The page base and the 16 low bits of an address. */
  lemma LowBits(base: nat, address: nat)
    requires base % PAGE == 0 && base <= address < base + PAGE
    ensures address % PAGE == address - base
  {
  }

  // ---------------------------------------------------------------------------------------
  // Registers
  // ---------------------------------------------------------------------------------------

  /** The little-endian word at `address`. */
  function Word(mem: Memory, address: nat): (w: nat)
    requires address < U32
    ensures w < U32
  {
    Le32(Range(mem, address, 4), 0)
  }

  function ToBits(word: nat): bv32
    requires word < U32
  {
    word as bv32
  }

  function OfBits(bits: bv32): (w: nat)
    ensures w < U32
  {
    bits as nat
  }

  function MergedWith(bits: bv32, mask: bv32, value: bv32): bv32 {
    (bits & !mask) | (value & mask)
  }

  /** Bit by bit: `after` has the bits of `value` under the mask, and those of `before` elsewhere. */
  predicate Merges(after: bv32, before: bv32, mask: bv32, value: bv32) {
    after & mask == value & mask && after & !mask == before & !mask
  }

  /** `word` with the bits of `mask` taken from `value`. */
  function Merged(word: nat, mask: bv32, value: bv32): (w: nat)
    requires word < U32
    ensures w < U32
  {
    OfBits(MergedWith(ToBits(word), mask, value))
  }

  /** The set-then-clear sequence of the register update merges under the mask: the bits of the
      mask come from `value`, the others stay. */
  lemma MaskedMerge(r: bv32, mask: bv32, value: bv32)
    ensures var m := (r | (value & mask)) & (value | !mask);
            && m == (r & !mask) | (value & mask)
            && m & mask == value & mask && m & !mask == r & !mask
  {
  }

  // ---------------------------------------------------------------------------------------
  // Bytes and bits
  // ---------------------------------------------------------------------------------------

  /** The word at an address, byte by byte, the lowest first. */
  lemma WordInBytes(mem: Memory, address: nat)
    requires address < U32
    ensures var word := Word(mem, address);
            && word % 0x100 == mem[address] && word / 0x100 % 0x100 == mem[Add32(address, 1)]
            && word / 0x1_0000 % 0x100 == mem[Add32(address, 2)] && word / 0x100_0000 == mem[Add32(address, 3)]
  {
    hide Le32;
    Le32Bytes(Range(mem, address, 4), 0);
  }

  /** A stored word, byte by byte, and the rest of the memory. */
  lemma StoredInBytes(mem: Memory, address: nat, word: nat)
    requires address < U32 && word < U32
    ensures var after := Copied(mem, address, Bytes32(word));
            && after[address] == word % 0x100 && after[Add32(address, 1)] == word / 0x100 % 0x100
            && after[Add32(address, 2)] == word / 0x1_0000 % 0x100 && after[Add32(address, 3)] == word / 0x100_0000
            && forall i :: 0 <= i < U32 && Sub32(i, address) >= 4 ==> after[i] == mem[i]
  {
    hide Bytes32;
    Bytes32Are(word);
  }

  lemma StoredWord(mem: Memory, address: nat, word: nat)
    requires address < U32 && word < U32
    ensures Word(Copied(mem, address, Bytes32(word)), address) == word
  {
    hide Copied, Range, Le32, Bytes32;
    RangeOfCopied(mem, address, Bytes32(word));
  }

  lemma MergedBits(word: nat, mask: bv32, value: bv32)
    requires word < U32
    ensures Merges(ToBits(Merged(word, mask, value)), ToBits(word), mask, value)
  {
    hide ToBits, OfBits, Merges, MergedWith;
    BitsRoundTrip(MergedWith(ToBits(word), mask, value));
    MaskedBits(ToBits(word), mask, value);
  }

  lemma BitsRoundTrip(b: bv32)
    ensures ToBits(OfBits(b)) == b
  {
  }

  /** `ToBits` is the conversion of the number. */
  lemma BitsOfNumber(word: nat)
    requires word < U32
    ensures ToBits(word) == word as bv32
  {
  }

  lemma MaskedBits(bits: bv32, mask: bv32, value: bv32)
    ensures Merges(MergedWith(bits, mask, value), bits, mask, value)
  {
    hide MergedWith, Merges;
    UnderMask(bits, mask, value);
    BesideMask(bits, mask, value);
    MergesWhen(MergedWith(bits, mask, value), bits, mask, value);
  }

  lemma UnderMask(bits: bv32, mask: bv32, value: bv32)
    ensures MergedWith(bits, mask, value) & mask == value & mask
  {
  }

  lemma BesideMask(bits: bv32, mask: bv32, value: bv32)
    ensures MergedWith(bits, mask, value) & !mask == bits & !mask
  {
  }

  lemma MergesWhen(after: bv32, before: bv32, mask: bv32, value: bv32)
    requires after & mask == value & mask && after & !mask == before & !mask
    ensures Merges(after, before, mask, value)
  {
  }

  /** The two statements of the register update. */
  lemma SetThenClear(bits: bv32, mask: bv32, value: bv32)
    ensures (bits | (value & mask)) & (value | !mask) == MergedWith(bits, mask, value)
  {
  }
}
