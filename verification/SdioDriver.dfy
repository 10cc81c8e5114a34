/** The driver as it runs: window writes, CMD53s, and the splitting of multi-byte transfers. */
module SdioDriver {
  import opened Words
  import opened Sdio
  import opened SdioRead

  /** The lengths that the multi-byte functions take. */
  predicate ValidLength(len: nat) {
    len != 0 && len % 4 == 0
  }

  /** A word that does not lie in one page: a command for it would run on into the registers
      behind the window, and what the chip makes of that is not defined. */
  predicate Crosses(address: nat) {
    address % PAGE + 4 > PAGE
  }

  /** The two window bytes of an address. */
  lemma WindowOf(address: nat)
    requires address < U32
    ensures var base := address - address % PAGE;
            && base / PAGE % 0x100 == address / 0x1_0000 % 0x100
            && base / (0x100 * PAGE) % 0x100 == address / 0x100_0000
  {
  }

  class Driver {
    const chip: Device

    constructor (chip: Device)
      ensures this.chip == chip
    {
      this.chip := chip;
    }

    /** Sets the window of `fn` to the upper 16 bits of `address`. */
    method MorseAddressBaseSet(address: nat, access: byte, fn: nat) returns (result: int)
      requires chip.Valid() && fn < 3 && address < U32
      modifies chip`windows, chip`n52, chip`firstRead
      ensures chip.Valid() && chip.firstRead && old(chip.n52) < chip.n52
      ensures result == 0 <==> Works(chip.link52, old(chip.n52), chip.n52)
      ensures result == 0 ==> chip.windows[fn].Base() == address - address % PAGE && chip.n52 == old(chip.n52) + 3
      ensures result == 0 ==>
                chip.windows[fn].config == access
                && chip.windows[fn].w0 == address / 0x1_0000 % 0x100 && chip.windows[fn].w1 == address / 0x100_0000
      ensures result == chip.link52(chip.n52 - 1)
    {
      var base := address - address % PAGE;
      WindowBytes(base);
      WindowOf(address);
      result := chip.Cmd52Write(MORSE_REG_ADDRESS_WINDOW_0, base / PAGE % 0x100, fn);
      if result != 0 {
        return;
      }
      result := chip.Cmd52Write(MORSE_REG_ADDRESS_WINDOW_1, base / (0x100 * PAGE) % 0x100, fn);
      if result != 0 {
        return;
      }
      result := chip.Cmd52Write(MORSE_REG_ADDRESS_CONFIG, access, fn);
    }

    /** `[address, address + size)` lies in the page that the window of `fn` selects. */
    predicate InWindow(fn: nat, address: nat, size: nat)
      reads chip
    {
      && chip.Valid() && fn in {1, 2}
      && chip.windows[fn].Base() <= address
      && address + size <= chip.windows[fn].Base() + PAGE
    }

    // -------------------------------------------------------------------------------------
    // Writing
    // -------------------------------------------------------------------------------------

    /** One CMD53 write of `data[off..off + size]` to `address`. */
    method IssueWrite(
        fn: nat, block: bool, address: nat, count: nat, hostBlockSize: nat, data: array<byte>, off: nat, size: nat)
      returns (result: int)
      requires InWindow(fn, address, size) && off + size <= data.Length && address < U32
      requires var c := Command(fn, block, 0, count, hostBlockSize); Proper(c) && c.Size() == size
      modifies chip`mem, chip`n53, chip`firstRead, chip`log
      ensures IssuedFor(old(chip.log), chip.log, {fn}, address, size)
      ensures chip.n53 == old(chip.n53) + 1 && result == chip.link53(old(chip.n53))
      ensures chip.mem == if result == 0 then Copied(old(chip.mem), address, Slice(data, off, size)) else old(chip.mem)
    {
      hide Copied, IssuedFor;
      LowBits(chip.windows[fn].Base(), address);
      var c := Command(fn, block, address % PAGE, count, hostBlockSize);
      IssuedOnce(chip.log, c, chip.windows[fn].Base(), address, size);
      result := chip.Cmd53Write(c, data[off..off + size]);
    }

    /** Writes within one page, the window being set: as many blocks as possible, then the
        rest in byte mode.  `sent` counts the bytes that reached the chip. */
    method MorseCmd53Write(fn: nat, address: nat, data: array<byte>, off: nat, len: nat)
      returns (result: int, sent: nat)
      requires InWindow(fn, address, len) && 0 < len && address < U32 && off + len <= data.Length
      requires fn == 1 ==> len < BLOCK_SIZE_FN1
      modifies chip`mem, chip`n53, chip`firstRead, chip`log
      ensures sent <= len && (result == 0 <==> sent == len)
      ensures sent < len ==> sent == 0 || BLOCK_SIZE_FN2 <= sent
      ensures chip.mem == Copied(old(chip.mem), address, Slice(data, off, sent))
      ensures IssuedFor(old(chip.log), chip.log, {fn}, address, len)
      ensures old(chip.n53) < chip.n53 && (result == 0 <==> Works(chip.link53, old(chip.n53), chip.n53))
    {
      hide Copied, IssuedFor, NumBlocks, TransferSize, Slice, Works;
      result, sent := MMHAL_SDIO_OTHER_ERROR, 0;
      CopiedNothing(chip.mem, address);
      var numBlocks, transferSize := NumBlocks(fn, len), TransferSize(fn, len);
      BlockSplit(fn, len);
      IssuedNone(chip.log, {fn}, address, len);
      WorksOnce(chip.link53, chip.n53);
      if numBlocks > 0 {
        result := WriteBlocks(fn, address, data, off, numBlocks, transferSize);
        IssuedMore(old(chip.log), old(chip.log), chip.log, {fn}, {fn}, address, len, address, 0, transferSize);
        if result != 0 {
          return;
        }
        sent := transferSize;
      }
      if sent < len {
        ghost var mid, n53 := chip.log, chip.n53;
        result := WriteTail(fn, address, data, off, sent, len - sent, old(chip.mem));
        IssuedMore(old(chip.log), mid, chip.log, {fn}, {fn}, address, len, address, 0, len);
        WorksOnce(chip.link53, n53);
        WorksOn(chip.link53, old(chip.n53), n53, chip.n53);
        sent := if result == 0 then len else sent;
      }
    }

    /** The block-mode part of a write. */
    method WriteBlocks(fn: nat, address: nat, data: array<byte>, off: nat, numBlocks: nat, transferSize: nat)
      returns (result: int)
      requires fn == 2 && InWindow(fn, address, transferSize) && address < U32 && off + transferSize <= data.Length
      requires 1 <= numBlocks <= CMD53_MAX_BLOCKS && transferSize == numBlocks * BLOCK_SIZE_FN2
      modifies chip`mem, chip`n53, chip`firstRead, chip`log
      ensures chip.mem ==
              if result == 0 then Copied(old(chip.mem), address, Slice(data, off, transferSize)) else old(chip.mem)
      ensures IssuedFor(old(chip.log), chip.log, {fn}, address, transferSize)
      ensures chip.n53 == old(chip.n53) + 1 && result == chip.link53(old(chip.n53))
    {
      result := IssueWrite(fn, true, address, numBlocks, BLOCK_SIZE_FN2, data, off, transferSize);
    }

    /** The byte-mode rest of a write that began at `address` on `mem0`, `done` bytes of it
        being done. */
    method WriteTail(
        fn: nat, address: nat, data: array<byte>, off: nat, done: nat, left: nat, ghost mem0: Memory)
      returns (result: int)
      requires InWindow(fn, address, done + left) && address < U32
      requires 0 < left <= 511 && off + done + left <= data.Length
      requires chip.mem == Copied(mem0, address, Slice(data, off, done))
      modifies chip`mem, chip`n53, chip`firstRead, chip`log
      ensures chip.mem == Copied(mem0, address, Slice(data, off, if result == 0 then done + left else done))
      ensures done + left <= U32 && IssuedFor(old(chip.log), chip.log, {fn}, address, done + left)
      ensures chip.n53 == old(chip.n53) + 1 && result == chip.link53(old(chip.n53))
    {
      hide Copied, IssuedFor, Slice;
      CopiedSlices(mem0, address, data, off, done, left);
      IssuedNone(chip.log, {fn}, address, done + left);
      result := IssueWrite(fn, false, address + done, left, 0, data, off + done, left);
      IssuedMore(old(chip.log), old(chip.log), chip.log, {fn}, {fn}, address, done + left, address + done, done, left);
    }

    /**
     * Writes `data[..len]` to the chip from `address` on. On success exactly that range of the
     * chip has changed, to the data; on an error exactly a prefix has been written. `defined` is
     * false where the function would go on beyond `data[..len]`.
     */
    method WriteMultiByte(address: nat, data: array<byte>, len: nat) returns (result: int, sent: nat, defined: bool)
      requires chip.Valid() && address < U32 && len < U32 && len <= data.Length
      modifies chip
      ensures chip.Valid() && sent <= len
      ensures chip.mem == Copied(old(chip.mem), address, Slice(data, 0, sent))
      ensures !ValidLength(len) ==> result == MMHAL_SDIO_INVALID_ARGUMENT && sent == 0 && defined
      ensures ValidLength(len) && defined ==>
                (result == 0 <==> sent == len) && (result == 0 <==> Commanded(old(chip.n52), old(chip.n53)))
      ensures ValidLength(len) ==>
                (defined <==> EndsWell(address, len) || !Commanded(old(chip.n52), old(chip.n53)))
      ensures IssuedFor(old(chip.log), chip.log, {2}, address, len)
      ensures ValidLength(len) && defined && result == 0 ==>
                chip.n52 == old(chip.n52) + 3 * PagesTouched(address, len)
      ensures ValidLength(len) && result == 0 ==> chip.windows[2].config == 2
    {
      hide Copied, ChunkSize, EndsWell, PagesTouched, IssuedFor, Slice, Works;
      sent, defined := 0, true;
      CopiedNothing(chip.mem, address);
      IssuedNone(chip.log, {2}, address, len);
      if len == 0 || len % 4 != 0 {
        return MMHAL_SDIO_INVALID_ARGUMENT, 0, true;
      }
      result := -1;
      var at: nat, left: nat := address, len;
      CommandedNone();
      while left > 0
        invariant chip.Valid() && sent + left == len && at == Add32(address, sent) && defined
        invariant chip.mem == Copied(old(chip.mem), address, Slice(data, 0, sent))
        invariant EndsWell(at, left) <==> EndsWell(address, len)
        invariant left == 0 ==> result == 0 && EndsWell(address, len)
        invariant left < len ==> chip.windows[2].config == 2
        invariant IssuedFor(old(chip.log), chip.log, {2}, address, len)
        invariant Commanded(old(chip.n52), old(chip.n53))
        invariant old(chip.n52) <= chip.n52 && old(chip.n53) <= chip.n53
        invariant EndsWell(address, len) ==>
                    chip.n52 + 3 * PagesTouched(at, left) == old(chip.n52) + 3 * PagesTouched(address, len)
      {
        EndsWellStep(at, left);
        ghost var n52, n53, log := chip.n52, chip.n53, chip.log;
        result := MorseAddressBaseSet(at, MORSE_CONFIG_ACCESS_4BYTE, 2);
        CommandedOn(old(chip.n52), old(chip.n53), n52, n53);
        if result != 0 {
          return;
        }
        var size := ChunkSize(at, left);
        if size > left {
          defined := false;
          return;
        }
        if EndsWell(address, len) {
          PagesStep(at, left);
        }
        var n;
        result, n := MorseCmd53Write(2, at, data, sent, size);
        CommandedOn(old(chip.n52), old(chip.n53), n52, n53);
        IssuedMore(old(chip.log), log, chip.log, {2}, {2}, address, len, at, sent, size);
        CopiedSlices(old(chip.mem), address, data, 0, sent, n);
        sent := sent + n;
        if result != 0 {
          return;
        }
        at, left := Add32(at, size), left - size;
      }
      PagesNone(at);
    }

    /** All commands issued since these numbers have succeeded. */
    ghost predicate Commanded(n52: nat, n53: nat)
      reads chip
    {
      Works(chip.link52, n52, chip.n52) && Works(chip.link53, n53, chip.n53)
    }

    lemma CommandedNone()
      ensures Commanded(chip.n52, chip.n53)
    {
    }

    lemma CommandedOn(from52: nat, from53: nat, n52: nat, n53: nat)
      requires from52 <= n52 <= chip.n52 && from53 <= n53 <= chip.n53
      ensures Commanded(from52, from53) <==>
                && Works(chip.link52, from52, n52) && Works(chip.link53, from53, n53)
                && Works(chip.link52, n52, chip.n52) && Works(chip.link53, n53, chip.n53)
      ensures Works(chip.link53, n53, n53)
    {
      WorksOn(chip.link52, from52, n52, chip.n52);
      WorksOn(chip.link53, from53, n53, chip.n53);
    }

    // -------------------------------------------------------------------------------------
    // Reading
    // -------------------------------------------------------------------------------------

    /** What the bus shows of a range if its first word may be repeated. */
    ghost function Shown(address: nat, size: nat, echo: bool): seq<byte>
      requires address < U32 && size <= U32
      reads chip
    {
      Seen(Range(chip.mem, address, size), echo)
    }

    /** The next read repeats its first word. */
    ghost predicate Echoes()
      reads chip
    {
      chip.firstRead && chip.echo(chip.n53)
    }

    /** One CMD53 read into `buf[off..off + size]`. */
    method IssueRead(
        fn: nat, block: bool, address: nat, count: nat, hostBlockSize: nat, buf: array<byte>, off: nat, size: nat)
      returns (result: int)
      requires InWindow(fn, address, size) && off + size <= buf.Length && address < U32 && size <= U32
      requires var c := Command(fn, block, 0, count, hostBlockSize); Proper(c) && c.Size() == size
      modifies chip`n53, chip`firstRead, chip`log, buf
      ensures chip.n53 == old(chip.n53) + 1 && !chip.firstRead && result == chip.link53(old(chip.n53))
      ensures IssuedFor(old(chip.log), chip.log, {fn}, address, size)
      ensures Content(buf) ==
                if result == 0 then Put(old(Content(buf)), off, old(Shown(address, size, Echoes())))
                else old(Content(buf))
    {
      hide Range, Seen, Put, Content, IssuedFor;
      LowBits(chip.windows[fn].Base(), address);
      var c := Command(fn, block, address % PAGE, count, hostBlockSize);
      IssuedOnce(chip.log, c, chip.windows[fn].Base(), address, size);
      assert chip.Target(c) == address && c.Size() == size;
      result := chip.Cmd53Read(c, buf, off);
    }

    /** Reads within one page, the window being set: as many blocks as possible, then the rest
        in byte mode.  `done` counts the bytes that arrived. */
    method MorseCmd53Read(fn: nat, address: nat, buf: array<byte>, off: nat, len: nat)
      returns (result: int, done: nat)
      requires InWindow(fn, address, len) && 0 < len <= U32 && address < U32 && off + len <= buf.Length
      requires fn == 1 ==> len < BLOCK_SIZE_FN1
      modifies chip`n53, chip`firstRead, chip`log, buf
      ensures done <= len && (result == 0 <==> done == len)
      ensures done < len ==> done == 0 || BLOCK_SIZE_FN2 <= done
      ensures !chip.firstRead && chip.n53 > old(chip.n53)
      ensures result == 0 <==> Works(chip.link53, old(chip.n53), chip.n53)
      ensures Fails(chip.link53, old(chip.n53), chip.n53) ==> done == 0
      ensures result == chip.link53(chip.n53 - 1)
      ensures IssuedFor(old(chip.log), chip.log, {fn}, address, len)
      ensures Content(buf) == Loaded(old(Content(buf)), off, old(Shown(address, len, Echoes())), done)
    {
      hide Range, IssuedFor, NumBlocks, TransferSize, Seen, Put, Loaded, Content, Works, Fails;
      result, done := -1, 0;
      ghost var echo, before := Echoes(), Content(buf);
      var numBlocks, transferSize := NumBlocks(fn, len), TransferSize(fn, len);
      BlockSplit(fn, len);
      LoadedTwice(before, off, chip.mem, address, transferSize, len - transferSize, echo);
      IssuedNone(chip.log, {fn}, address, len);
      WorksOnce(chip.link53, chip.n53);
      if numBlocks > 0 {
        result := ReadBlocks(fn, address, buf, off, numBlocks, transferSize);
        IssuedMore(old(chip.log), old(chip.log), chip.log, {fn}, {fn}, address, len, address, 0, transferSize);
        if result != 0 {
          return;
        }
        done := transferSize;
      }
      if done < len {
        ghost var log, n53 := chip.log, chip.n53;
        result := ReadTail(fn, address, buf, off, done, len - done, before, echo);
        IssuedMore(old(chip.log), log, chip.log, {fn}, {fn}, address, len, address, 0, len);
        WorksOnce(chip.link53, n53);
        WorksOn(chip.link53, old(chip.n53), n53, chip.n53);
        done := if result == 0 then len else done;
      }
    }

    /** The block-mode part of a read. */
    method ReadBlocks(fn: nat, address: nat, buf: array<byte>, off: nat, numBlocks: nat, transferSize: nat)
      returns (result: int)
      requires fn == 2 && InWindow(fn, address, transferSize) && off + transferSize <= buf.Length
      requires address < U32 && transferSize <= U32
      requires 1 <= numBlocks <= CMD53_MAX_BLOCKS && transferSize == numBlocks * BLOCK_SIZE_FN2
      modifies chip`n53, chip`firstRead, chip`log, buf
      ensures chip.n53 == old(chip.n53) + 1 && !chip.firstRead && result == chip.link53(old(chip.n53))
      ensures IssuedFor(old(chip.log), chip.log, {fn}, address, transferSize)
      ensures Content(buf) ==
                if result == 0 then Put(old(Content(buf)), off, old(Shown(address, transferSize, Echoes())))
                else old(Content(buf))
    {
      result := IssueRead(fn, true, address, numBlocks, BLOCK_SIZE_FN2, buf, off, transferSize);
    }

    /** The byte-mode rest of a read into a buffer that held `before`, `done` bytes of it being
        there. */
    method ReadTail(
        fn: nat, address: nat, buf: array<byte>, off: nat, done: nat, left: nat,
        ghost before: seq<byte>, ghost echo: bool)
      returns (result: int)
      requires InWindow(fn, address, done + left) && address < U32 && done + left <= U32
      requires 0 < left <= 511 && off + done + left <= buf.Length && |before| == buf.Length
      requires done == 0 || done >= 8
      requires Echoes() == (done == 0 && echo)
      requires Content(buf) == Loaded(before, off, Shown(address, done + left, echo), done)
      modifies chip`n53, chip`firstRead, chip`log, buf
      ensures Content(buf) ==
                Loaded(before, off, Shown(address, done + left, echo), if result == 0 then done + left else done)
      ensures chip.n53 == old(chip.n53) + 1 && !chip.firstRead && result == chip.link53(old(chip.n53))
      ensures IssuedFor(old(chip.log), chip.log, {fn}, address, done + left)
    {
      hide Range, IssuedFor, Seen, Put, Loaded, Content;
      LoadedTwice(before, off, chip.mem, address, done, left, echo);
      IssuedNone(chip.log, {fn}, address, done + left);
      result := IssueRead(fn, false, address + done, left, 0, buf, off + done, left);
      IssuedMore(old(chip.log), old(chip.log), chip.log, {fn}, {fn}, address, done + left, address + done, done, left);
    }

    /** One chunk of a multi-byte read: the read, whose result is dropped, and a second read of
        the first eight bytes if their two words are equal, whose result is dropped too. */
    method ReadChunk(at: nat, buf: array<byte>, off: nat, size: nat) returns (ghost c: Chunk)
      requires InWindow(2, at, size) && 0 < size <= U32 && at < U32 && off + size <= buf.Length
      modifies chip`n53, chip`firstRead, chip`log, buf
      ensures IssuedFor(old(chip.log), chip.log, {2}, at, size) && chip.n53 >= old(chip.n53)
      ensures c.size == size && c.Valid() && c.echo == old(Echoes())
      ensures c.first == old(chip.n53) && c.next == chip.n53
      ensures old(chip.firstRead) ==> c.Told(chip.link53, chip.echo)
      ensures c.done == size && c.again <==> Works(chip.link53, old(chip.n53), chip.n53)
      ensures Content(buf) ==
                ChunkAfter(old(Content(buf)), off, Range(chip.mem, at, size), c.done, c.echo, c.again)
      ensures Fails(chip.link53, old(chip.n53), chip.n53) ==> Content(buf) == old(Content(buf))
    {
      hide Range, IssuedFor, Seen, Put, Loaded, Content, SameWords, Works, Fails;
      ghost var before, echo := Content(buf), Echoes();
      var _, done := MorseCmd53Read(2, at, buf, off, size);
      ghost var again, second := true, chip.n53;
      WorksOn(chip.link53, second, second, second);
      LoadedNone(before, off, Shown(at, size, echo));
      if size >= 8 {
        var same := WordsRepeat(buf, off);
        if same {
          ghost var log, first, n53 := chip.log, Content(buf), chip.n53;
          var _, n := MorseCmd53Read(2, at, buf, off, 8);
          again := n == 8;
          IssuedMore(old(chip.log), log, chip.log, {2}, {2}, at, size, at, 0, 8);
          WorksOn(chip.link53, old(chip.n53), n53, chip.n53);
          Reread(first, off, chip.mem, at, size, n);
        }
      }
      c := Chunk(size, done, echo, again, old(chip.n53), second, chip.n53);
    }

    /** `memcmp(data, data + 4, 4) == 0`. */
    method WordsRepeat(buf: array<byte>, off: nat) returns (same: bool)
      requires off + 8 <= buf.Length
      ensures same == SameWords(Content(buf), off)
    {
      same := buf[off..off + 4] == buf[off + 4..off + 8];
    }

    /**
     * Reads the `len` bytes from `address` on into `buf`. The result tells about the window
     * writes only. The buffer holds what the chunks left there: `ReadRightExactly` says when that
     * is the range, and if every command succeeds it is, even if the first read of each page
     * repeats its first word. `defined` is false where the function would go on beyond
     * `buf[..len]`.
     */
    method ReadMultiByte(address: nat, buf: array<byte>, len: nat)
      returns (result: int, defined: bool, ghost chunks: seq<Chunk>)
      requires chip.Valid() && address < U32 && len < U32 && len <= buf.Length
      modifies chip`windows, chip`n52, chip`n53, chip`firstRead, chip`log, buf
      ensures chip.Valid()
      ensures !ValidLength(len) ==> result == MMHAL_SDIO_INVALID_ARGUMENT && defined && chunks == []
      ensures ValidLength(len) ==> (result == 0 <==> Works(chip.link52, old(chip.n52), chip.n52))
      ensures ValidLength(len) ==> (defined <==> EndsWell(address, len) || result != 0)
      ensures AllValid(chunks) && Total(chunks) <= len
      ensures ValidLength(len) && defined && result == 0 ==> Total(chunks) == len
      ensures Content(buf) == AfterChunks(old(Content(buf)), chip.mem, address, chunks)
      ensures AllTold(chip.link53, chip.echo, chunks, old(chip.n53), chip.n53)
      ensures AllArrived(chunks) <==> Works(chip.link53, old(chip.n53), chip.n53)
      ensures ValidLength(len) && EndsWell(address, len) && Commanded(old(chip.n52), old(chip.n53)) ==>
                result == 0 && Content(buf) == Put(old(Content(buf)), 0, Range(chip.mem, address, len))
      ensures Fails(chip.link53, old(chip.n53), chip.n53) ==> Content(buf) == old(Content(buf))
      ensures IssuedFor(old(chip.log), chip.log, {2}, address, len)
      ensures ValidLength(len) && defined && result == 0 ==>
                chip.n52 == old(chip.n52) + 3 * PagesTouched(address, len)
      ensures ValidLength(len) && result == 0 ==> chip.windows[2].config == 2
    {
      hide Range, IssuedFor, ChunkSize, EndsWell, PagesTouched, Put, Loaded, Content, Seen, ChunkAfter, AfterChunks,
        Total, AllArrived, AllValid, AllTold, Chunk.Told, Works, Fails;
      defined, chunks := true, [];
      NoChunks(Content(buf), chip.mem, address);
      NothingTold(chip.link53, chip.echo, chip.n53);
      IssuedNone(chip.log, {2}, address, len);
      CommandedNone();
      if len == 0 || len % 4 != 0 {
        return MMHAL_SDIO_INVALID_ARGUMENT, true, [];
      }
      result := -1;
      var at: nat, off: nat, left: nat := address, 0, len;
      ghost var before := Content(buf);
      while left > 0
        invariant chip.Valid() && off + left == len && at == Add32(address, off) && defined
        invariant EndsWell(at, left) <==> EndsWell(address, len)
        invariant left == 0 ==> result == 0 && EndsWell(address, len)
        invariant left < len ==> chip.windows[2].config == 2
        invariant AllValid(chunks) && Total(chunks) == off
        invariant Content(buf) == AfterChunks(before, chip.mem, address, chunks)
        invariant AllTold(chip.link53, chip.echo, chunks, old(chip.n53), chip.n53)
        invariant AllArrived(chunks) <==> Works(chip.link53, old(chip.n53), chip.n53)
        invariant Works(chip.link52, old(chip.n52), chip.n52)
        invariant Fails(chip.link53, old(chip.n53), chip.n53) ==> Content(buf) == before
        invariant IssuedFor(old(chip.log), chip.log, {2}, address, len)
        invariant old(chip.n52) <= chip.n52 && old(chip.n53) <= chip.n53
        invariant EndsWell(address, len) ==>
                    chip.n52 + 3 * PagesTouched(at, left) == old(chip.n52) + 3 * PagesTouched(address, len)
      {
        EndsWellStep(at, left);
        ghost var n52, n53, log := chip.n52, chip.n53, chip.log;
        result := MorseAddressBaseSet(at, MORSE_CONFIG_ACCESS_4BYTE, 2);
        WorksOn(chip.link52, old(chip.n52), n52, chip.n52);
        if result != 0 {
          return;
        }
        var size := ChunkSize(at, left);
        if size > left {
          defined := false;
          return;
        }
        if EndsWell(address, len) {
          PagesStep(at, left);
        }
        ghost var c := ReadChunk(at, buf, off, size);
        WorksOn(chip.link53, old(chip.n53), n53, chip.n53);
        IssuedMore(old(chip.log), log, chip.log, {2}, {2}, address, len, at, off, size);
        AfterSnoc(before, chip.mem, address, chunks, c);
        ArrivedSnoc(chunks, c);
        ToldSnoc(chip.link53, chip.echo, chunks, c, old(chip.n53), n53);
        chunks := chunks + [c];
        at, off, left := Add32(at, size), off + size, left - size;
      }
      PagesNone(at);
      if AllArrived(chunks) {
        ArrivedIsRange(before, chip.mem, address, chunks);
      }
    }

    // -------------------------------------------------------------------------------------
    // Registers
    // -------------------------------------------------------------------------------------

    /** Reads the word at `address` through function 1, unless it crosses a page. */
    method ReadLe32(address: nat) returns (result: int, word: nat, defined: bool)
      requires chip.Valid() && address < U32
      modifies chip`windows, chip`n52, chip`n53, chip`firstRead, chip`log
      ensures chip.Valid() && word < U32 && old(chip.n52) <= chip.n52 && old(chip.n53) <= chip.n53
      ensures result == 0 <==> Commanded(old(chip.n52), old(chip.n53))
      ensures NonePositive(old(chip.n52), old(chip.n53)) ==> result <= 0
      ensures defined <==> !Crosses(address) || result != 0
      ensures defined && result == 0 ==>
                && word % 0x100 == chip.mem[address] && word / 0x100 % 0x100 == chip.mem[Add32(address, 1)]
                && word / 0x1_0000 % 0x100 == chip.mem[Add32(address, 2)]
                && word / 0x100_0000 == chip.mem[Add32(address, 3)]
      ensures result == 0 ==> chip.windows[1].config == 2
      ensures defined && result == 0 ==> word == Word(chip.mem, address)
      ensures IssuedFor(old(chip.log), chip.log, {1}, address, 4)
    {
      hide Works;
      word, defined := 0, true;
      IssuedNone(chip.log, {1}, address, 4);
      CommandedNone();
      result := MorseAddressBaseSet(address, MORSE_CONFIG_ACCESS_4BYTE, 1);
      if result != 0 {
        return;
      }
      if Crosses(address) {
        defined := false;
        return;
      }
      var buf := new byte[4](_ => 0);
      var n;
      result, n := MorseCmd53Read(1, address, buf, 0, 4);
      if result == 0 {
        assert Content(buf) == Range(chip.mem, address, 4);
        word := Le32(buf[..], 0);
        WordInBytes(chip.mem, address);
      }
    }

    /** Writes the word at `address` through function 2, unless it crosses a page. */
    method WriteLe32(address: nat, word: nat) returns (result: int, defined: bool)
      requires chip.Valid() && address < U32 && word < U32
      modifies chip
      ensures chip.Valid() && old(chip.n52) <= chip.n52 && old(chip.n53) <= chip.n53
      ensures result == 0 <==> Commanded(old(chip.n52), old(chip.n53))
      ensures defined <==> !Crosses(address) || result != 0
      ensures defined ==>
                chip.mem == if result == 0 then Copied(old(chip.mem), address, Bytes32(word)) else old(chip.mem)
      ensures defined && result == 0 ==>
                && chip.mem[address] == word % 0x100 && chip.mem[Add32(address, 1)] == word / 0x100 % 0x100
                && chip.mem[Add32(address, 2)] == word / 0x1_0000 % 0x100
                && chip.mem[Add32(address, 3)] == word / 0x100_0000
      ensures result == 0 ==> chip.windows[2].config == 2
      ensures IssuedFor(old(chip.log), chip.log, {2}, address, 4)
    {
      hide Copied, Works;
      defined := true;
      IssuedNone(chip.log, {2}, address, 4);
      CommandedNone();
      result := MorseAddressBaseSet(address, MORSE_CONFIG_ACCESS_4BYTE, 2);
      if result != 0 {
        return;
      }
      if Crosses(address) {
        defined := false;
        return;
      }
      var s := Bytes32(word);
      var data := new byte[4](i requires 0 <= i < 4 => s[i]);
      var n;
      CopiedNothing(chip.mem, address);
      result, n := MorseCmd53Write(2, address, data, 0, 4);
      assert Slice(data, 0, 4) == s && Slice(data, 0, 0) == [];
      StoredInBytes(old(chip.mem), address, word);
    }

    /**
     * Sets the bits of `mask` in the word at `address` to those of `value`. A positive result of
     * the read is not taken as an error, and then the function goes on with a word that was never
     * set: `defined` is false there, and where the word crosses a page.
     */
    method UpdateLe32(address: nat, mask: bv32, value: bv32) returns (result: int, defined: bool)
      requires chip.Valid() && address < U32
      modifies chip
      ensures chip.Valid()
      ensures defined ==>
                var word := Merged(Word(old(chip.mem), address), mask, value);
                chip.mem == if result == 0 then Copied(old(chip.mem), address, Bytes32(word)) else old(chip.mem)
      ensures defined && result == 0 ==>
                Merges(ToBits(Word(chip.mem, address)), ToBits(Word(old(chip.mem), address)), mask, value)
      ensures defined ==> (result == 0 <==> Commanded(old(chip.n52), old(chip.n53)))
      ensures !Crosses(address) && NonePositive(old(chip.n52), old(chip.n53)) ==> defined
      ensures Crosses(address) && result == 0 ==> !defined
      ensures IssuedFor(old(chip.log), chip.log, {1, 2}, address, 4)
    {
      hide Copied, Merged, Word, Works, IssuedFor, ToBits, OfBits, Merges, Bytes32;
      var word;
      result, word, defined := ReadLe32(address);
      IssuedMore(old(chip.log), old(chip.log), chip.log, {1, 2}, {1}, address, 4, address, 0, 4);
      if result < 0 {
        return;
      }
      if result > 0 || !defined {
        defined := false;
        return;
      }
      MergedBits(word, mask, value);
      word := MergeBits(word, mask, value);
      StoredWord(old(chip.mem), address, word);
      ghost var n52, n53, log := chip.n52, chip.n53, chip.log;
      result, defined := WriteLe32(address, word);
      CommandedOn(old(chip.n52), old(chip.n53), n52, n53);
      IssuedMore(old(chip.log), log, chip.log, {1, 2}, {2}, address, 4, address, 0, 4);
    }

    /** No command issued since these numbers gave a positive result. */
    ghost predicate NonePositive(n52: nat, n53: nat)
      reads chip
    {
      && (forall i :: n52 <= i < chip.n52 ==> chip.link52(i) <= 0)
      && (forall i :: n53 <= i < chip.n53 ==> chip.link53(i) <= 0)
    }

    static method MergeBits(word: nat, mask: bv32, value: bv32) returns (merged: nat)
      requires word < U32
      ensures merged == Merged(word, mask, value)
    {
      hide ToBits, OfBits, MergedWith;
      var reg := ToBits(word);
      SetThenClear(reg, mask, value);
      reg := reg | (value & mask);
      reg := reg & (value | !mask);
      merged := OfBits(reg);
    }
  }
}
