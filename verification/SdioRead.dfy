/** A whole multi-byte read, chunk by chunk, and exactly when its data is right: the driver drops
    the results of its reads, so success does not say. */
module SdioRead {
  import opened Words
  import opened Sdio

  /** How one chunk came out: the bytes of the first read that arrived, whether that read repeated
      its first word, and `again`, false if there was a second read that failed.  The commands of
      the first read are those from number `first` up to `second`, those of the second read the
      ones up to `next`. */
  datatype Chunk = Chunk(
    size: nat, done: nat, echo: bool, again: bool, first: nat, second: nat, next: nat)
  {
    /** The outcome is what the bus says: `link` gives the results of the commands, and `echo`
        the reads that repeat a word. */
    ghost predicate Told(link: nat -> int, echo: nat -> bool) {
      && first < second <= next
      && (done == size <==> Works(link, first, second))
      && (again <==> Works(link, second, next))
      && this.echo == echo(first)
    }

    /** A read that stops early stops at a block boundary. */
    predicate Valid() {
      0 < size && done <= size && (done < size ==> done == 0 || BLOCK_SIZE_FN2 <= done)
    }
  }

  predicate AllValid(chunks: seq<Chunk>) {
    forall i :: 0 <= i < |chunks| ==> chunks[i].Valid()
  }

  /** The number of the command before which `k` chunks are done. */
  function Done(chunks: seq<Chunk>, k: nat, from: nat): nat
    requires k <= |chunks|
  {
    if k == 0 then from else chunks[k - 1].next
  }

  /** Every outcome is what the bus says, and the chunks account for all commands from number
      `from` up to `to`. */
  ghost predicate AllTold(link: nat -> int, echo: nat -> bool, chunks: seq<Chunk>, from: nat, to: nat) {
    && (forall i :: 0 <= i < |chunks| ==> chunks[i].Told(link, echo) && chunks[i].first == Done(chunks, i, from))
    && to == Done(chunks, |chunks|, from)
  }

  lemma NothingTold(link: nat -> int, echo: nat -> bool, from: nat)
    ensures AllTold(link, echo, [], from, from)
  {
  }

  lemma ToldSnoc(
      link: nat -> int, echo: nat -> bool, chunks: seq<Chunk>, c: Chunk, from: nat, to: nat)
    requires AllTold(link, echo, chunks, from, to) && c.Told(link, echo) && c.first == to
    ensures AllTold(link, echo, chunks + [c], from, c.next)
  {
    hide Works, Chunk.Told;
    var all, n := chunks + [c], |chunks|;
    forall i | 0 <= i <= n
      ensures all[i].Told(link, echo) && all[i].first == Done(all, i, from)
    {
      if i < n {
        assert all[i] == chunks[i] && Done(all, i, from) == Done(chunks, i, from);
      } else {
        assert all[i] == c && Done(all, i, from) == Done(chunks, i, from);
      }
    }
  }

  function Total(chunks: seq<Chunk>): nat {
    if chunks == [] then 0 else Total(chunks[..|chunks| - 1]) + chunks[|chunks| - 1].size
  }

  /** What the device holds for the chunk that begins `off` bytes into the range. */
  function Data(mem: Memory, address: nat, off: nat, c: Chunk): (r: seq<byte>)
    requires address < U32 && off + c.size <= U32
    ensures |r| == c.size
  {
    Range(mem, Add32(address, off), c.size)
  }

  /** The buffer after these chunks, when it held `before`. */
  function AfterChunks(before: seq<byte>, mem: Memory, address: nat, chunks: seq<Chunk>): (r: seq<byte>)
    requires address < U32 && AllValid(chunks) && Total(chunks) <= |before| && Total(chunks) <= U32
    ensures |r| == |before|
    decreases |chunks|
  {
    if chunks == [] then before
    else
      var init, c := chunks[..|chunks| - 1], chunks[|chunks| - 1];
      assert c.Valid();
      ChunkAfter(AfterChunks(before, mem, address, init), Total(init), Data(mem, address, Total(init), c),
                 c.done, c.echo, c.again)
  }

  /** The `i`th chunk has a good outcome. */
  predicate IsGood(mem: Memory, address: nat, chunks: seq<Chunk>, i: nat)
    requires address < U32 && i < |chunks| && Total(chunks[..i]) + chunks[i].size <= U32
  {
    GoodOutcome(Data(mem, address, Total(chunks[..i]), chunks[i]), chunks[i].done, chunks[i].echo, chunks[i].again)
  }

  predicate AllGood(mem: Memory, address: nat, chunks: seq<Chunk>)
    requires address < U32 && Total(chunks) <= U32
  {
    forall i :: 0 <= i < |chunks| ==> Total(chunks[..i]) + chunks[i].size <= U32 && IsGood(mem, address, chunks, i)
  }

  lemma TotalSnoc(chunks: seq<Chunk>, c: Chunk)
    ensures Total(chunks + [c]) == Total(chunks) + c.size
    ensures AllValid(chunks) && c.Valid() ==> AllValid(chunks + [c])
  {
    assert (chunks + [c])[..|chunks|] == chunks;
  }

  lemma NoChunks(before: seq<byte>, mem: Memory, address: nat)
    requires address < U32
    ensures Total([]) == 0 && AllValid([]) && AllArrived([]) && AfterChunks(before, mem, address, []) == before
  {
  }

  /** One more chunk. */
  lemma AfterSnoc(before: seq<byte>, mem: Memory, address: nat, chunks: seq<Chunk>, c: Chunk)
    requires address < U32 && AllValid(chunks) && c.Valid()
    requires Total(chunks) + c.size <= |before| && Total(chunks) + c.size <= U32
    ensures Total(chunks + [c]) == Total(chunks) + c.size && AllValid(chunks + [c])
    ensures AfterChunks(before, mem, address, chunks + [c])
         == ChunkAfter(AfterChunks(before, mem, address, chunks), Total(chunks), Data(mem, address, Total(chunks), c),
                       c.done, c.echo, c.again)
  {
    TotalSnoc(chunks, c);
    assert (chunks + [c])[..|chunks|] == chunks;
  }

  lemma {:induction false} TotalGrows(chunks: seq<Chunk>, i: nat)
    requires i < |chunks|
    ensures Total(chunks[..i]) + chunks[i].size <= Total(chunks)
    decreases |chunks|
  {
    var init := chunks[..|chunks| - 1];
    if i < |init| {
      TotalGrows(init, i);
      assert init[..i] == chunks[..i];
    }
  }

  /** A chunk decides its own part of the buffer from what that part held before, and the chunks
      before and behind it have no say. */
  lemma {:induction false} PartOfChunk(before: seq<byte>, mem: Memory, address: nat, chunks: seq<Chunk>, i: nat)
    requires address < U32 && AllValid(chunks) && Total(chunks) <= |before| && Total(chunks) <= U32
    requires i < |chunks| && Total(chunks[..i]) + chunks[i].size <= Total(chunks)
    ensures var off, c := Total(chunks[..i]), chunks[i];
            && c.Valid()
            && AfterChunks(before, mem, address, chunks)[off..off + c.size]
               == ChunkAfter(before[off..off + c.size], 0, Data(mem, address, off, c), c.done, c.echo, c.again)
    decreases |chunks|
  {
    hide ChunkAfter, Range, AfterChunks, Data;
    var init, last := chunks[..|chunks| - 1], chunks[|chunks| - 1];
    assert init + [last] == chunks;
    if i == |init| {
      assert chunks[..i] == init;
      RestUntouched(before, mem, address, init);
      LastPart(before, mem, address, init, last);
    } else {
      assert init[..i] == chunks[..i] && init[i] == chunks[i];
      TotalGrows(init, i);
      PartOfChunk(before, mem, address, init, i);
      EarlierPart(before, mem, address, init, last, Total(chunks[..i]), chunks[i].size);
    }
  }

  /** The last chunk decides its part from what was there before any chunk. */
  lemma LastPart(before: seq<byte>, mem: Memory, address: nat, chunks: seq<Chunk>, c: Chunk)
    requires address < U32 && AllValid(chunks) && c.Valid()
    requires Total(chunks) + c.size <= |before| && Total(chunks) + c.size <= U32
    requires AfterChunks(before, mem, address, chunks)[Total(chunks)..] == before[Total(chunks)..]
    ensures Total(chunks + [c]) == Total(chunks) + c.size && AllValid(chunks + [c])
    ensures var off := Total(chunks);
            AfterChunks(before, mem, address, chunks + [c])[off..off + c.size]
            == ChunkAfter(before[off..off + c.size], 0, Data(mem, address, off, c), c.done, c.echo, c.again)
  {
    hide ChunkAfter, Range, AfterChunks, Total, AllValid, Data;
    AfterSnoc(before, mem, address, chunks, c);
    var off, sofar := Total(chunks), AfterChunks(before, mem, address, chunks);
    var data := Data(mem, address, off, c);
    var all := ChunkAfter(sofar, off, data, c.done, c.echo, c.again);
    assert AfterChunks(before, mem, address, chunks + [c]) == all;
    ChunkOver(sofar, before, off, data, c.done, c.echo, c.again);
    assert all[off..off + c.size] == ChunkAfter(before[off..off + c.size], 0, data, c.done, c.echo, c.again);
  }

  lemma ChunkOver(
      s: seq<byte>, t: seq<byte>, off: nat, data: seq<byte>, done: nat, echo: bool, again: bool)
    requires off + |data| <= |s| == |t| && done <= |data| && s[off..] == t[off..]
    ensures ChunkAfter(s, off, data, done, echo, again)[off..off + |data|]
         == ChunkAfter(t[off..off + |data|], 0, data, done, echo, again)
  {
    hide ChunkAfter;
    ChunkLocal(s, off, data, done, echo, again);
    SameRest(s, t, off, |data|);
  }

  lemma SameRest(s: seq<byte>, t: seq<byte>, off: nat, size: nat)
    requires off + size <= |s| && off + size <= |t| && s[off..] == t[off..]
    ensures s[off..off + size] == t[off..off + size]
  {
    assert s[off..off + size] == s[off..][..size];
    assert t[off..off + size] == t[off..][..size];
  }

  /** A later chunk leaves the part of an earlier one alone. */
  lemma EarlierPart(
      before: seq<byte>, mem: Memory, address: nat, chunks: seq<Chunk>, c: Chunk, off: nat, size: nat)
    requires address < U32 && AllValid(chunks) && c.Valid()
    requires Total(chunks) + c.size <= |before| && Total(chunks) + c.size <= U32
    requires off + size <= Total(chunks)
    ensures Total(chunks + [c]) == Total(chunks) + c.size && AllValid(chunks + [c])
    ensures AfterChunks(before, mem, address, chunks + [c])[off..off + size]
         == AfterChunks(before, mem, address, chunks)[off..off + size]
  {
    hide ChunkAfter, Range, AfterChunks, Total, AllValid, Data;
    AfterSnoc(before, mem, address, chunks, c);
    var end, sofar := Total(chunks), AfterChunks(before, mem, address, chunks);
    ChunkLocal(sofar, end, Data(mem, address, end, c), c.done, c.echo, c.again);
    SamePart(AfterChunks(before, mem, address, chunks + [c]), sofar, end, off, size);
  }

  lemma SamePart(s: seq<byte>, t: seq<byte>, end: nat, off: nat, size: nat)
    requires off + size <= end <= |s| && end <= |t| && s[..end] == t[..end]
    ensures s[off..off + size] == t[off..off + size]
  {
    assert s[off..off + size] == s[..end][off..off + size];
    assert t[off..off + size] == t[..end][off..off + size];
  }

  /** The chunks leave what lies behind them alone. */
  lemma {:induction false} RestUntouched(before: seq<byte>, mem: Memory, address: nat, chunks: seq<Chunk>)
    requires address < U32 && AllValid(chunks) && Total(chunks) <= |before| && Total(chunks) <= U32
    ensures AfterChunks(before, mem, address, chunks)[Total(chunks)..] == before[Total(chunks)..]
    decreases |chunks|
  {
    hide ChunkAfter, Range;
    if chunks != [] {
      var init, last := chunks[..|chunks| - 1], chunks[|chunks| - 1];
      var sofar := AfterChunks(before, mem, address, init);
      RestUntouched(before, mem, address, init);
      ChunkLocal(sofar, Total(init), Data(mem, address, Total(init), last), last.done, last.echo, last.again);
      assert sofar[Total(init)..][last.size..] == before[Total(init)..][last.size..];
    }
  }

  /** Good outcomes only: the buffer holds the range. */
  lemma {:induction false} GoodChunksAreRight(before: seq<byte>, mem: Memory, address: nat, chunks: seq<Chunk>)
    requires address < U32 && AllValid(chunks) && Total(chunks) <= |before| && Total(chunks) <= U32
    requires AllGood(mem, address, chunks)
    ensures AfterChunks(before, mem, address, chunks)[..Total(chunks)] == Range(mem, address, Total(chunks))
    decreases |chunks|
  {
    hide ChunkAfter, Range, GoodOutcome, AfterChunks, Data, IsGood;
    if chunks == [] {
      assert Range(mem, address, 0) == [];
    } else {
      var init, last := chunks[..|chunks| - 1], chunks[|chunks| - 1];
      assert init + [last] == chunks;
      GoodPrefix(mem, address, chunks);
      GoodChunksAreRight(before, mem, address, init);
      GoodChunkAdds(before, mem, address, init, last);
    }
  }

  lemma GoodChunkAdds(before: seq<byte>, mem: Memory, address: nat, chunks: seq<Chunk>, c: Chunk)
    requires address < U32 && AllValid(chunks) && c.Valid()
    requires Total(chunks) + c.size <= |before| && Total(chunks) + c.size <= U32
    requires GoodOutcome(Data(mem, address, Total(chunks), c), c.done, c.echo, c.again)
    requires AfterChunks(before, mem, address, chunks)[..Total(chunks)] == Range(mem, address, Total(chunks))
    ensures Total(chunks + [c]) == Total(chunks) + c.size && AllValid(chunks + [c])
    ensures AfterChunks(before, mem, address, chunks + [c])[..Total(chunks) + c.size]
         == Range(mem, address, Total(chunks) + c.size)
  {
    hide ChunkAfter, Range, GoodOutcome, AfterChunks, Total, AllValid, Data;
    AfterSnoc(before, mem, address, chunks, c);
    var off, sofar := Total(chunks), AfterChunks(before, mem, address, chunks);
    GoodChunkIsRight(sofar, off, Data(mem, address, off, c), c.done, c.echo, c.again);
    DataAdds(mem, address, off, c);
  }

  lemma DataAdds(mem: Memory, address: nat, off: nat, c: Chunk)
    requires address < U32 && off + c.size <= U32
    ensures Range(mem, address, off) + Data(mem, address, off, c) == Range(mem, address, off + c.size)
  {
    RangeTwice(mem, address, off, c.size);
  }

  lemma GoodChunkIsRight(before: seq<byte>, off: nat, data: seq<byte>, done: nat, echo: bool, again: bool)
    requires |data| > 0 && off + |data| <= |before| && done <= |data| && GoodOutcome(data, done, echo, again)
    ensures ChunkAfter(before, off, data, done, echo, again)[..off + |data|] == before[..off] + data
  {
    hide ChunkAfter;
    ChunkLocal(before, off, data, done, echo, again);
    ChunkRightExactly(|before|, off, data, done, echo, again);
    var r := ChunkAfter(before, off, data, done, echo, again);
    assert r[..off + |data|] == r[..off] + r[off..off + |data|];
  }

  lemma GoodPrefix(mem: Memory, address: nat, chunks: seq<Chunk>)
    requires address < U32 && Total(chunks) <= U32 && chunks != [] && AllGood(mem, address, chunks)
    ensures AllGood(mem, address, chunks[..|chunks| - 1])
    ensures var c, off := chunks[|chunks| - 1], Total(chunks[..|chunks| - 1]);
            off + c.size <= U32 && GoodOutcome(Data(mem, address, off, c), c.done, c.echo, c.again)
  {
    hide GoodOutcome, Data, Total;
    var init := chunks[..|chunks| - 1];
    TotalSnoc(init, chunks[|chunks| - 1]);
    assert init + [chunks[|chunks| - 1]] == chunks;
    assert IsGood(mem, address, chunks, |init|);
    forall i | 0 <= i < |init|
      ensures Total(init[..i]) + init[i].size <= U32 && IsGood(mem, address, init, i)
    {
      assert init[..i] == chunks[..i];
      assert IsGood(mem, address, chunks, i);
    }
  }

  /** The read is right, whatever a buffer of `size` bytes held before. */
  ghost predicate Right(mem: Memory, address: nat, chunks: seq<Chunk>, size: nat)
    requires address < U32 && AllValid(chunks) && Total(chunks) <= size && Total(chunks) <= U32
  {
    forall before :: |before| == size ==>
      AfterChunks(before, mem, address, chunks)[..Total(chunks)] == Range(mem, address, Total(chunks))
  }

  /** Exactly when a whole read is right whatever the buffer held before: every chunk has a good
      outcome. */
  lemma ReadRightExactly(mem: Memory, address: nat, chunks: seq<Chunk>, size: nat)
    requires address < U32 && AllValid(chunks) && Total(chunks) <= size && Total(chunks) <= U32
    ensures Right(mem, address, chunks, size) <==> AllGood(mem, address, chunks)
  {
    hide Range, AfterChunks, IsGood;
    if AllGood(mem, address, chunks) {
      forall before: seq<byte> | |before| == size
        ensures AfterChunks(before, mem, address, chunks)[..Total(chunks)] == Range(mem, address, Total(chunks))
      {
        GoodChunksAreRight(before, mem, address, chunks);
      }
    } else {
      forall i | 0 <= i < |chunks| ensures Total(chunks[..i]) + chunks[i].size <= Total(chunks) {
        TotalGrows(chunks, i);
      }
      var i :| 0 <= i < |chunks| && !IsGood(mem, address, chunks, i);
      var before := BadChunkShows(mem, address, chunks, size, i);
    }
  }

  lemma BadChunkShows(mem: Memory, address: nat, chunks: seq<Chunk>, size: nat, i: nat) returns (before: seq<byte>)
    requires address < U32 && AllValid(chunks) && Total(chunks) <= size && Total(chunks) <= U32
    requires i < |chunks| && Total(chunks[..i]) + chunks[i].size <= Total(chunks) && !IsGood(mem, address, chunks, i)
    ensures |before| == size
    ensures AfterChunks(before, mem, address, chunks)[..Total(chunks)] != Range(mem, address, Total(chunks))
  {
    hide Range, AfterChunks, ChunkAfter, GoodOutcome;
    var off, c := Total(chunks[..i]), chunks[i];
    assert c.Valid();
    var data := Data(mem, address, off, c);
    ChunkAloneRightExactly(data, c.done, c.echo, c.again);
    var here :| |here| == c.size && ChunkAfter(here, 0, data, c.done, c.echo, c.again) != data;
    before := Around(size, off, here);
    PartOfChunk(before, mem, address, chunks, i);
    var whole := AfterChunks(before, mem, address, chunks);
    assert whole[..Total(chunks)][off..off + c.size] == whole[off..off + c.size];
    RangePart(mem, address, off, c.size, Total(chunks));
  }

  lemma RangePart(mem: Memory, address: nat, off: nat, size: nat, len: nat)
    requires address < U32 && off + size <= len <= U32
    ensures Range(mem, address, len)[off..off + size] == Range(mem, Add32(address, off), size)
  {
  }

  /** Everything that was asked for arrived, in first and second reads. */
  predicate AllArrived(chunks: seq<Chunk>) {
    forall i :: 0 <= i < |chunks| ==> chunks[i].done == chunks[i].size && chunks[i].again
  }

  lemma ArrivedSnoc(chunks: seq<Chunk>, c: Chunk)
    ensures AllArrived(chunks + [c]) <==> AllArrived(chunks) && c.done == c.size && c.again
  {
    var all := chunks + [c];
    assert all[|chunks|] == c && forall i :: 0 <= i < |chunks| ==> all[i] == chunks[i];
  }

  lemma ArrivedIsGood(mem: Memory, address: nat, chunks: seq<Chunk>)
    requires address < U32 && Total(chunks) <= U32 && AllArrived(chunks)
    ensures AllGood(mem, address, chunks)
  {
    forall i | 0 <= i < |chunks|
      ensures Total(chunks[..i]) + chunks[i].size <= U32 && IsGood(mem, address, chunks, i)
    {
      TotalGrows(chunks, i);
    }
  }

  /** Where everything arrived, the buffer is the range and what lies behind it is as it was. */
  lemma ArrivedIsRange(before: seq<byte>, mem: Memory, address: nat, chunks: seq<Chunk>)
    requires address < U32 && AllValid(chunks) && Total(chunks) <= |before| && Total(chunks) <= U32
    requires AllArrived(chunks)
    ensures AfterChunks(before, mem, address, chunks) == Put(before, 0, Range(mem, address, Total(chunks)))
  {
    hide AfterChunks, Range, Total;
    ArrivedIsGood(mem, address, chunks);
    GoodChunksAreRight(before, mem, address, chunks);
    RestUntouched(before, mem, address, chunks);
    var r, n := AfterChunks(before, mem, address, chunks), Total(chunks);
    assert r == r[..n] + r[n..];
  }
}
