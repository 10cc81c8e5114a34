/** The image loader as it runs: a file descriptor, the two static buffers and the flash
    device, all updated in place. */
module Loader {
  import opened Words
  import opened Mbin
  import opened Flash

  type FileSystem = map<string, seq<byte>>

  /** An open file.  Reads are deterministic and fall short only at the end of the file. */
  class Descriptor {
    const data: seq<byte>
    var pos: nat

    predicate Valid()
      reads this
    {
      pos <= |data|
    }

    function Rest(): seq<byte>
      requires Valid()
      reads this
    {
      data[pos..]
    }

    constructor (data: seq<byte>)
      ensures Valid() && this.data == data && pos == 0
    {
      this.data, pos := data, 0;
    }

    method Read(buf: array<byte>, count: nat) returns (got: nat)
      requires Valid() && count <= buf.Length
      modifies this, buf
      ensures Valid()
      ensures got == if count <= |old(Rest())| then count else |old(Rest())|
      ensures pos == old(pos) + got
      ensures buf[..] == old(Rest())[..got] + old(buf[..])[got..]
    {
      got := if count <= |data| - pos then count else |data| - pos;
      ghost var before := buf[..];
      forall i | 0 <= i < got {
        buf[i] := data[pos + i];
      }
      assert buf[..] == old(Rest())[..got] + before[got..];
      pos := pos + got;
    }
  }

  lemma Le32After(s: seq<byte>, i: nat)
    ensures i + 4 <= |s| ==> Le32(s[i..], 0) == Le32(s, i)
  {
  }

  class Loader {
    const p: Platform
    const files: FileSystem
    const device: Device
    const segmentBuffer: array<byte>
    const deflateBuffer: array<byte>

    predicate Valid() {
      && p.Valid()
      && segmentBuffer.Length == MAX_SEGMENT_SIZE
      && deflateBuffer.Length == MAX_SEGMENT_SIZE
      && segmentBuffer != deflateBuffer
    }

    ghost function Buf(): (b: Buffer)
      requires Valid()
      reads segmentBuffer
    {
      segmentBuffer[..]
    }

    constructor (p: Platform, files: FileSystem, device: Device)
      requires p.Valid()
      ensures Valid() && fresh(segmentBuffer) && fresh(deflateBuffer)
      ensures this.p == p && this.files == files && this.device == device && Buf() == Blank()
    {
      this.p, this.files, this.device := p, files, device;
      segmentBuffer := new byte[MAX_SEGMENT_SIZE](_ => 0);
      deflateBuffer := new byte[MAX_SEGMENT_SIZE](_ => 0);
    }

    static method ReadSegmentHeader(fd: Descriptor) returns (code: Code, fieldType: nat, len: nat)
      requires fd.Valid()
      modifies fd
      ensures fd.Valid()
      ensures code == if |old(fd.Rest())| < 4 then FileCorrupt else Ok
      ensures code == Ok ==>
                fd.pos == old(fd.pos) + 4 && fieldType == Le16(old(fd.Rest()), 0) && len == Le16(old(fd.Rest()), 2)
      ensures code == Ok ==>
                [fieldType % 0x100, fieldType / 0x100, len % 0x100, len / 0x100] == old(fd.Rest())[..4]
    {
      var overlay := new byte[4](_ => 0);
      var ret := fd.Read(overlay, 4);
      if ret != 4 {
        return FileCorrupt, 0, 0;
      }
      Le16Bytes(overlay[..], 0);
      Le16Bytes(overlay[..], 2);
      return Ok, Le16(overlay[..], 0), Le16(overlay[..], 2);
    }

    static method ReadUint32(fd: Descriptor) returns (code: Code, val: nat)
      requires fd.Valid()
      modifies fd
      ensures fd.Valid()
      ensures code == if |old(fd.Rest())| < 4 then FileCorrupt else Ok
      ensures code == Ok ==> fd.pos == old(fd.pos) + 4 && val == Le32(old(fd.Rest()), 0)
      ensures code == Ok ==>
                val < U32
                && [val % 0x100, val / 0x100 % 0x100, val / 0x1_0000 % 0x100, val / 0x100_0000] == old(fd.Rest())[..4]
    {
      var tmp := new byte[4](_ => 0);
      var ret := fd.Read(tmp, 4);
      if ret != 4 {
        return FileCorrupt, 0;
      }
      Le32Bytes(tmp[..], 0);
      return Ok, Le32(tmp[..], 0);
    }

    /** The end of both segment cases: the area test and the write. */
    method PlaceSegment(addr: nat, size: nat, makeChanges: bool) returns (code: Code)
      requires Valid() && size <= MAX_SEGMENT_SIZE
      modifies device
      ensures device.erases == old(device.erases)
      ensures !p.Fits(addr, size) ==> code == InvalidFile
      ensures addr + size < U32 ==> (code == InvalidFile <==> addr < p.appStart || addr + size > p.appEnd)
      ensures p.Fits(addr, size) && !makeChanges ==> code == Ok
      ensures !(p.Fits(addr, size) && makeChanges) ==> device.mem == old(device.mem) && device.ops == old(device.ops)
      ensures p.Fits(addr, size) && makeChanges ==>
        && code in {Ok, ProgramFailed}
        && device.ops == old(device.ops) + 1
        && Effect(code == Ok, device.mem) ==
             WriteEffect(old(device.mem), Segment(addr, Buf()[..size]), device.hw(old(device.ops)))
    {
      if p.appStart <= addr && (addr + size) % U32 <= p.appEnd {
        code := Ok;
        if makeChanges {
          var ok := device.Write(Segment(addr, segmentBuffer[..size]));
          code := if ok then Ok else ProgramFailed;
        }
      } else {
        code := InvalidFile;
      }
    }

    /** The effect that one switch case must have: `r` is the outcome of reading the record,
        `code` what the case leaves in `ret`, and the record began `header` bytes back. */
    twostate predicate CaseDone(r: Outcome, code: Code, makeChanges: bool, fd: Descriptor)
      requires Valid()
      reads fd, device, segmentBuffer
    {
      && device.erases == old(device.erases)
      && match r
         case Stop(c) => code == c && device.mem == old(device.mem) && device.ops == old(device.ops)
         case AtEof => false
         case Next(used, buf, segment) =>
           && Buf() == buf && (code == Ok ==> fd.pos + 4 == old(fd.pos) + used)
           && if segment.Some? && makeChanges then
                && code in {Ok, ProgramFailed}
                && device.ops == old(device.ops) + 1
                && Effect(code == Ok, device.mem) ==
                     WriteEffect(old(device.mem), segment.value, device.hw(old(device.ops)))
              else
                code == Ok && device.mem == old(device.mem) && device.ops == old(device.ops)
    }

    method LoadPlain(fd: Descriptor, len: nat, makeChanges: bool, ghost s: seq<byte>) returns (code: Code)
      requires Valid() && fd.Valid()
      requires 4 <= |s| && s[4..] == fd.Rest() && len < 0x1_0000
      modifies fd, device, segmentBuffer
      ensures fd.Valid()
      ensures CaseDone(ReadPlain(p, s, len, old(Buf())), code, makeChanges, fd)
    {
      var addr, ret;
      code, addr := ReadUint32(fd);
      if code != Ok {
        return;
      }
      var size := (len - 4) % U32;
      if size > MAX_SEGMENT_SIZE {
        return FileCorrupt;
      }
      assert fd.Rest() == s[8..];
      ret := fd.Read(segmentBuffer, size);
      if ret != size {
        return FileCorrupt;
      }
      assert segmentBuffer[..size] == s[8..8 + size];
      code := PlaceSegment(addr, size, makeChanges);
    }

    method LoadPacked(fd: Descriptor, len: nat, makeChanges: bool, ghost s: seq<byte>) returns (code: Code)
      requires Valid() && fd.Valid()
      requires 4 <= |s| && s[4..] == fd.Rest() && len < 0x1_0000
      modifies fd, device, segmentBuffer, deflateBuffer
      ensures fd.Valid()
      ensures CaseDone(ReadPacked(p, s, len, old(Buf())), code, makeChanges, fd)
    {
      hide Le16, Le32, Platform.Inflate, Platform.Fits;
      Le32After(s, 4);
      Le32After(s, 8);
      var addr, size, ret;
      code, addr := ReadUint32(fd);
      if code != Ok {
        return;
      }
      assert fd.Rest() == s[8..];
      code, size := ReadUint32(fd);
      if code != Ok {
        return;
      }
      if size > MAX_SEGMENT_SIZE {
        return FileCorrupt;
      }
      var packedSize := (len - 8) % U32;
      if packedSize > MAX_SEGMENT_SIZE {
        return FileCorrupt;
      }
      assert fd.Rest() == s[12..];
      ret := fd.Read(deflateBuffer, packedSize);
      if ret != packedSize {
        return FileCorrupt;
      }
      assert deflateBuffer[..packedSize] == s[12..12 + packedSize];
      var puffed := Puff(size, packedSize);
      if puffed != size {
        return FileDecompression;
      }
      code := PlaceSegment(addr, size, makeChanges);
    }

    /** `puff` from the deflate buffer into the segment buffer; returns the updated length. */
    method Puff(size: nat, packedSize: nat) returns (puffed: nat)
      requires Valid() && size <= MAX_SEGMENT_SIZE && packedSize <= MAX_SEGMENT_SIZE
      modifies segmentBuffer
      ensures var r := p.Inflate(deflateBuffer[..packedSize], size);
              puffed == r.DestLen(size) && Buf() == Overlay(old(Buf()), r.written)
    {
      var r := p.Inflate(deflateBuffer[..packedSize], size);
      ghost var before := segmentBuffer[..];
      ghost var source := deflateBuffer[..];
      puffed := r.DestLen(size);
      forall i | 0 <= i < |r.written| {
        segmentBuffer[i] := r.written[i];
      }
      assert segmentBuffer[..] == r.written + before[|r.written|..];
      assert deflateBuffer[..] == source;
    }

    method SkipField(fd: Descriptor, len: nat, makeChanges: bool, ghost s: seq<byte>) returns (code: Code)
      requires Valid() && fd.Valid()
      requires 4 <= |s| && s[4..] == fd.Rest()
      modifies fd, segmentBuffer
      ensures fd.Valid()
      ensures CaseDone(ReadSkipped(s, len, old(Buf())), code, makeChanges, fd)
    {
      if len > MAX_SEGMENT_SIZE {
        return FileCorrupt;
      }
      var ret := fd.Read(segmentBuffer, len);
      code := if ret != len then FileCorrupt else Ok;
      assert code == Ok ==> segmentBuffer[..len] == s[4..4 + len];
    }

    /** What a whole call of `LoadAndFlash` does to the flash, given the file's verdict `s`. */
    twostate predicate LoadDone(s: Scan, code: Code, makeChanges: bool)
      reads device
    {
      && device.erases == old(device.erases)
      && if makeChanges then
           var r := ProgramAll(old(device.mem), s.segments, device.hw, old(device.ops));
           && device.mem == r.mem && device.ops == r.ops
           && code == if r.ok then s.code else ProgramFailed
         else
           code == s.code && device.mem == old(device.mem) && device.ops == old(device.ops)
    }

    /** The loader.  The dry run reports the verdict on the file and touches nothing.  The real
        run programs the file's segments in order; it reports the same verdict unless a write
        failed, and then `ProgramFailed`. */
    method LoadAndFlash(fname: string, makeChanges: bool) returns (code: Code)
      requires Valid()
      modifies device, segmentBuffer, deflateBuffer
      ensures fname !in files ==>
        && code == FileNotFound && device.mem == old(device.mem) && device.ops == old(device.ops)
        && device.erases == old(device.erases)
      ensures fname in files ==> LoadDone(Load(p, files[fname], old(Buf())), code, makeChanges)
      ensures code == Ok ==>
                fname in files
                && var f := files[fname];
                   Buf() == LoadBuffer(p, f, old(Buf()), |Load(p, f, old(Buf())).segments|)
      ensures code == ProgramFailed ==>
                fname in files && old(device.ops) < device.ops
                && Buf() == LoadBuffer(p, files[fname], old(Buf()), device.ops - old(device.ops) - 1)
    {
      hide ScanAll, ScanBuffer, CheckMagic;
      if fname !in files {
        return FileNotFound;
      }
      var fd := new Descriptor(files[fname]);
      var ok, magicCode := CheckMagicOf(fd);
      if !ok {
        return magicCode;
      }
      var modified: bool;
      code, modified := LoadRecords(fd, makeChanges);
      if code == Ok && !modified {
        code := InvalidFile;
      }
    }

    static method CheckMagicOf(fd: Descriptor) returns (ok: bool, code: Code)
      requires fd.Valid() && fd.pos == 0
      modifies fd
      ensures fd.Valid()
      ensures code == CheckMagic(fd.data) && ok == (code == Ok)
      ensures ok ==> fd.pos == 8
    {
      var ret, fieldType, len := ReadSegmentHeader(fd);
      if ret != Ok {
        return false, FileCorrupt;
      }
      if fieldType != FIELD_TYPE_MAGIC {
        return false, InvalidFile;
      }
      if len != 4 {
        return false, FileCorrupt;
      }
      var magic := 0;
      var value;
      ret, value := ReadUint32(fd);
      if ret == Ok {
        magic := value;
      }
      if MBIN_SW_MAGIC_NUMBER != magic {
        return false, InvalidFile;
      }
      return true, Ok;
    }

    /** One pass of the record loop. */
    method LoadRecord(fd: Descriptor, makeChanges: bool) returns (eof: bool, code: Code, wrote: bool)
      requires Valid() && fd.Valid()
      modifies fd, device, segmentBuffer, deflateBuffer
      ensures fd.Valid()
      ensures var r := ReadRecord(p, old(fd.Rest()), old(Buf()));
        && eof == r.AtEof?
        && (r.Next? && code == Ok ==> fd.Rest() == old(fd.Rest())[r.used..] && wrote == r.segment.Some?)
        && (r.Next? ==> Buf() == r.buf)
        && (r.AtEof? ==> Buf() == old(Buf()))
        && RecordDone(r, code, makeChanges, old(device.mem), old(device.ops), device.mem, device.ops)
      ensures device.erases == old(device.erases)
    {
      ghost var s := fd.Rest();
      var ret, fieldType, len := ReadSegmentHeader(fd);
      if ret != Ok {
        return false, FileCorrupt, false;
      }
      if fieldType == FIELD_TYPE_SW_SEGMENT {
        code := LoadPlain(fd, len, makeChanges, s);
        return false, code, true;
      } else if fieldType == FIELD_TYPE_SW_SEGMENT_DEFLATED {
        code := LoadPacked(fd, len, makeChanges, s);
        return false, code, true;
      } else if IsEof(fieldType) {
        return true, Ok, false;
      } else if IsSkipped(fieldType) {
        code := SkipField(fd, len, makeChanges, s);
        return false, code, false;
      } else {
        return false, FileCorrupt, false;
      }
    }

    /** The effect of one pass on the flash. */
    ghost predicate RecordDone(
        r: Outcome, code: Code, makeChanges: bool, mem: seq<byte>, ops: nat, mem': seq<byte>, ops': nat)
    {
      if r.Next? && r.segment.Some? && makeChanges then
        && code in {Ok, ProgramFailed}
        && ops' == ops + 1
        && Effect(code == Ok, mem') == WriteEffect(mem, r.segment.value, device.hw(ops))
      else
        && code == (if r.Stop? then r.code else Ok)
        && mem' == mem && ops' == ops
    }

    /** What is left to do equals what there was to do. */
    ghost predicate Pending(
        mem: seq<byte>, ops: nat, whole: Scan, mem': seq<byte>, ops': nat, rest: Scan,
        makeChanges: bool, modified: bool)
    {
      && whole.code == rest.code
      && (if modified then whole.segments != [] else whole.segments == rest.segments)
      && (if makeChanges
          then ProgramAll(mem, whole.segments, device.hw, ops) == ProgramAll(mem', rest.segments, device.hw, ops')
          else mem == mem' && ops == ops')
    }

    lemma {:induction false} PendingStep(
        mem: seq<byte>, ops: nat, whole: Scan, m: seq<byte>, n: nat, s: seq<byte>, buf: Buffer,
        m': seq<byte>, n': nat, makeChanges: bool, modified: bool)
      requires Pending(mem, ops, whole, m, n, ScanAll(p, s, buf), makeChanges, modified)
      requires ReadRecord(p, s, buf).Next?
      requires RecordDone(ReadRecord(p, s, buf), Ok, makeChanges, m, n, m', n')
      ensures var r := ReadRecord(p, s, buf);
              Pending(mem, ops, whole, m', n', ScanAll(p, s[r.used..], r.buf), makeChanges, modified || r.segment.Some?)
    {
      ScanNext(p, s, buf);
      hide ScanAll, ReadRecord;
      var r := ReadRecord(p, s, buf);
      var here, rest := ScanAll(p, s, buf), ScanAll(p, s[r.used..], r.buf);
      if r.segment.Some? {
        assert here.segments[1..] == rest.segments;
      }
    }

    lemma PendingEnd(
        mem: seq<byte>, ops: nat, whole: Scan, m: seq<byte>, n: nat, s: seq<byte>, buf: Buffer,
        m': seq<byte>, n': nat, code: Code, makeChanges: bool, modified: bool)
      requires Pending(mem, ops, whole, m, n, ScanAll(p, s, buf), makeChanges, modified)
      requires RecordDone(ReadRecord(p, s, buf), code, makeChanges, m, n, m', n')
      requires ReadRecord(p, s, buf).AtEof? || code != Ok
      ensures code == Ok ==> modified == (whole.segments != [])
      ensures if makeChanges then
                var r := ProgramAll(mem, whole.segments, device.hw, ops);
                m' == r.mem && n' == r.ops && code == if r.ok then whole.code else ProgramFailed
              else
                code == whole.code && m' == mem && n' == ops
    {
      var r, here := ReadRecord(p, s, buf), ScanAll(p, s, buf);
      if r.Next? {
        assert here.segments[0] == r.segment.value;
      }
    }

    /** The record loop. */
    method LoadRecords(fd: Descriptor, makeChanges: bool) returns (code: Code, modified: bool)
      requires Valid() && fd.Valid()
      modifies fd, device, segmentBuffer, deflateBuffer
      ensures LoadDone(ScanAll(p, old(fd.Rest()), old(Buf())), code, makeChanges)
      ensures code == Ok ==> modified == (ScanAll(p, old(fd.Rest()), old(Buf())).segments != [])
      ensures code == Ok ==>
                Buf() == ScanBuffer(p, old(fd.Rest()), old(Buf()), |ScanAll(p, old(fd.Rest()), old(Buf())).segments|)
      ensures code == ProgramFailed ==>
                old(device.ops) < device.ops
                && Buf() == ScanBuffer(p, old(fd.Rest()), old(Buf()), device.ops - old(device.ops) - 1)
    {
      hide ScanAll, ScanBuffer, ReadRecord, ProgramAll, SameEnd;
      modified := false;
      SameEndFirst(fd.Rest(), Buf());
      ghost var s0, buf0, passed: nat := fd.Rest(), Buf(), 0;
      ghost var whole := ScanAll(p, fd.Rest(), Buf());
      while true
        invariant fd.Valid() && device.erases == old(device.erases)
        invariant SameEnd(s0, buf0, whole, fd.Rest(), Buf(), passed)
        invariant makeChanges ==> device.ops == old(device.ops) + passed
        invariant Pending(old(device.mem), old(device.ops), whole,
                          device.mem, device.ops, ScanAll(p, fd.Rest(), Buf()), makeChanges, modified)
        decreases |fd.Rest()|
      {
        ghost var s, buf, m, n := fd.Rest(), Buf(), device.mem, device.ops;
        var eof, wrote;
        eof, code, wrote := LoadRecord(fd, makeChanges);
        SameEndStep(s0, buf0, whole, s, buf, passed);
        if eof || code != Ok {
          PendingEnd(old(device.mem), old(device.ops), whole, m, n, s, buf,
                     device.mem, device.ops, code, makeChanges, modified);
          return;
        }
        PendingStep(old(device.mem), old(device.ops), whole, m, n, s, buf,
                    device.mem, device.ops, makeChanges, modified);
        modified := modified || wrote;
        passed := if wrote then passed + 1 else passed;
      }
    }

    /** The record loop leaves the same buffer from here, `passed` segments on, as from the
        start. */
    ghost predicate SameEnd(s0: seq<byte>, buf0: Buffer, whole: Scan, s: seq<byte>, buf: Buffer, passed: nat) {
      && |whole.segments| == passed + |ScanAll(p, s, buf).segments|
      && forall k: nat :: SameEndAt(s0, buf0, s, buf, passed, k)
    }

    predicate SameEndAt(s0: seq<byte>, buf0: Buffer, s: seq<byte>, buf: Buffer, passed: nat, k: nat) {
      ScanBuffer(p, s0, buf0, passed + k) == ScanBuffer(p, s, buf, k)
    }

    lemma SameEndStep(s0: seq<byte>, buf0: Buffer, whole: Scan, s: seq<byte>, buf: Buffer, passed: nat)
      requires SameEnd(s0, buf0, whole, s, buf, passed)
      ensures var r := ReadRecord(p, s, buf);
              && (r.Next? ==>
                    SameEnd(s0, buf0, whole, s[r.used..], r.buf, if r.segment.Some? then passed + 1 else passed))
              && (r.Next? && r.segment.Some? ==> r.buf == ScanBuffer(p, s0, buf0, passed))
              && (r.AtEof? ==> |whole.segments| == passed && buf == ScanBuffer(p, s0, buf0, passed))
    {
      hide ScanAll, ScanBuffer, ReadRecord;
      var r := ReadRecord(p, s, buf);
      assert SameEndAt(s0, buf0, s, buf, passed, 0);
      if r.Next? {
        ScanNext(p, s, buf);
        BufferNext(p, s, buf, 0);
        var now := if r.segment.Some? then passed + 1 else passed;
        forall k: nat ensures SameEndAt(s0, buf0, s[r.used..], r.buf, now, k) {
          SameEndNext(s0, buf0, s, buf, passed, k);
        }
      } else if r.AtEof? {
        ScanEnd(p, s, buf, 0);
      }
    }

    lemma SameEndNext(s0: seq<byte>, buf0: Buffer, s: seq<byte>, buf: Buffer, passed: nat, k: nat)
      requires ReadRecord(p, s, buf).Next? && forall j: nat :: SameEndAt(s0, buf0, s, buf, passed, j)
      ensures var r := ReadRecord(p, s, buf);
              SameEndAt(s0, buf0, s[r.used..], r.buf, if r.segment.Some? then passed + 1 else passed, k)
    {
      hide ScanBuffer, ReadRecord;
      var j := if ReadRecord(p, s, buf).segment.Some? then k + 1 else k;
      assert SameEndAt(s0, buf0, s, buf, passed, j);
      BufferNext(p, s, buf, j);
    }

    lemma SameEndFirst(s: seq<byte>, buf: Buffer)
      ensures SameEnd(s, buf, ScanAll(p, s, buf), s, buf, 0)
    {
      hide ScanAll, ScanBuffer;
    }
  }

  /** The code of a real run of the loader. */
  function RealRunCode(p: Platform, f: seq<byte>, buf: Buffer, mem: seq<byte>, hw: Hardware, ops: nat): Code {
    var s := Load(p, f, buf);
    if ProgramAll(mem, s.segments, hw, ops).ok then s.code else ProgramFailed
  }

  /** The dry run predicts the real run, though the segment buffer differs between them: the
      real run returns `Ok` exactly when the dry run does and no write fails, and any code but
      `ProgramFailed` is the code of the dry run. */
  lemma DryRunPredictsRealRun(
      p: Platform, f: seq<byte>, dryBuf: Buffer, buf: Buffer, mem: seq<byte>, hw: Hardware, ops: nat)
    ensures var dry, actual := Load(p, f, dryBuf).code, RealRunCode(p, f, buf, mem, hw, ops);
            var segs := Load(p, f, buf).segments;
            && (actual == Ok <==> dry == Ok && forall i :: 0 <= i < |segs| ==> WriteWorks(|mem|, segs, hw, ops, i))
            && (actual != ProgramFailed ==> actual == dry)
  {
    LoadHasNoBuffer(p, f, dryBuf, buf);
    ProgramWorks(mem, Load(p, f, buf).segments, hw, ops);
  }
}
