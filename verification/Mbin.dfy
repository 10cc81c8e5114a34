/** The MBIN container as the bootloader reads it: a magic record, then type-length-value
    records, then an end-of-file record.  `Load` gives the verdict on a file and the flash
    segments met before that verdict; `Encode` is the container format itself.  Lemmas
    `AcceptedIsEncoding` and `EncodingIsAccepted` connect the two. */
module Mbin {
  import opened Words

  const MAX_SEGMENT_SIZE: nat := 32768

  const FIELD_TYPE_FW_TLV_BCF_ADDR: nat := 0x0001
  const FIELD_TYPE_MAGIC: nat := 0x8000
  const FIELD_TYPE_FW_SEGMENT: nat := 0x8001
  const FIELD_TYPE_FW_SEGMENT_DEFLATED: nat := 0x8002
  const FIELD_TYPE_BCF_BOARD_CONFIG: nat := 0x8100
  const FIELD_TYPE_BCF_REGDOM: nat := 0x8101
  const FIELD_TYPE_SW_SEGMENT: nat := 0x8201
  const FIELD_TYPE_SW_SEGMENT_DEFLATED: nat := 0x8202
  const FIELD_TYPE_EOF: nat := 0x8f00
  const FIELD_TYPE_EOF_WITH_SIGNATURE: nat := 0x8f01

  const MBIN_SW_MAGIC_NUMBER: nat := 0x57534d4d

  /** The bootloader return codes, in the order of their numbers. */
  datatype Code =
    | Ok
    | FileNotFound
    | SignatureNotFound
    | FileVerificationFailed
    | InvalidFile
    | FileCorrupt
    | EraseFailed
    | ProgramFailed
    | TooManyAttempts
    | FileDecompression

  /** What `puff` leaves behind: its return value and the bytes it put at the destination. */
  datatype PuffResult = PuffResult(err: int, written: seq<byte>)
  {
    /** The destination length after the call: `puff` updates it only when `err <= 0`. */
    function DestLen(capacity: nat): nat {
      if err <= 0 then |written| else capacity
    }
  }

  /** The linker symbols around the application area, and the decompressor.  `puff` is any
      function of the compressed bytes and the room for output. */
  datatype Platform = Platform(appStart: nat, appEnd: nat, puff: (seq<byte>, nat) -> PuffResult)
  {
    predicate Valid() {
      appStart < appEnd < U32
    }

    /** `puff` never writes more than it was given room for; when it would, it stops at
        `capacity` with return value 1 (output space exhausted). */
    function Inflate(source: seq<byte>, capacity: nat): (r: PuffResult)
      ensures |r.written| <= capacity
    {
      var r := puff(source, capacity);
      if |r.written| <= capacity then r else PuffResult(1, r.written[..capacity])
    }

    /** The area test of the loader, in 32-bit arithmetic. */
    predicate Fits(addr: nat, size: nat) {
      appStart <= addr && (addr + size) % U32 <= appEnd
    }
  }

  /** A piece of flash content: the bytes `data` at address `addr`. */
  datatype Segment = Segment(addr: nat, data: seq<byte>)

  predicate IsSkipped(fieldType: nat) {
    || fieldType == FIELD_TYPE_FW_SEGMENT
    || fieldType == FIELD_TYPE_FW_SEGMENT_DEFLATED
    || fieldType == FIELD_TYPE_FW_TLV_BCF_ADDR
    || fieldType == FIELD_TYPE_BCF_BOARD_CONFIG
    || fieldType == FIELD_TYPE_BCF_REGDOM
  }

  predicate IsEof(fieldType: nat) {
    fieldType == FIELD_TYPE_EOF || fieldType == FIELD_TYPE_EOF_WITH_SIGNATURE
  }

  // ---------------------------------------------------------------------------------------
  // Reading
  // ---------------------------------------------------------------------------------------

  /** The static segment buffer, whose content survives from one record to the next. */
  type Buffer = b: seq<byte> | |b| == MAX_SEGMENT_SIZE witness seq(MAX_SEGMENT_SIZE, _ => 0)

  /** `buf` after its first bytes were overwritten by `data`. */
  function Overlay(buf: Buffer, data: seq<byte>): (r: Buffer)
    requires |data| <= MAX_SEGMENT_SIZE
    ensures r[..|data|] == data && r[|data|..] == buf[|data|..]
  {
    data + buf[|data|..]
  }

  /** What one pass of the record loop does; `used` counts the bytes it consumed. */
  datatype Outcome =
    | Stop(code: Code)
    | AtEof
    | Next(used: nat, buf: Buffer, segment: Option<Segment>)

  /** The record at the head of `s`, the unread part of the file, when the segment buffer
      holds `buf`. */
  function ReadRecord(p: Platform, s: seq<byte>, buf: Buffer): (r: Outcome)
    ensures r.Next? ==> 0 < r.used <= |s|
    ensures r.Stop? ==> r.code != Ok && r.code != ProgramFailed
  {
    if |s| < 4 then Stop(FileCorrupt) else
    var fieldType, len := Le16(s, 0), Le16(s, 2);
    if fieldType == FIELD_TYPE_SW_SEGMENT then ReadPlain(p, s, len, buf)
    else if fieldType == FIELD_TYPE_SW_SEGMENT_DEFLATED then ReadPacked(p, s, len, buf)
    else if IsEof(fieldType) then AtEof
    else if IsSkipped(fieldType) then ReadSkipped(s, len, buf)
    else Stop(FileCorrupt)
  }

  function ReadSkipped(s: seq<byte>, len: nat, buf: Buffer): (r: Outcome)
    requires 4 <= |s|
    ensures r.Next? ==> 4 <= r.used <= |s|
    ensures r.Stop? ==> r.code == FileCorrupt
  {
    if len > MAX_SEGMENT_SIZE || 4 + len > |s| then Stop(FileCorrupt)
    else Next(4 + len, Overlay(buf, s[4..4 + len]), None)
  }

  function ReadPlain(p: Platform, s: seq<byte>, len: nat, buf: Buffer): (r: Outcome)
    requires 4 <= |s|
    ensures r.Next? ==> 4 <= r.used <= |s|
    ensures r.Stop? ==> r.code != Ok && r.code != ProgramFailed
    ensures r.Next? && len < 0x1_0000 ==> 4 <= len && r.used == 4 + len
  {
    if |s| < 8 then Stop(FileCorrupt) else
    var addr, size := Le32(s, 4), (len - 4) % U32;
    if size > MAX_SEGMENT_SIZE || 8 + size > |s| then Stop(FileCorrupt)
    else Place(p, addr, size, 8 + size, Overlay(buf, s[8..8 + size]))
  }

  function ReadPacked(p: Platform, s: seq<byte>, len: nat, buf: Buffer): (r: Outcome)
    requires 4 <= |s|
    ensures r.Next? ==> 4 <= r.used <= |s|
    ensures r.Stop? ==> r.code != Ok && r.code != ProgramFailed
    ensures r.Next? && len < 0x1_0000 ==> 8 <= len && r.used == 4 + len
  {
    if |s| < 12 then Stop(FileCorrupt) else
    var addr, size, packedSize := Le32(s, 4), Le32(s, 8), (len - 8) % U32;
    if size > MAX_SEGMENT_SIZE || packedSize > MAX_SEGMENT_SIZE || 12 + packedSize > |s|
    then Stop(FileCorrupt)
    else
      var r := p.Inflate(s[12..12 + packedSize], size);
      if r.DestLen(size) != size then Stop(FileDecompression)
      else Place(p, addr, size, 12 + packedSize, Overlay(buf, r.written))
  }

  function Place(p: Platform, addr: nat, size: nat, used: nat, buf: Buffer): (r: Outcome)
    requires size <= MAX_SEGMENT_SIZE
    ensures r.Next? ==> r.used == used
  {
    if p.Fits(addr, size) then Next(used, buf, Some(Segment(addr, buf[..size])))
    else Stop(InvalidFile)
  }

  /** A verdict, and the segments met before it, in file order. */
  datatype Scan = Scan(code: Code, segments: seq<Segment>)
  {
    function Prepend(s: Option<Segment>): Scan {
      match s
      case None => this
      case Some(x) => this.(segments := [x] + segments)
    }
  }

  /** The records of `s`; `Ok` says that an end-of-file record was reached. */
  function ScanAll(p: Platform, s: seq<byte>, buf: Buffer): (r: Scan)
    ensures r.code != ProgramFailed
    decreases |s|
  {
    match ReadRecord(p, s, buf)
    case Stop(code) => Scan(code, [])
    case AtEof => Scan(Ok, [])
    case Next(used, buf', segment) => ScanAll(p, s[used..], buf').Prepend(segment)
  }

  /** The verdict on the first eight bytes. */
  function CheckMagic(f: seq<byte>): (c: Code)
    ensures c == Ok ==> 8 <= |f|
  {
    if |f| < 4 then FileCorrupt
    else if Le16(f, 0) != FIELD_TYPE_MAGIC then InvalidFile
    else if Le16(f, 2) != 4 then FileCorrupt
    else if |f| < 8 || Le32(f, 4) != MBIN_SW_MAGIC_NUMBER then InvalidFile
    else Ok
  }

  /** The verdict on a whole file, when the segment buffer holds `buf`. */
  function Load(p: Platform, f: seq<byte>, buf: Buffer): (r: Scan)
    ensures r.code != ProgramFailed
    ensures r.code == Ok ==> r.segments != []
  {
    if CheckMagic(f) != Ok then Scan(CheckMagic(f), []) else
    var s := ScanAll(p, f[8..], buf);
    if s.code == Ok && s.segments == [] then Scan(InvalidFile, []) else s
  }

  /** The segment buffer where the record loop stops: at the end-of-file record, or behind the
      segment whose write fails after `k` others succeeded. */
  function ScanBuffer(p: Platform, s: seq<byte>, buf: Buffer, k: nat): Buffer
    decreases |s|
  {
    match ReadRecord(p, s, buf)
    case Next(used, buf', segment) =>
      if segment.None? then ScanBuffer(p, s[used..], buf', k)
      else if k == 0 then buf'
      else ScanBuffer(p, s[used..], buf', k - 1)
    case _ => buf
  }

  /** The same for a whole file. */
  function LoadBuffer(p: Platform, f: seq<byte>, buf: Buffer, k: nat): Buffer {
    if CheckMagic(f) != Ok then buf else ScanBuffer(p, f[8..], buf, k)
  }

  // ---------------------------------------------------------------------------------------
  // The format
  // ---------------------------------------------------------------------------------------

  datatype Record =
    | Plain(addr: nat, body: seq<byte>)
    | Packed(addr: nat, size: nat, packed: seq<byte>)
    | Skipped(fieldType: nat, body: seq<byte>)

  /** A file: records, the end-of-file header (whose payload is never read), and any bytes. */
  datatype Image = Image(records: seq<Record>, eofType: nat, eofLen: nat, trailing: seq<byte>)

  /** A record within the size limits. */
  predicate Sized(r: Record) {
    match r
    case Plain(addr, body) => addr < U32 && |body| <= MAX_SEGMENT_SIZE
    case Packed(addr, size, packed) =>
      addr < U32 && size <= MAX_SEGMENT_SIZE && |packed| <= MAX_SEGMENT_SIZE
    case Skipped(fieldType, body) => IsSkipped(fieldType) && |body| <= MAX_SEGMENT_SIZE
  }

  /** A record that the platform takes: in the area, and not refused by the decompressor. */
  predicate Taken(p: Platform, r: Record) {
    match r
    case Plain(addr, body) => p.Fits(addr, |body|)
    case Packed(addr, size, packed) =>
      p.Inflate(packed, size).DestLen(size) == size && p.Fits(addr, size)
    case Skipped(_, _) => true
  }

  predicate AllTaken(p: Platform, rs: seq<Record>) {
    forall i :: 0 <= i < |rs| ==> Sized(rs[i]) && Taken(p, rs[i])
  }

  predicate WellFormed(p: Platform, img: Image) {
    && AllTaken(p, img.records)
    && (exists i :: 0 <= i < |img.records| && !img.records[i].Skipped?)
    && IsEof(img.eofType)
    && img.eofLen < 0x1_0000
  }

  function Header(fieldType: nat, len: nat): (s: seq<byte>)
    requires fieldType < 0x1_0000 && len < 0x1_0000
    ensures |s| == 4
  {
    Bytes16(fieldType) + Bytes16(len)
  }

  function EncodeRecord(r: Record): seq<byte>
    requires Sized(r)
  {
    match r
    case Plain(addr, body) => Header(FIELD_TYPE_SW_SEGMENT, 4 + |body|) + Bytes32(addr) + body
    case Packed(addr, size, packed) =>
      Header(FIELD_TYPE_SW_SEGMENT_DEFLATED, 8 + |packed|) + Bytes32(addr) + Bytes32(size) + packed
    case Skipped(fieldType, body) => Header(fieldType, |body|) + body
  }

  function EncodeRecords(rs: seq<Record>): seq<byte>
    requires forall i :: 0 <= i < |rs| ==> Sized(rs[i])
  {
    if rs == [] then [] else EncodeRecord(rs[0]) + EncodeRecords(rs[1..])
  }

  function EncodeTail(eofType: nat, eofLen: nat, trailing: seq<byte>): seq<byte>
    requires eofType < 0x1_0000 && eofLen < 0x1_0000
  {
    Header(eofType, eofLen) + trailing
  }

  function Encode(p: Platform, img: Image): seq<byte>
    requires WellFormed(p, img)
  {
    Header(FIELD_TYPE_MAGIC, 4) + Bytes32(MBIN_SW_MAGIC_NUMBER)
    + (EncodeRecords(img.records) + EncodeTail(img.eofType, img.eofLen, img.trailing))
  }

  /** The buffer after a record was read. */
  function BufferAfter(p: Platform, r: Record, buf: Buffer): Buffer
    requires Sized(r)
  {
    match r
    case Plain(_, body) => Overlay(buf, body)
    case Packed(_, size, packed) => Overlay(buf, p.Inflate(packed, size).written)
    case Skipped(_, body) => Overlay(buf, body)
  }

  /** The segment that a record contributes when the buffer held `buf` before it. */
  function SegmentOf(p: Platform, r: Record, buf: Buffer): Option<Segment>
    requires Sized(r)
  {
    match r
    case Plain(addr, body) => Some(Segment(addr, body))
    case Packed(addr, size, _) => Some(Segment(addr, BufferAfter(p, r, buf)[..size]))
    case Skipped(_, _) => None
  }

  function SegmentsOf(p: Platform, rs: seq<Record>, buf: Buffer): (segs: seq<Segment>)
    requires forall i :: 0 <= i < |rs| ==> Sized(rs[i])
    ensures segs == [] <==> forall i :: 0 <= i < |rs| ==> rs[i].Skipped?
  {
    if rs == [] then [] else
    var rest := SegmentsOf(p, rs[1..], BufferAfter(p, rs[0], buf));
    assert forall i :: 1 <= i < |rs| ==> rs[i] == rs[1..][i - 1];
    match SegmentOf(p, rs[0], buf)
    case None => rest
    case Some(x) => [x] + rest
  }

  /** The buffer behind the records, or behind the one whose write fails after `k` others. */
  function RecordsBuffer(p: Platform, rs: seq<Record>, buf: Buffer, k: nat): Buffer
    requires forall i :: 0 <= i < |rs| ==> Sized(rs[i])
  {
    if rs == [] then buf else
    var b := BufferAfter(p, rs[0], buf);
    if rs[0].Skipped? then RecordsBuffer(p, rs[1..], b, k)
    else if k == 0 then b
    else RecordsBuffer(p, rs[1..], b, k - 1)
  }

  // ---------------------------------------------------------------------------------------
  // Every encoding is accepted
  // ---------------------------------------------------------------------------------------

  lemma HeaderAt(fieldType: nat, len: nat, rest: seq<byte>)
    requires fieldType < 0x1_0000 && len < 0x1_0000
    ensures var s := Header(fieldType, len) + rest;
            |s| >= 4 && Le16(s, 0) == fieldType && Le16(s, 2) == len && s[4..] == rest
  {
    var s := Header(fieldType, len) + rest;
    assert s[0] == Bytes16(fieldType)[0] && s[1] == Bytes16(fieldType)[1];
    assert s[2] == Bytes16(len)[0] && s[3] == Bytes16(len)[1];
  }

  lemma Bytes32At(v: nat, pre: seq<byte>, rest: seq<byte>)
    requires v < U32
    ensures var s := pre + Bytes32(v) + rest;
            Le32(s, |pre|) == v && s[|pre| + 4..] == rest
  {
    var s := pre + Bytes32(v) + rest;
    assert forall i :: 0 <= i < 4 ==> s[|pre| + i] == Bytes32(v)[i];
  }

  /** One encoded record is read back whatever follows it. */
  lemma {:induction false} ReadEncoded(p: Platform, r: Record, rest: seq<byte>, buf: Buffer)
    requires Sized(r) && Taken(p, r)
    ensures ReadRecord(p, EncodeRecord(r) + rest, buf) ==
            Next(|EncodeRecord(r)|, BufferAfter(p, r, buf), SegmentOf(p, r, buf))
  {
    match r
    case Plain(addr, body) => ReadEncodedPlain(p, addr, body, rest, buf);
    case Packed(addr, size, packed) => ReadEncodedPacked(p, addr, size, packed, rest, buf);
    case Skipped(fieldType, body) => ReadEncodedSkipped(p, fieldType, body, rest, buf);
  }

  lemma ReadEncodedPlain(p: Platform, addr: nat, body: seq<byte>, rest: seq<byte>, buf: Buffer)
    requires var r := Plain(addr, body); Sized(r) && Taken(p, r)
    ensures var r := Plain(addr, body);
            ReadRecord(p, EncodeRecord(r) + rest, buf) ==
            Next(|EncodeRecord(r)|, BufferAfter(p, r, buf), SegmentOf(p, r, buf))
  {
    hide EncodeRecord, Le16, Le32;
    PlainLayout(addr, body, rest);
  }

  lemma PlainLayout(addr: nat, body: seq<byte>, rest: seq<byte>)
    requires Sized(Plain(addr, body))
    ensures var s := EncodeRecord(Plain(addr, body)) + rest;
            && |s| == 8 + |body| + |rest| && |EncodeRecord(Plain(addr, body))| == 8 + |body|
            && Le16(s, 0) == FIELD_TYPE_SW_SEGMENT && Le16(s, 2) == 4 + |body|
            && Le32(s, 4) == addr && s[8..8 + |body|] == body
  {
    var s, h := EncodeRecord(Plain(addr, body)) + rest, Header(FIELD_TYPE_SW_SEGMENT, 4 + |body|);
    assert s == h + (Bytes32(addr) + body + rest);
    HeaderAt(FIELD_TYPE_SW_SEGMENT, 4 + |body|, Bytes32(addr) + body + rest);
    assert s == h + Bytes32(addr) + (body + rest);
    Bytes32At(addr, h, body + rest);
    assert s[8..8 + |body|] == body;
  }

  lemma {:induction false} ReadEncodedPacked(
      p: Platform, addr: nat, size: nat, packed: seq<byte>, rest: seq<byte>, buf: Buffer)
    requires var r := Packed(addr, size, packed); Sized(r) && Taken(p, r)
    ensures var r := Packed(addr, size, packed);
            ReadRecord(p, EncodeRecord(r) + rest, buf) ==
            Next(|EncodeRecord(r)|, BufferAfter(p, r, buf), SegmentOf(p, r, buf))
  {
    hide EncodeRecord, Le16, Le32;
    PackedLayout(addr, size, packed, rest);
  }

  lemma PackedLayout(addr: nat, size: nat, packed: seq<byte>, rest: seq<byte>)
    requires Sized(Packed(addr, size, packed))
    ensures var s := EncodeRecord(Packed(addr, size, packed)) + rest;
            && |s| == 12 + |packed| + |rest| && |EncodeRecord(Packed(addr, size, packed))| == 12 + |packed|
            && Le16(s, 0) == FIELD_TYPE_SW_SEGMENT_DEFLATED && Le16(s, 2) == 8 + |packed|
            && Le32(s, 4) == addr && Le32(s, 8) == size && s[12..12 + |packed|] == packed
  {
    var s := EncodeRecord(Packed(addr, size, packed)) + rest;
    var h := Header(FIELD_TYPE_SW_SEGMENT_DEFLATED, 8 + |packed|);
    var tail := packed + rest;
    assert s == h + (Bytes32(addr) + (Bytes32(size) + tail));
    HeaderAt(FIELD_TYPE_SW_SEGMENT_DEFLATED, 8 + |packed|, Bytes32(addr) + (Bytes32(size) + tail));
    assert s == h + Bytes32(addr) + (Bytes32(size) + tail);
    Bytes32At(addr, h, Bytes32(size) + tail);
    assert s == (h + Bytes32(addr)) + Bytes32(size) + tail;
    Bytes32At(size, h + Bytes32(addr), tail);
    assert s[12..12 + |packed|] == packed;
  }

  lemma ReadEncodedSkipped(p: Platform, fieldType: nat, body: seq<byte>, rest: seq<byte>, buf: Buffer)
    requires Sized(Skipped(fieldType, body))
    ensures var r := Skipped(fieldType, body);
            ReadRecord(p, EncodeRecord(r) + rest, buf) ==
            Next(|EncodeRecord(r)|, BufferAfter(p, r, buf), SegmentOf(p, r, buf))
  {
    SkippedLayout(fieldType, body, rest);
  }

  lemma SkippedLayout(fieldType: nat, body: seq<byte>, rest: seq<byte>)
    requires Sized(Skipped(fieldType, body))
    ensures var s := EncodeRecord(Skipped(fieldType, body)) + rest;
            && |s| == 4 + |body| + |rest|
            && Le16(s, 0) == fieldType && Le16(s, 2) == |body| && s[4..4 + |body|] == body
  {
    var s := EncodeRecord(Skipped(fieldType, body)) + rest;
    assert s == Header(fieldType, |body|) + (body + rest);
    HeaderAt(fieldType, |body|, body + rest);
    assert s[4..4 + |body|] == body;
  }

  lemma {:induction false} ScanHead(p: Platform, r: Record, rest: seq<byte>, buf: Buffer)
    requires Sized(r) && Taken(p, r)
    ensures ScanAll(p, EncodeRecord(r) + rest, buf) ==
            ScanAll(p, rest, BufferAfter(p, r, buf)).Prepend(SegmentOf(p, r, buf))
  {
    ReadEncoded(p, r, rest, buf);
    assert (EncodeRecord(r) + rest)[|EncodeRecord(r)|..] == rest;
  }

  lemma ScanTail(p: Platform, eofType: nat, eofLen: nat, trailing: seq<byte>, buf: Buffer)
    requires IsEof(eofType) && eofLen < 0x1_0000
    ensures ScanAll(p, EncodeTail(eofType, eofLen, trailing), buf) == Scan(Ok, [])
  {
    HeaderAt(eofType, eofLen, trailing);
  }

  lemma EncodeUnfold(p: Platform, rs: seq<Record>, tail: seq<byte>)
    requires AllTaken(p, rs)
    ensures rs == [] ==> EncodeRecords(rs) + tail == tail
    ensures rs != [] ==>
      && AllTaken(p, rs[1..])
      && EncodeRecords(rs) + tail == EncodeRecord(rs[0]) + (EncodeRecords(rs[1..]) + tail)
  {
  }

  lemma {:induction false} ScanEncoded(
      p: Platform, rs: seq<Record>, eofType: nat, eofLen: nat, trailing: seq<byte>, buf: Buffer)
    requires AllTaken(p, rs) && IsEof(eofType) && eofLen < 0x1_0000
    ensures ScanAll(p, EncodeRecords(rs) + EncodeTail(eofType, eofLen, trailing), buf)
         == Scan(Ok, SegmentsOf(p, rs, buf))
    decreases |rs|
  {
    hide ScanAll, EncodeRecords, EncodeRecord, EncodeTail;
    var tail := EncodeTail(eofType, eofLen, trailing);
    EncodeUnfold(p, rs, tail);
    if rs == [] {
      ScanTail(p, eofType, eofLen, trailing, buf);
    } else {
      ScanHead(p, rs[0], EncodeRecords(rs[1..]) + tail, buf);
      ScanEncoded(p, rs[1..], eofType, eofLen, trailing, BufferAfter(p, rs[0], buf));
    }
  }

  lemma {:induction false} BufferHead(p: Platform, r: Record, rest: seq<byte>, buf: Buffer, k: nat)
    requires Sized(r) && Taken(p, r)
    ensures ScanBuffer(p, EncodeRecord(r) + rest, buf, k) ==
            var b := BufferAfter(p, r, buf);
            if r.Skipped? then ScanBuffer(p, rest, b, k) else if k == 0 then b else ScanBuffer(p, rest, b, k - 1)
  {
    hide ReadRecord, EncodeRecord;
    ReadEncoded(p, r, rest, buf);
    assert (EncodeRecord(r) + rest)[|EncodeRecord(r)|..] == rest;
  }

  lemma BufferTail(p: Platform, eofType: nat, eofLen: nat, trailing: seq<byte>, buf: Buffer, k: nat)
    requires IsEof(eofType) && eofLen < 0x1_0000
    ensures ScanBuffer(p, EncodeTail(eofType, eofLen, trailing), buf, k) == buf
  {
    HeaderAt(eofType, eofLen, trailing);
  }

  lemma {:induction false} BufferEncoded(
      p: Platform, rs: seq<Record>, eofType: nat, eofLen: nat, trailing: seq<byte>, buf: Buffer, k: nat)
    requires AllTaken(p, rs) && IsEof(eofType) && eofLen < 0x1_0000
    ensures ScanBuffer(p, EncodeRecords(rs) + EncodeTail(eofType, eofLen, trailing), buf, k)
         == RecordsBuffer(p, rs, buf, k)
    decreases |rs|
  {
    hide ScanBuffer, EncodeRecords, EncodeRecord, EncodeTail;
    var tail := EncodeTail(eofType, eofLen, trailing);
    EncodeUnfold(p, rs, tail);
    if rs == [] {
      BufferTail(p, eofType, eofLen, trailing, buf, k);
    } else {
      BufferHead(p, rs[0], EncodeRecords(rs[1..]) + tail, buf, k);
      var b := BufferAfter(p, rs[0], buf);
      BufferEncoded(p, rs[1..], eofType, eofLen, trailing, b, if rs[0].Skipped? || k == 0 then k else k - 1);
    }
  }

  /** The buffer that a run of the loader over an encoding leaves. */
  lemma LoadBufferEncoded(p: Platform, img: Image, buf: Buffer, k: nat)
    requires WellFormed(p, img)
    ensures LoadBuffer(p, Encode(p, img), buf, k) == RecordsBuffer(p, img.records, buf, k)
  {
    MagicAt(EncodeRecords(img.records) + EncodeTail(img.eofType, img.eofLen, img.trailing));
    BufferEncoded(p, img.records, img.eofType, img.eofLen, img.trailing, buf, k);
  }

  lemma MagicAt(rest: seq<byte>)
    ensures var f := Header(FIELD_TYPE_MAGIC, 4) + Bytes32(MBIN_SW_MAGIC_NUMBER) + rest;
            CheckMagic(f) == Ok && f[8..] == rest
  {
    var f := Header(FIELD_TYPE_MAGIC, 4) + Bytes32(MBIN_SW_MAGIC_NUMBER) + rest;
    assert f == Header(FIELD_TYPE_MAGIC, 4) + (Bytes32(MBIN_SW_MAGIC_NUMBER) + rest);
    HeaderAt(FIELD_TYPE_MAGIC, 4, Bytes32(MBIN_SW_MAGIC_NUMBER) + rest);
    Bytes32At(MBIN_SW_MAGIC_NUMBER, Header(FIELD_TYPE_MAGIC, 4), rest);
  }

  /** Every well-formed image is accepted, and the segments met are those of its records. */
  lemma {:induction false} EncodingIsAccepted(p: Platform, img: Image, buf: Buffer)
    requires WellFormed(p, img)
    ensures Load(p, Encode(p, img), buf) == Scan(Ok, SegmentsOf(p, img.records, buf))
  {
    MagicAt(EncodeRecords(img.records) + EncodeTail(img.eofType, img.eofLen, img.trailing));
    ScanEncoded(p, img.records, img.eofType, img.eofLen, img.trailing, buf);
  }

  // ---------------------------------------------------------------------------------------
  // Every accepted file is an encoding, and of one image only
  // ---------------------------------------------------------------------------------------

  lemma HeaderOf(s: seq<byte>)
    requires 4 <= |s|
    ensures Header(Le16(s, 0), Le16(s, 2)) == s[..4]
  {
    Bytes16Of(s, 0);
    Bytes16Of(s, 2);
    assert s[..4] == s[0..2] + s[2..4];
  }

  /** The record at the head of `s`, for an `s` whose head is read as one. */
  function RecordAt(p: Platform, s: seq<byte>): Record
    requires ReadRecord(p, s, Blank()).Next?
  {
    var fieldType, len := Le16(s, 0), Le16(s, 2);
    if fieldType == FIELD_TYPE_SW_SEGMENT then Plain(Le32(s, 4), s[8..4 + len])
    else if fieldType == FIELD_TYPE_SW_SEGMENT_DEFLATED then Packed(Le32(s, 4), Le32(s, 8), s[12..4 + len])
    else Skipped(fieldType, s[4..4 + len])
  }

  function Blank(): Buffer { seq(MAX_SEGMENT_SIZE, _ => 0) }

  /** The same addresses and sizes, whatever the content. */
  predicate SameRanges(segs: seq<Segment>, segs': seq<Segment>) {
    && |segs| == |segs'|
    && forall i :: 0 <= i < |segs| ==> segs[i].addr == segs'[i].addr && |segs[i].data| == |segs'[i].data|
  }

  /** What the buffer held before has no part in the verdict, nor in how much is consumed, nor
      in where a segment goes. */
  lemma {:induction false} BufferHasNoSay(p: Platform, s: seq<byte>, buf: Buffer, buf': Buffer)
    ensures Alike(ReadRecord(p, s, buf), ReadRecord(p, s, buf'))
  {
    hide Alike, ReadPlain, ReadPacked, ReadSkipped;
    if |s| < 4 || IsEof(Le16(s, 0)) || !IsRecordType(Le16(s, 0)) {
      AlikeItself(ReadRecord(p, s, buf));
    } else if Le16(s, 0) == FIELD_TYPE_SW_SEGMENT {
      PlainHasNoSay(p, s, Le16(s, 2), buf, buf');
    } else if Le16(s, 0) == FIELD_TYPE_SW_SEGMENT_DEFLATED {
      PackedHasNoSay(p, s, Le16(s, 2), buf, buf');
    } else {
      SkippedHasNoSay(s, Le16(s, 2), buf, buf');
    }
  }

  predicate IsRecordType(fieldType: nat) {
    fieldType == FIELD_TYPE_SW_SEGMENT || fieldType == FIELD_TYPE_SW_SEGMENT_DEFLATED || IsSkipped(fieldType)
  }

  /** The same but for the content of buffer and segment. */
  predicate Alike(r: Outcome, r': Outcome) {
    && (!r.Next? ==> r == r')
    && (r.Next? ==> r'.Next? && r.used == r'.used && r.segment.Some? == r'.segment.Some?)
    && (r.Next? && r.segment.Some? ==> SameRanges([r.segment.value], [r'.segment.value]))
  }

  lemma AlikeItself(r: Outcome)
    ensures Alike(r, r)
  {
  }

  lemma {:induction false} PlainHasNoSay(p: Platform, s: seq<byte>, len: nat, buf: Buffer, buf': Buffer)
    requires 4 <= |s|
    ensures Alike(ReadPlain(p, s, len, buf), ReadPlain(p, s, len, buf'))
  {
  }

  lemma {:induction false} PackedHasNoSay(p: Platform, s: seq<byte>, len: nat, buf: Buffer, buf': Buffer)
    requires 4 <= |s|
    ensures Alike(ReadPacked(p, s, len, buf), ReadPacked(p, s, len, buf'))
  {
  }

  lemma {:induction false} SkippedHasNoSay(s: seq<byte>, len: nat, buf: Buffer, buf': Buffer)
    requires 4 <= |s|
    ensures Alike(ReadSkipped(s, len, buf), ReadSkipped(s, len, buf'))
  {
  }

  lemma {:induction false} NextIsEncoding(p: Platform, s: seq<byte>, buf: Buffer)
    requires ReadRecord(p, s, Blank()).Next?
    ensures var r := RecordAt(p, s);
            && Sized(r) && Taken(p, r)
            && ReadRecord(p, s, buf) == Next(|EncodeRecord(r)|, BufferAfter(p, r, buf), SegmentOf(p, r, buf))
            && |EncodeRecord(r)| <= |s| && EncodeRecord(r) == s[..|EncodeRecord(r)|]
  {
    BufferHasNoSay(p, s, Blank(), buf);
    var fieldType := Le16(s, 0);
    if fieldType == FIELD_TYPE_SW_SEGMENT {
      PlainIsEncoding(p, s, buf);
    } else if fieldType == FIELD_TYPE_SW_SEGMENT_DEFLATED {
      PackedIsEncoding(p, s, buf);
    } else {
      SkippedIsEncoding(s, buf);
    }
  }

  lemma {:induction false} PlainIsEncoding(p: Platform, s: seq<byte>, buf: Buffer)
    requires 4 <= |s| && Le16(s, 0) == FIELD_TYPE_SW_SEGMENT && ReadPlain(p, s, Le16(s, 2), buf).Next?
    ensures var len := Le16(s, 2);
            && 4 <= len && 4 + len <= |s|
            && var r := Plain(Le32(s, 4), s[8..4 + len]);
            && Sized(r) && Taken(p, r) && EncodeRecord(r) == s[..4 + len]
            && ReadPlain(p, s, len, buf) == Next(4 + len, BufferAfter(p, r, buf), SegmentOf(p, r, buf))
  {
    var len := Le16(s, 2);
    assert (len - 4) % U32 == len - 4;
    HeaderOf(s);
    Bytes32Of(s, 4);
    assert s[..4 + len] == s[..4] + s[4..8] + s[8..4 + len];
  }

  lemma {:induction false} PackedIsEncoding(p: Platform, s: seq<byte>, buf: Buffer)
    requires 4 <= |s| && Le16(s, 0) == FIELD_TYPE_SW_SEGMENT_DEFLATED && ReadPacked(p, s, Le16(s, 2), buf).Next?
    ensures var len := Le16(s, 2);
            && 8 <= len && 4 + len <= |s|
            && var r := Packed(Le32(s, 4), Le32(s, 8), s[12..4 + len]);
            && Sized(r) && Taken(p, r) && EncodeRecord(r) == s[..4 + len]
            && ReadPacked(p, s, len, buf) == Next(4 + len, BufferAfter(p, r, buf), SegmentOf(p, r, buf))
  {
    hide EncodeRecord;
    var len := Le16(s, 2);
    assert (len - 8) % U32 == len - 8;
    PackedText(s);
  }

  lemma PackedText(s: seq<byte>)
    requires |s| >= 12 && Le16(s, 0) == FIELD_TYPE_SW_SEGMENT_DEFLATED
    requires var len := Le16(s, 2); 8 <= len <= 8 + MAX_SEGMENT_SIZE && 4 + len <= |s| && Le32(s, 8) <= MAX_SEGMENT_SIZE
    ensures var len := Le16(s, 2);
            var r := Packed(Le32(s, 4), Le32(s, 8), s[12..4 + len]);
            Sized(r) && EncodeRecord(r) == s[..4 + len]
  {
    hide Le16, Le32, Bytes32, Bytes16;
    var len := Le16(s, 2);
    HeaderOf(s);
    Bytes32Of(s, 4);
    Bytes32Of(s, 8);
    assert s[..4 + len] == s[..4] + s[4..8] + s[8..12] + s[12..4 + len];
  }

  lemma SkippedIsEncoding(s: seq<byte>, buf: Buffer)
    requires 4 <= |s| && IsSkipped(Le16(s, 0)) && ReadSkipped(s, Le16(s, 2), buf).Next?
    ensures var len := Le16(s, 2);
            && 4 + len <= |s|
            && var r := Skipped(Le16(s, 0), s[4..4 + len]);
            && Sized(r) && EncodeRecord(r) == s[..4 + len]
            && ReadSkipped(s, len, buf) == Next(4 + len, Overlay(buf, s[4..4 + len]), None)
  {
    HeaderOf(s);
    assert s[..4 + Le16(s, 2)] == s[..4] + s[4..4 + Le16(s, 2)];
  }

  datatype Decoded = Decoded(records: seq<Record>, tail: seq<byte>)

  /** The records, and what is left from the end-of-file header on. */
  function DecodeRecords(p: Platform, s: seq<byte>): Decoded
    decreases |s|
  {
    match ReadRecord(p, s, Blank())
    case AtEof => Decoded([], s)
    case Stop(_) => Decoded([], s)
    case Next(used, _, _) =>
      var d := DecodeRecords(p, s[used..]);
      Decoded([RecordAt(p, s)] + d.records, d.tail)
  }

  lemma {:induction false} ScanHasNoBuffer(p: Platform, s: seq<byte>, buf: Buffer, buf': Buffer)
    ensures var x, x' := ScanAll(p, s, buf), ScanAll(p, s, buf');
            x.code == x'.code && SameRanges(x.segments, x'.segments)
    decreases |s|
  {
    BufferHasNoSay(p, s, buf, buf');
    match ReadRecord(p, s, buf)
    case Next(used, b, segment) =>
      var r' := ReadRecord(p, s, buf');
      ScanHasNoBuffer(p, s[used..], b, r'.buf);
      PrependKeepsRanges(ScanAll(p, s[used..], b), ScanAll(p, s[used..], r'.buf), segment, r'.segment);
    case _ =>
  }

  lemma PrependKeepsRanges(x: Scan, x': Scan, s: Option<Segment>, s': Option<Segment>)
    requires SameRanges(x.segments, x'.segments) && s.Some? == s'.Some?
    requires s.Some? ==> SameRanges([s.value], [s'.value])
    ensures SameRanges(x.Prepend(s).segments, x'.Prepend(s').segments)
  {
    if s.Some? {
      assert [s.value][0] == s.value && [s'.value][0] == s'.value;
    }
  }

  lemma LoadHasNoBuffer(p: Platform, f: seq<byte>, buf: Buffer, buf': Buffer)
    ensures var x, x' := Load(p, f, buf), Load(p, f, buf');
            x.code == x'.code && SameRanges(x.segments, x'.segments)
  {
    if CheckMagic(f) == Ok {
      ScanHasNoBuffer(p, f[8..], buf, buf');
    }
  }

  function Decode(p: Platform, f: seq<byte>): Image
    requires CheckMagic(f) == Ok
  {
    var d := DecodeRecords(p, f[8..]);
    if |d.tail| < 4 then Image(d.records, 0, 0, [])
    else Image(d.records, Le16(d.tail, 0), Le16(d.tail, 2), d.tail[4..])
  }

  lemma {:induction false} ScannedIsEncoding(p: Platform, s: seq<byte>, buf: Buffer)
    requires ScanAll(p, s, Blank()).code == Ok
    ensures IsDecoded(p, s, DecodeRecords(p, s))
    ensures ScanAll(p, s, buf) == Scan(Ok, SegmentsOf(p, DecodeRecords(p, s).records, buf))
    decreases |s|
  {
    BufferHasNoSay(p, s, Blank(), buf);
    match ReadRecord(p, s, Blank())
    case AtEof =>
    case Next(used, b, _) =>
      var r := RecordAt(p, s);
      NextIsEncoding(p, s, Blank());
      NextIsEncoding(p, s, buf);
      ScanHasNoBuffer(p, s[used..], b, Blank());
      ScannedIsEncoding(p, s[used..], BufferAfter(p, r, buf));
      DecodedStep(p, s, r, DecodeRecords(p, s[used..]));
  }

  /** `d` is a reading of `s`: well-formed records and an end-of-file header that spell `s`. */
  ghost predicate IsDecoded(p: Platform, s: seq<byte>, d: Decoded) {
    && AllTaken(p, d.records)
    && 4 <= |d.tail| && IsEof(Le16(d.tail, 0))
    && EncodeRecords(d.records) + d.tail == s
  }

  lemma DecodedStep(p: Platform, s: seq<byte>, r: Record, d: Decoded)
    requires Sized(r) && Taken(p, r)
    requires |EncodeRecord(r)| <= |s| && EncodeRecord(r) == s[..|EncodeRecord(r)|]
    requires IsDecoded(p, s[|EncodeRecord(r)|..], d)
    ensures IsDecoded(p, s, Decoded([r] + d.records, d.tail))
  {
    var all := [r] + d.records;
    assert all[1..] == d.records;
    assert EncodeRecords(all) + d.tail == EncodeRecord(r) + (EncodeRecords(d.records) + d.tail);
    assert s == s[..|EncodeRecord(r)|] + s[|EncodeRecord(r)|..];
  }

  /** A file is accepted exactly when it encodes a well-formed image; that image is `Decode`,
      and the segments met are the segments of that image. */
  lemma {:induction false} AcceptedIsEncoding(p: Platform, f: seq<byte>, buf: Buffer)
    requires Load(p, f, Blank()).code == Ok
    ensures var img := Decode(p, f);
            && WellFormed(p, img) && Encode(p, img) == f
            && Load(p, f, buf) == Scan(Ok, SegmentsOf(p, img.records, buf))
  {
    ScannedIsEncoding(p, f[8..], Blank());
    ScannedIsEncoding(p, f[8..], buf);
    LoadHasNoBuffer(p, f, Blank(), buf);
    AcceptedIsSpelled(p, f);
  }

  lemma {:induction false} AcceptedIsSpelled(p: Platform, f: seq<byte>)
    requires CheckMagic(f) == Ok && IsDecoded(p, f[8..], DecodeRecords(p, f[8..]))
    requires SegmentsOf(p, DecodeRecords(p, f[8..]).records, Blank()) != []
    ensures WellFormed(p, Decode(p, f)) && Encode(p, Decode(p, f)) == f
  {
    MagicIsSpelled(f);
    TailIsSpelled(DecodeRecords(p, f[8..]).tail);
  }

  lemma MagicIsSpelled(f: seq<byte>)
    requires CheckMagic(f) == Ok
    ensures Header(FIELD_TYPE_MAGIC, 4) + Bytes32(MBIN_SW_MAGIC_NUMBER) + f[8..] == f
  {
    HeaderOf(f);
    Bytes32Of(f, 4);
    assert f == f[..4] + f[4..8] + f[8..];
  }

  lemma TailIsSpelled(tail: seq<byte>)
    requires 4 <= |tail|
    ensures EncodeTail(Le16(tail, 0), Le16(tail, 2), tail[4..]) == tail
  {
    HeaderOf(tail);
  }

  lemma {:induction false} RecordRoundTrip(p: Platform, r: Record, rest: seq<byte>)
    requires Sized(r) && Taken(p, r)
    ensures ReadRecord(p, EncodeRecord(r) + rest, Blank()).Next?
    ensures RecordAt(p, EncodeRecord(r) + rest) == r
  {
    ReadEncoded(p, r, rest, Blank());
    match r
    case Plain(addr, body) => PlainLayout(addr, body, rest);
    case Packed(addr, size, packed) => PackedLayout(addr, size, packed, rest);
    case Skipped(fieldType, body) => SkippedLayout(fieldType, body, rest);
  }

  lemma {:induction false} DecodeEncoded(p: Platform, r: Record, rest: seq<byte>)
    requires Sized(r) && Taken(p, r)
    ensures var d := DecodeRecords(p, rest);
            DecodeRecords(p, EncodeRecord(r) + rest) == Decoded([r] + d.records, d.tail)
  {
    var s := EncodeRecord(r) + rest;
    assert s[|EncodeRecord(r)|..] == rest;
    RecordRoundTrip(p, r, rest);
    ReadEncoded(p, r, rest, Blank());
  }

  lemma DecodeTail(p: Platform, eofType: nat, eofLen: nat, trailing: seq<byte>)
    requires IsEof(eofType) && eofLen < 0x1_0000
    ensures var tail := EncodeTail(eofType, eofLen, trailing);
            ReadRecord(p, tail, Blank()).AtEof? && DecodeRecords(p, tail) == Decoded([], tail)
  {
    HeaderAt(eofType, eofLen, trailing);
  }

  lemma {:induction false} RecordsRoundTrip(
      p: Platform, rs: seq<Record>, eofType: nat, eofLen: nat, trailing: seq<byte>)
    requires AllTaken(p, rs) && IsEof(eofType) && eofLen < 0x1_0000
    ensures var tail := EncodeTail(eofType, eofLen, trailing);
            DecodeRecords(p, EncodeRecords(rs) + tail) == Decoded(rs, tail)
    decreases |rs|
  {
    hide DecodeRecords, EncodeRecords, EncodeRecord, EncodeTail;
    var tail := EncodeTail(eofType, eofLen, trailing);
    EncodeUnfold(p, rs, tail);
    if rs == [] {
      DecodeTail(p, eofType, eofLen, trailing);
    } else {
      DecodeEncoded(p, rs[0], EncodeRecords(rs[1..]) + tail);
      RecordsRoundTrip(p, rs[1..], eofType, eofLen, trailing);
      assert [rs[0]] + rs[1..] == rs;
    }
  }

  /** Encoding loses nothing: `Decode` is its inverse, so no file reads as two images. */
  lemma ImageRoundTrip(p: Platform, img: Image)
    requires WellFormed(p, img)
    ensures Load(p, Encode(p, img), Blank()).code == Ok
    ensures Decode(p, Encode(p, img)) == img
  {
    EncodingIsAccepted(p, img, Blank());
    RecordsRoundTrip(p, img.records, img.eofType, img.eofLen, img.trailing);
    HeaderAt(img.eofType, img.eofLen, img.trailing);
    assert Encode(p, img)[8..] == EncodeRecords(img.records) + EncodeTail(img.eofType, img.eofLen, img.trailing);
  }

  lemma BufferNext(p: Platform, s: seq<byte>, buf: Buffer, k: nat)
    requires ReadRecord(p, s, buf).Next?
    ensures var r := ReadRecord(p, s, buf);
            ScanBuffer(p, s, buf, k) ==
            if r.segment.None? then ScanBuffer(p, s[r.used..], r.buf, k)
            else if k == 0 then r.buf
            else ScanBuffer(p, s[r.used..], r.buf, k - 1)
  {
  }

  lemma ScanEnd(p: Platform, s: seq<byte>, buf: Buffer, k: nat)
    requires ReadRecord(p, s, buf).AtEof?
    ensures ScanAll(p, s, buf) == Scan(Ok, []) && ScanBuffer(p, s, buf, k) == buf
  {
  }

  lemma ScanNext(p: Platform, s: seq<byte>, buf: Buffer)
    requires ReadRecord(p, s, buf).Next?
    ensures var r := ReadRecord(p, s, buf);
            ScanAll(p, s, buf) == ScanAll(p, s[r.used..], r.buf).Prepend(r.segment)
  {
  }
}
