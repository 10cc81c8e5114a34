/** The loader's verdict in bytes and in plain address arithmetic, without the functions it is
    defined by: which images it takes, and what each of its error codes says about a file. */
module MbinBytes {
  import opened Words
  import opened Mbin
  import opened MbinAcceptance

  // ---------------------------------------------------------------------------------------
  // The area test
  // ---------------------------------------------------------------------------------------

  /** The area test refuses exactly what begins below or ends above the area, where the end
      address fits 32 bits; where it does not, the end is taken modulo 2^32. */
  lemma AreaTestExactly(p: Platform, addr: nat, size: nat)
    requires addr < U32 && size <= U32
    ensures addr + size < 0x1_0000_0000 ==> (!p.Fits(addr, size) <==> addr < p.appStart || addr + size > p.appEnd)
    ensures addr + size >= 0x1_0000_0000 ==>
              (!p.Fits(addr, size) <==> addr < p.appStart || addr + size - 0x1_0000_0000 > p.appEnd)
  {
  }

  predicate RecordInArea(p: Platform, r: Record) {
    match r
    case Plain(addr, body) => p.appStart <= addr && addr + |body| <= p.appEnd
    case Packed(addr, size, _) => p.appStart <= addr && addr + size <= p.appEnd
    case Skipped(_, _) => true
  }

  /** The decompressor fills the segment, or reports a positive code, which the loader ignores. */
  predicate Decompresses(p: Platform, r: Record) {
    r.Packed? ==> p.puff(r.packed, r.size).err > 0 || |p.puff(r.packed, r.size).written| >= r.size
  }

  function EndOf(r: Record): nat {
    match r
    case Plain(addr, body) => addr + |body|
    case Packed(addr, size, _) => addr + size
    case Skipped(_, _) => 0
  }

  /** Exactly when a record without wrap-around is taken. */
  lemma TakenExactly(p: Platform, r: Record)
    requires Sized(r) && EndOf(r) < 0x1_0000_0000
    ensures Taken(p, r) <==> RecordInArea(p, r) && Decompresses(p, r)
  {
    if !r.Skipped? {
      AreaTestExactly(p, r.addr, EndOf(r) - r.addr);
    }
  }

  /** Records that lie in the area and decompress, one of them a segment, and an end of file. */
  predicate IsInArea(p: Platform, img: Image) {
    && (forall i :: 0 <= i < |img.records| ==>
          Sized(img.records[i]) && RecordInArea(p, img.records[i]) && Decompresses(p, img.records[i]))
    && (exists i :: 0 <= i < |img.records| && !img.records[i].Skipped?)
    && IsEof(img.eofType) && img.eofLen < 0x1_0000
  }

  /** Every such image loads. */
  lemma InAreaImageLoads(p: Platform, img: Image, buf: Buffer)
    requires p.Valid() && IsInArea(p, img)
    ensures WellFormed(p, img)
    ensures Load(p, Encode(p, img), buf) == Scan(Ok, SegmentsOf(p, img.records, buf))
  {
    hide SegmentsOf, Encode, Load;
    forall i | 0 <= i < |img.records| ensures Taken(p, img.records[i]) {
      TakenExactly(p, img.records[i]);
    }
    EncodingIsAccepted(p, img, buf);
  }

  lemma {:induction false} SegmentsInArea(p: Platform, rs: seq<Record>, buf: Buffer)
    requires forall i :: 0 <= i < |rs| ==> Sized(rs[i])
    ensures AllInArea(p, SegmentsOf(p, rs, buf)) <==> forall i :: 0 <= i < |rs| ==> RecordInArea(p, rs[i])
    decreases |rs|
  {
    hide BufferAfter;
    if rs != [] {
      var b := BufferAfter(p, rs[0], buf);
      SegmentsInArea(p, rs[1..], b);
      var all, rest := SegmentsOf(p, rs, buf), SegmentsOf(p, rs[1..], b);
      SegmentRange(p, rs[0], buf);
      if !rs[0].Skipped? {
        AllInAreaHead(p, SegmentOf(p, rs[0], buf).value, rest);
        assert all == [SegmentOf(p, rs[0], buf).value] + rest;
      }
      assert forall i :: 1 <= i < |rs| ==> rs[i] == rs[1..][i - 1];
    }
  }

  lemma SegmentRange(p: Platform, r: Record, buf: Buffer)
    requires Sized(r)
    ensures SegmentOf(p, r, buf).None? <==> r.Skipped?
    ensures !r.Skipped? ==> (InArea(p, SegmentOf(p, r, buf).value) <==> RecordInArea(p, r))
  {
  }

  lemma AllInAreaHead(p: Platform, s: Segment, rest: seq<Segment>)
    ensures AllInArea(p, [s] + rest) <==> InArea(p, s) && AllInArea(p, rest)
  {
    var all := [s] + rest;
    assert all[0] == s && forall i :: 1 <= i < |all| ==> all[i] == rest[i - 1];
    if AllInArea(p, all) {
      assert forall i :: 0 <= i < |rest| ==> rest[i] == all[i + 1];
    }
  }

  /** The loader accepts a file, none of its segments wrapping around, exactly when it is the
      encoding of an image that lies in the area. */
  lemma AcceptsExactlyInArea(p: Platform, f: seq<byte>, buf: Buffer)
    requires p.Valid()
    ensures Load(p, f, buf).code == Ok && NoWrap(Load(p, f, buf).segments) <==>
              exists img :: IsInArea(p, img) && WellFormed(p, img) && f == Encode(p, img)
  {
    hide Load, SegmentsOf, Encode, Decode, Taken;
    if Load(p, f, buf).code == Ok && NoWrap(Load(p, f, buf).segments) {
      LoadHasNoBuffer(p, f, buf, Blank());
      assert CheckMagic(f) == Ok by { LoadedHasMagic(p, f, buf); }
      AcceptedIsEncoding(p, f, buf);
      var img := Decode(p, f);
      InAreaExactlyWhenNoWrap(p, f, buf);
      SegmentsInArea(p, img.records, buf);
      forall i | 0 <= i < |img.records| ensures Decompresses(p, img.records[i]) {
        var r := img.records[i];
        assert RecordInArea(p, r) && Taken(p, r);
        TakenExactly(p, r);
      }
      assert IsInArea(p, img);
    }
    if img :| IsInArea(p, img) && WellFormed(p, img) && f == Encode(p, img) {
      InAreaImageLoads(p, img, buf);
      SegmentsInArea(p, img.records, buf);
      InAreaExactlyWhenNoWrap(p, f, buf);
    }
  }

  lemma LoadedHasMagic(p: Platform, f: seq<byte>, buf: Buffer)
    requires Load(p, f, buf).code == Ok
    ensures CheckMagic(f) == Ok
  {
    hide ScanAll;
  }

  // ---------------------------------------------------------------------------------------
  // Bytes
  // ---------------------------------------------------------------------------------------

  /** The verdict on the first eight bytes, byte by byte. */
  lemma MagicInBytes(f: seq<byte>)
    ensures |f| < 4 ==> CheckMagic(f) == FileCorrupt
    ensures |f| >= 4 && f[..2] != [0x00, 0x80] ==> CheckMagic(f) == InvalidFile
    ensures |f| >= 4 && f[..2] == [0x00, 0x80] && f[2..4] != [0x04, 0x00] ==> CheckMagic(f) == FileCorrupt
    ensures |f| >= 4 && f[..4] == [0x00, 0x80, 0x04, 0x00] ==>
              (CheckMagic(f) == Ok <==> |f| >= 8 && f[4..8] == [0x4d, 0x4d, 0x53, 0x57])
              && (CheckMagic(f) != Ok ==> CheckMagic(f) == InvalidFile)
  {
    hide Le16, Le32;
    if |f| >= 4 {
      Le16Bytes(f, 0);
      Le16Bytes(f, 2);
      assert f[..2] == [f[0], f[1]] && f[2..4] == [f[2], f[3]] && f[..4] == [f[0], f[1], f[2], f[3]];
      if |f| >= 8 {
        Le32Bytes(f, 4);
        assert f[4..8] == [f[4], f[5], f[6], f[7]];
      }
    }
  }

  function Magic(): seq<byte> {
    [0x00, 0x80, 0x04, 0x00, 0x4d, 0x4d, 0x53, 0x57]
  }

  function Eof(): seq<byte> {
    [0x00, 0x8f, 0x00, 0x00]
  }

  lemma MagicThen(rest: seq<byte>)
    ensures CheckMagic(Magic() + rest) == Ok && (Magic() + rest)[8..] == rest
  {
    var f := Magic() + rest;
    assert f[..2] == [0x00, 0x80] && f[2..4] == [0x04, 0x00] && f[..4] == [0x00, 0x80, 0x04, 0x00];
    assert f[4..8] == [0x4d, 0x4d, 0x53, 0x57];
    MagicInBytes(f);
  }

  lemma HeadBytes(s: seq<byte>, t: byte, u: byte, n: nat)
    requires |s| >= 4 && n < 0x1_0000 && s[..4] == [t, u, n % 0x100, n / 0x100]
    ensures Le16(s, 0) == t + 0x100 * (u as int) && Le16(s, 2) == n
  {
    hide Le16;
    assert s[0] == s[..4][0] && s[1] == s[..4][1] && s[2] == s[..4][2] && s[3] == s[..4][3];
    Le16Bytes(s, 0);
    Le16Bytes(s, 2);
  }

  lemma WordBytes(s: seq<byte>, i: nat, v: nat)
    requires i + 4 <= |s| && v < U32
    requires s[i..i + 4] == [v % 0x100, v / 0x100 % 0x100, v / 0x1_0000 % 0x100, v / 0x100_0000]
    ensures Le32(s, i) == v
  {
    hide Le32, Bytes32;
    Bytes32Are(v);
    Bytes32Of(s, i);
    assert Le32(Bytes32(v), 0) == v && Le32(Bytes32(Le32(s, i)), 0) == Le32(s, i);
  }

  lemma EofScans(p: Platform, buf: Buffer)
    ensures ScanAll(p, Eof(), buf) == Scan(Ok, [])
  {
    HeadBytes(Eof(), 0x00, 0x8f, 0);
  }

  /** The four bytes of a header with type bytes `t` and `u`, and of a word. */
  function HeadOf(t: byte, u: byte, n: nat): seq<byte>
    requires n < 0x1_0000
  {
    [t, u, n % 0x100, n / 0x100]
  }

  function WordOf(v: nat): seq<byte>
    requires v < U32
  {
    [v % 0x100, v / 0x100 % 0x100, v / 0x1_0000 % 0x100, v / 0x100_0000]
  }

  /** A file with one plain segment in the area, byte by byte: it is accepted up to 32768 bytes
      of data, and flashes just these. */
  lemma PlainFileInBytes(p: Platform, addr: nat, body: seq<byte>, buf: Buffer)
    requires p.appStart <= addr && addr + |body| <= p.appEnd < U32 && 4 + |body| < 0x1_0000
    ensures var f := [0x00, 0x80, 0x04, 0x00, 0x4d, 0x4d, 0x53, 0x57]
                     + ([0x01, 0x82, (4 + |body|) % 0x100, (4 + |body|) / 0x100]
                        + [addr % 0x100, addr / 0x100 % 0x100, addr / 0x1_0000 % 0x100, addr / 0x100_0000]
                        + body + [0x00, 0x8f, 0x00, 0x00]);
            Load(p, f, buf) == if |body| <= 32768 then Scan(Ok, [Segment(addr, body)]) else Scan(FileCorrupt, [])
  {
    hide Le16, Le32, ScanAll;
    var s := HeadOf(0x01, 0x82, 4 + |body|) + WordOf(addr) + body + Eof();
    MagicThen(s);
    assert s[..4] == HeadOf(0x01, 0x82, 4 + |body|) && s[4..8] == WordOf(addr);
    HeadBytes(s, 0x01, 0x82, 4 + |body|);
    WordBytes(s, 4, addr);
    assert s[8..8 + |body|] == body && s[8 + |body|..] == Eof();
    ScanPlain(p, s, buf);
    if |body| <= 32768 {
      AreaTestExactly(p, addr, |body|);
      EofScans(p, Overlay(buf, body));
    }
  }

  lemma ScanPlain(p: Platform, s: seq<byte>, buf: Buffer)
    requires |s| >= 8 && Le16(s, 0) == 0x8201 && Le16(s, 2) >= 4
    ensures var size := Le16(s, 2) - 4;
            && (size > 32768 ==> ScanAll(p, s, buf) == Scan(FileCorrupt, []))
            && (size <= 32768 && 8 + size <= |s| && p.Fits(Le32(s, 4), size) ==>
                  ScanAll(p, s, buf) ==
                  var b := Overlay(buf, s[8..8 + size]);
                  ScanAll(p, s[8 + size..], b).Prepend(Some(Segment(Le32(s, 4), b[..size]))))
  {
    var size := Le16(s, 2) - 4;
    assert (Le16(s, 2) - 4) % U32 == size;
  }

  /** A file with one deflated segment, byte by byte. */
  lemma PackedFileInBytes(p: Platform, addr: nat, size: nat, packed: seq<byte>, buf: Buffer)
    requires p.appStart <= addr && addr + size <= p.appEnd < U32
    requires size <= 32768 && |packed| <= 32768
    requires |p.puff(packed, size).written| == size
    ensures var f := [0x00, 0x80, 0x04, 0x00, 0x4d, 0x4d, 0x53, 0x57]
                     + ([0x02, 0x82, (8 + |packed|) % 0x100, (8 + |packed|) / 0x100]
                        + [addr % 0x100, addr / 0x100 % 0x100, addr / 0x1_0000 % 0x100, addr / 0x100_0000]
                        + [size % 0x100, size / 0x100 % 0x100, size / 0x1_0000 % 0x100, size / 0x100_0000]
                        + packed + [0x00, 0x8f, 0x00, 0x00]);
            Load(p, f, buf) == Scan(Ok, [Segment(addr, p.puff(packed, size).written)])
  {
    hide Le16, Le32, ScanAll;
    var s := HeadOf(0x02, 0x82, 8 + |packed|) + WordOf(addr) + WordOf(size) + packed + Eof();
    MagicThen(s);
    assert s[..4] == HeadOf(0x02, 0x82, 8 + |packed|) && s[4..8] == WordOf(addr) && s[8..12] == WordOf(size);
    HeadBytes(s, 0x02, 0x82, 8 + |packed|);
    WordBytes(s, 4, addr);
    WordBytes(s, 8, size);
    assert s[12..12 + |packed|] == packed && s[12 + |packed|..] == Eof();
    AreaTestExactly(p, addr, size);
    ScanPacked(p, s, buf);
    EofScans(p, Overlay(buf, p.puff(packed, size).written));
  }

  lemma ScanPacked(p: Platform, s: seq<byte>, buf: Buffer)
    requires |s| >= 12 && Le16(s, 0) == 0x8202 && 8 <= Le16(s, 2) <= 8 + 32768 && 4 + Le16(s, 2) <= |s|
    requires var size := Le32(s, 8);
             && size <= 32768 && p.Fits(Le32(s, 4), size)
             && |p.puff(s[12..4 + Le16(s, 2)], size).written| == size
    ensures var size, n := Le32(s, 8), 4 + Le16(s, 2);
            var written := p.puff(s[12..n], size).written;
            ScanAll(p, s, buf) ==
            ScanAll(p, s[n..], Overlay(buf, written)).Prepend(Some(Segment(Le32(s, 4), written)))
  {
    assert (Le16(s, 2) - 8) % U32 == Le16(s, 2) - 8;
  }

  /** A field of one of the five types that are skipped leaves no trace but in the buffer. */
  lemma SkippedInBytes(p: Platform, t: byte, u: byte, body: seq<byte>, rest: seq<byte>, buf: Buffer)
    requires (t, u) in {(0x01, 0x80), (0x02, 0x80), (0x01, 0x00), (0x00, 0x81), (0x01, 0x81)}
    requires |body| <= 32768
    ensures var s := [t, u, |body| % 0x100, |body| / 0x100] + body + rest;
            ScanAll(p, s, buf) == ScanAll(p, rest, Overlay(buf, body))
  {
    hide Le16;
    var s := HeadOf(t, u, |body|) + body + rest;
    assert s[..4] == HeadOf(t, u, |body|);
    HeadBytes(s, t, u, |body|);
    assert s[4..4 + |body|] == body && s[4 + |body|..] == rest;
    assert ScanAll(p, rest, Overlay(buf, body)).Prepend(None) == ScanAll(p, rest, Overlay(buf, body));
  }

  /** Both kinds of end of file end the scan, whatever follows; every other type is corrupt. */
  lemma OtherTypesInBytes(p: Platform, s: seq<byte>, buf: Buffer)
    requires |s| >= 4
    ensures s[..2] == [0x00, 0x8f] || s[..2] == [0x01, 0x8f] ==> ScanAll(p, s, buf) == Scan(Ok, [])
    ensures var known := {(0x01, 0x80), (0x02, 0x80), (0x01, 0x00), (0x00, 0x81), (0x01, 0x81),
                          (0x01, 0x82), (0x02, 0x82), (0x00, 0x8f), (0x01, 0x8f)};
            (s[0] as int, s[1] as int) !in known ==> ScanAll(p, s, buf) == Scan(FileCorrupt, [])
  {
    hide Le16;
    Le16Bytes(s, 0);
    assert s[..2] == [s[0], s[1]];
  }

  // ---------------------------------------------------------------------------------------
  // Error codes
  // ---------------------------------------------------------------------------------------

  /** The records in front are taken, and the next, complete and within the size limits, is not. */
  ghost predicate Refused(p: Platform, s: seq<byte>, rs: seq<Record>, r: Record, rest: seq<byte>) {
    && AllTaken(p, rs) && Sized(r) && !Taken(p, r)
    && s == EncodeRecords(rs) + (EncodeRecord(r) + rest)
  }

  function RefusalCode(p: Platform, r: Record): Code {
    if Decompresses(p, r) then InvalidFile else FileDecompression
  }

  lemma {:induction false} ReadRefused(p: Platform, r: Record, rest: seq<byte>, buf: Buffer)
    requires Sized(r) && !Taken(p, r)
    ensures ReadRecord(p, EncodeRecord(r) + rest, buf) == Stop(RefusalCode(p, r))
  {
    hide EncodeRecord, Le16, Le32;
    match r
    case Plain(addr, body) => PlainLayout(addr, body, rest);
    case Packed(addr, size, packed) => PackedLayout(addr, size, packed, rest);
    case Skipped(_, _) =>
  }

  lemma {:induction false} ScanRefused(
      p: Platform, s: seq<byte>, rs: seq<Record>, r: Record, rest: seq<byte>, buf: Buffer)
    requires Refused(p, s, rs, r, rest)
    ensures ScanAll(p, s, buf).code == RefusalCode(p, r)
    decreases |rs|
  {
    hide ScanAll, EncodeRecords, EncodeRecord, Taken;
    EncodeUnfold(p, rs, EncodeRecord(r) + rest);
    if rs == [] {
      ReadRefused(p, r, rest, buf);
      ScanStops(p, s, buf);
    } else {
      var tail := EncodeRecords(rs[1..]) + (EncodeRecord(r) + rest);
      ScanHead(p, rs[0], tail, buf);
      ScanRefused(p, tail, rs[1..], r, rest, BufferAfter(p, rs[0], buf));
    }
  }

  lemma ScanStops(p: Platform, s: seq<byte>, buf: Buffer)
    requires ReadRecord(p, s, buf).Stop?
    ensures ScanAll(p, s, buf) == Scan(ReadRecord(p, s, buf).code, [])
  {
  }

  /** A stop other than for corruption is at a complete record. */
  lemma {:induction false} StopIsRefusal(p: Platform, s: seq<byte>, buf: Buffer) returns (r: Record, rest: seq<byte>)
    requires ReadRecord(p, s, buf).Stop? && ReadRecord(p, s, buf).code != FileCorrupt
    ensures Refused(p, s, [], r, rest)
  {
    var len := Le16(s, 2);
    if Le16(s, 0) == FIELD_TYPE_SW_SEGMENT {
      r, rest := PlainRefusal(p, s, buf);
    } else {
      r, rest := PackedRefusal(p, s, buf);
    }
    assert EncodeRecords([]) + (EncodeRecord(r) + rest) == EncodeRecord(r) + rest;
  }

  lemma {:induction false} PlainRefusal(p: Platform, s: seq<byte>, buf: Buffer) returns (r: Record, rest: seq<byte>)
    requires |s| >= 4 && Le16(s, 0) == FIELD_TYPE_SW_SEGMENT
    requires var o := ReadPlain(p, s, Le16(s, 2), buf); o.Stop? && o.code != FileCorrupt
    ensures Sized(r) && !Taken(p, r) && s == EncodeRecord(r) + rest
  {
    var len := Le16(s, 2);
    assert 4 <= len && (len - 4) % U32 == len - 4;
    r, rest := Plain(Le32(s, 4), s[8..4 + len]), s[4 + len..];
    PlainText(s);
  }

  lemma PlainText(s: seq<byte>)
    requires |s| >= 8 && Le16(s, 0) == FIELD_TYPE_SW_SEGMENT
    requires var len := Le16(s, 2); 4 <= len <= 4 + MAX_SEGMENT_SIZE && 4 + len <= |s|
    ensures var len := Le16(s, 2);
            var r := Plain(Le32(s, 4), s[8..4 + len]);
            Sized(r) && EncodeRecord(r) + s[4 + len..] == s
  {
    hide Le16, Le32, Bytes32, Bytes16;
    var len := Le16(s, 2);
    HeaderOf(s);
    Bytes32Of(s, 4);
    assert s == s[..4] + s[4..8] + s[8..4 + len] + s[4 + len..];
  }

  lemma {:induction false} PackedRefusal(p: Platform, s: seq<byte>, buf: Buffer) returns (r: Record, rest: seq<byte>)
    requires |s| >= 4 && Le16(s, 0) == FIELD_TYPE_SW_SEGMENT_DEFLATED
    requires var o := ReadPacked(p, s, Le16(s, 2), buf); o.Stop? && o.code != FileCorrupt
    ensures Sized(r) && !Taken(p, r) && s == EncodeRecord(r) + rest
  {
    hide EncodeRecord;
    var len := Le16(s, 2);
    assert 8 <= len && (len - 8) % U32 == len - 8;
    r, rest := Packed(Le32(s, 4), Le32(s, 8), s[12..4 + len]), s[4 + len..];
    PackedText(s);
    assert s == s[..4 + len] + s[4 + len..];
  }

  lemma {:induction false} ScanIsRefusal(p: Platform, s: seq<byte>, buf: Buffer)
    returns (rs: seq<Record>, r: Record, rest: seq<byte>)
    requires ScanAll(p, s, buf).code !in {Ok, FileCorrupt}
    ensures Refused(p, s, rs, r, rest)
    decreases |s|
  {
    hide EncodeRecord, Taken;
    match ReadRecord(p, s, buf)
    case AtEof =>
    case Stop(_) =>
      rs := [];
      r, rest := StopIsRefusal(p, s, buf);
    case Next(used, b, _) =>
      var first := HeadOfNext(p, s, buf);
      var others;
      others, r, rest := ScanIsRefusal(p, s[used..], b);
      rs := [first] + others;
      EncodeUnfold(p, rs, EncodeRecord(r) + rest);
      assert rs[1..] == others && s == s[..used] + s[used..];
  }

  lemma {:induction false} HeadOfNext(p: Platform, s: seq<byte>, buf: Buffer) returns (r: Record)
    requires ReadRecord(p, s, buf).Next?
    ensures Sized(r) && Taken(p, r)
    ensures var used := ReadRecord(p, s, buf).used; |EncodeRecord(r)| == used && EncodeRecord(r) == s[..used]
  {
    hide ReadRecord;
    BufferHasNoSay(p, s, buf, Blank());
    r := RecordAt(p, s);
    NextIsEncoding(p, s, buf);
  }

  /** Some complete record, behind records that are taken, is refused with this code. */
  ghost predicate RefusedWith(p: Platform, s: seq<byte>, code: Code) {
    exists rs, r, rest :: Refused(p, s, rs, r, rest) && RefusalCode(p, r) == code
  }

  /**
   * What the error codes of a file behind a good magic record say: `FileDecompression`, that
   * some complete record is the first to be refused and does not decompress; `InvalidFile`, that
   * it does and lies outside the area, or that the file is in order but has no segment; and
   * `FileCorrupt` anything else.
   */
  lemma CodesExactly(p: Platform, s: seq<byte>, buf: Buffer)
    ensures var code := Load(p, Magic() + s, buf).code;
            && (code == FileDecompression <==> RefusedWith(p, s, FileDecompression))
            && (code == InvalidFile <==>
                  RefusedWith(p, s, InvalidFile) || ScanAll(p, s, buf) == Scan(Ok, []))
            && code in {Ok, FileCorrupt, FileDecompression, InvalidFile}
  {
    hide ScanAll, Refused, RefusalCode;
    MagicThen(s);
    var code := ScanAll(p, s, buf).code;
    forall rs, r, rest | Refused(p, s, rs, r, rest) ensures RefusalCode(p, r) == code {
      ScanRefused(p, s, rs, r, rest, buf);
    }
    if code !in {Ok, FileCorrupt} {
      var rs, r, rest := ScanIsRefusal(p, s, buf);
      ScanRefused(p, s, rs, r, rest, buf);
      assert RefusedWith(p, s, code);
      RefusalIs(p, r);
    }
    if RefusedWith(p, s, FileDecompression) {
      assert code == FileDecompression;
    }
    if RefusedWith(p, s, InvalidFile) {
      assert code == InvalidFile;
    }
  }

  lemma RefusalIs(p: Platform, r: Record)
    ensures RefusalCode(p, r) in {FileDecompression, InvalidFile}
  {
  }
}
