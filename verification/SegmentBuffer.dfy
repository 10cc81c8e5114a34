/** What the static segment buffer carries from one record, and from one run of the loader, to
    the next, and exactly when that reaches the flash. */
module SegmentBuffer {
  import opened Words
  import opened Mbin
  import opened Flash

  // ---------------------------------------------------------------------------------------
  // One record
  // ---------------------------------------------------------------------------------------

  /** The decompressor filled the whole segment. */
  predicate Inflates(p: Platform, r: Record) {
    r.Packed? ==> |p.Inflate(r.packed, r.size).written| == r.size
  }

  predicate AllInflate(p: Platform, rs: seq<Record>) {
    forall i :: 0 <= i < |rs| ==> Inflates(p, rs[i])
  }

  /** The flash content of a record by itself, with no regard to the records before it, is settled
      exactly when `puff` produced every byte of it. */
  lemma ContentIsSettledExactlyWhenInflated(p: Platform, r: Record)
    requires Sized(r) && Taken(p, r)
    ensures Inflates(p, r) <==> forall b: Buffer, b': Buffer :: SegmentOf(p, r, b) == SegmentOf(p, r, b')
  {
    if r.Packed? && !Inflates(p, r) {
      var zeros: Buffer := seq(MAX_SEGMENT_SIZE, _ => 0);
      var ones: Buffer := seq(MAX_SEGMENT_SIZE, _ => 1);
      var n := |p.Inflate(r.packed, r.size).written|;
      assert SegmentOf(p, r, zeros).value.data[n] == 0;
      assert SegmentOf(p, r, ones).value.data[n] == 1;
      assert SegmentOf(p, r, zeros) != SegmentOf(p, r, ones);
    } else {
      forall b: Buffer, b': Buffer
        ensures SegmentOf(p, r, b) == SegmentOf(p, r, b')
      {
        InflatedContent(p, r, b);
        InflatedContent(p, r, b');
      }
    }
  }

  /** The content a fully inflated record declares. */
  lemma InflatedContent(p: Platform, r: Record, buf: Buffer)
    requires Sized(r) && Inflates(p, r)
    ensures r.Packed? ==>
      SegmentOf(p, r, buf) == Some(Segment(r.addr, p.Inflate(r.packed, r.size).written))
  {
  }

  // ---------------------------------------------------------------------------------------
  // A whole file
  // ---------------------------------------------------------------------------------------

  /** What reading a record puts at the front of the buffer. */
  function Written(p: Platform, r: Record): (data: seq<byte>)
    requires Sized(r)
    ensures |data| <= MAX_SEGMENT_SIZE
  {
    match r
    case Plain(_, body) => body
    case Packed(_, size, packed) => p.Inflate(packed, size).written
    case Skipped(_, body) => body
  }

  /** The longest prefix of the buffer that this file has written, after one more record. */
  function Known(p: Platform, r: Record, known: nat): nat
    requires Sized(r)
  {
    if |Written(p, r)| > known then |Written(p, r)| else known
  }

  predicate AllSized(rs: seq<Record>) {
    forall i :: 0 <= i < |rs| ==> Sized(rs[i])
  }

  /** No deflated record takes a byte from the buffer that this file has not written. */
  predicate Covered(p: Platform, rs: seq<Record>, known: nat)
    requires AllSized(rs)
  {
    rs == [] ||
    var k := Known(p, rs[0], known);
    (rs[0].Packed? ==> rs[0].size <= k) && Covered(p, rs[1..], k)
  }

  /** The buffers agree on the known prefix. */
  predicate Agree(b: Buffer, b': Buffer, known: nat) {
    forall i :: 0 <= i < MAX_SEGMENT_SIZE && i < known ==> b[i] == b'[i]
  }

  /** The buffers agree on the known prefix and differ in every byte behind it. */
  predicate Twins(b: Buffer, b': Buffer, known: nat) {
    forall i :: 0 <= i < MAX_SEGMENT_SIZE ==> (b[i] == b'[i] <==> i < known)
  }

  lemma OverlayAt(b: Buffer, data: seq<byte>, i: nat)
    requires |data| <= MAX_SEGMENT_SIZE && i < MAX_SEGMENT_SIZE
    ensures Overlay(b, data)[i] == if i < |data| then data[i] else b[i]
  {
  }

  /** Reading a record keeps both relations, with the prefix grown to `Known`. */
  lemma KnownGrows(p: Platform, r: Record, b: Buffer, b': Buffer, known: nat)
    requires Sized(r)
    ensures BufferAfter(p, r, b) == Overlay(b, Written(p, r))
    ensures Agree(b, b', known) ==> Agree(BufferAfter(p, r, b), BufferAfter(p, r, b'), Known(p, r, known))
    ensures Twins(b, b', known) ==> Twins(BufferAfter(p, r, b), BufferAfter(p, r, b'), Known(p, r, known))
  {
    hide Overlay;
    var data := Written(p, r);
    forall i | 0 <= i < MAX_SEGMENT_SIZE
      ensures Overlay(b, data)[i] == (if i < |data| then data[i] else b[i])
      ensures Overlay(b', data)[i] == (if i < |data| then data[i] else b'[i])
    {
      OverlayAt(b, data, i);
      OverlayAt(b', data, i);
    }
  }

  /** The segment of a record when buffers agree up to `k` behind it. */
  lemma SegmentKnown(p: Platform, r: Record, b: Buffer, b': Buffer, k: nat)
    requires Sized(r) && (r.Packed? ==> r.size <= k)
    requires Agree(BufferAfter(p, r, b), BufferAfter(p, r, b'), k)
    ensures SegmentOf(p, r, b) == SegmentOf(p, r, b')
  {
    hide BufferAfter;
    if r.Packed? {
      assert BufferAfter(p, r, b)[..r.size] == BufferAfter(p, r, b')[..r.size];
    }
  }

  lemma {:induction false} CoveredSegments(p: Platform, rs: seq<Record>, b: Buffer, b': Buffer, known: nat)
    requires AllSized(rs) && Covered(p, rs, known) && Agree(b, b', known)
    ensures SegmentsOf(p, rs, b) == SegmentsOf(p, rs, b')
    decreases |rs|
  {
    hide BufferAfter, SegmentOf, Agree, Known;
    if rs != [] {
      var k := Known(p, rs[0], known);
      KnownGrows(p, rs[0], b, b', known);
      SegmentKnown(p, rs[0], b, b', k);
      CoveredSegments(p, rs[1..], BufferAfter(p, rs[0], b), BufferAfter(p, rs[0], b'), k);
    }
  }

  lemma {:induction false} UncoveredSegments(p: Platform, rs: seq<Record>, b: Buffer, b': Buffer, known: nat)
    requires AllSized(rs) && !Covered(p, rs, known) && Twins(b, b', known)
    ensures SegmentsOf(p, rs, b) != SegmentsOf(p, rs, b')
    decreases |rs|
  {
    hide BufferAfter, Twins, Known;
    var r, k := rs[0], Known(p, rs[0], known);
    var c, c' := BufferAfter(p, r, b), BufferAfter(p, r, b');
    KnownGrows(p, r, b, b', known);
    var s, s' := SegmentsOf(p, rs[1..], c), SegmentsOf(p, rs[1..], c');
    if r.Packed? && r.size > k {
      TwinsDiffer(c, c', k);
      assert SegmentOf(p, r, b).value.data[k] == c[k] && SegmentOf(p, r, b').value.data[k] == c'[k];
      assert SegmentsOf(p, rs, b)[0] != SegmentsOf(p, rs, b')[0];
    } else {
      UncoveredSegments(p, rs[1..], c, c', k);
      if !r.Skipped? {
        assert SegmentsOf(p, rs, b)[1..] == s && SegmentsOf(p, rs, b')[1..] == s';
      }
    }
  }

  lemma TwinsDiffer(b: Buffer, b': Buffer, known: nat)
    requires Twins(b, b', known) && known < MAX_SEGMENT_SIZE
    ensures b[known] != b'[known]
  {
  }

  function Filled(x: byte): Buffer {
    seq(MAX_SEGMENT_SIZE, _ => x)
  }

  /** What a file makes the loader flash is settled by the file alone exactly when no deflated
      record takes a byte that the file has not written to the buffer. */
  lemma ContentIsSettledExactlyWhenCovered(p: Platform, rs: seq<Record>)
    requires AllSized(rs)
    ensures (forall b: Buffer, b': Buffer :: SegmentsOf(p, rs, b) == SegmentsOf(p, rs, b')) <==> Covered(p, rs, 0)
  {
    hide SegmentsOf, Covered;
    if Covered(p, rs, 0) {
      forall b: Buffer, b': Buffer ensures SegmentsOf(p, rs, b) == SegmentsOf(p, rs, b') {
        CoveredSegments(p, rs, b, b', 0);
      }
    } else {
      UncoveredSegments(p, rs, Filled(0), Filled(1), 0);
    }
  }

  /** Full inflation is enough. */
  lemma {:induction false} InflatedIsCovered(p: Platform, rs: seq<Record>, known: nat)
    requires AllSized(rs) && AllInflate(p, rs)
    ensures Covered(p, rs, known)
    decreases |rs|
  {
    if rs != [] {
      assert Inflates(p, rs[0]);
      InflatedIsCovered(p, rs[1..], Known(p, rs[0], known));
    }
  }

  lemma InflatedSegments(p: Platform, rs: seq<Record>, buf: Buffer, buf': Buffer)
    requires AllSized(rs) && AllInflate(p, rs)
    ensures SegmentsOf(p, rs, buf) == SegmentsOf(p, rs, buf')
  {
    hide SegmentsOf, Covered;
    InflatedIsCovered(p, rs, 0);
    CoveredSegments(p, rs, buf, buf', 0);
  }

  // ---------------------------------------------------------------------------------------
  // The flash
  // ---------------------------------------------------------------------------------------

  function SizeOf(r: Record): nat {
    match r
    case Plain(_, body) => |body|
    case Packed(_, size, _) => size
    case Skipped(_, _) => 0
  }

  /** The segment of the record lies in a flash of `limit` bytes, and over address `i`. */
  predicate Covers(r: Record, limit: nat, i: nat) {
    !r.Skipped? && r.addr <= i < r.addr + SizeOf(r) && r.addr + SizeOf(r) <= limit
  }

  /** The byte at `i` is settled by the records: the last of them over it has taken it from the
      part of the buffer that they have written. `sofar` is for no record over it. */
  predicate SettledAt(p: Platform, rs: seq<Record>, limit: nat, known: nat, i: nat, sofar: bool)
    requires AllSized(rs)
  {
    if rs == [] then sofar else
    var k := Known(p, rs[0], known);
    SettledAt(p, rs[1..], limit, k, i, if Covers(rs[0], limit, i) then i - rs[0].addr < k else sofar)
  }

  /** The flash after the segment of one record. */
  function StoreOf(p: Platform, r: Record, b: Buffer, m: seq<byte>): (m': seq<byte>)
    requires Sized(r)
    ensures |m'| == |m|
  {
    match SegmentOf(p, r, b)
    case None => m
    case Some(s) => Store(m, s)
  }

  lemma FoldHead(p: Platform, rs: seq<Record>, b: Buffer, m: seq<byte>)
    requires AllSized(rs) && rs != []
    ensures Fold(m, SegmentsOf(p, rs, b))
         == Fold(StoreOf(p, rs[0], b, m), SegmentsOf(p, rs[1..], BufferAfter(p, rs[0], b)))
  {
    var s := SegmentsOf(p, rs[1..], BufferAfter(p, rs[0], b));
    match SegmentOf(p, rs[0], b)
    case None =>
    case Some(x) => assert ([x] + s)[1..] == s;
  }

  lemma StoreOfAt(p: Platform, r: Record, b: Buffer, m: seq<byte>, i: nat)
    requires Sized(r) && i < |m|
    ensures StoreOf(p, r, b, m)[i] ==
            if Covers(r, |m|, i) then BufferAfter(p, r, b)[i - r.addr] else m[i]
  {
  }

  lemma {:induction false} TwinsFold(
      p: Platform, rs: seq<Record>, m: seq<byte>, m': seq<byte>, b: Buffer, b': Buffer,
      known: nat, i: nat, sofar: bool)
    requires AllSized(rs) && Twins(b, b', known) && |m| == |m'| && i < |m| && (sofar <==> m[i] == m'[i])
    ensures SettledAt(p, rs, |m|, known, i, sofar) <==>
              Fold(m, SegmentsOf(p, rs, b))[i] == Fold(m', SegmentsOf(p, rs, b'))[i]
    decreases |rs|
  {
    hide SegmentsOf, Fold, BufferAfter, StoreOf, Known, Covers;
    if rs == [] {
      FoldNoRecords(p, b, m);
      FoldNoRecords(p, b', m');
    } else {
      var r, k := rs[0], Known(p, rs[0], known);
      KnownGrows(p, r, b, b', known);
      FoldHead(p, rs, b, m);
      FoldHead(p, rs, b', m');
      StoreOfAt(p, r, b, m, i);
      StoreOfAt(p, r, b', m', i);
      CoversInBuffer(r, |m|, i);
      TwinsFold(p, rs[1..], StoreOf(p, r, b, m), StoreOf(p, r, b', m'), BufferAfter(p, r, b), BufferAfter(p, r, b'),
                k, i, if Covers(r, |m|, i) then i - r.addr < k else sofar);
    }
  }

  lemma FoldNoRecords(p: Platform, b: Buffer, m: seq<byte>)
    ensures Fold(m, SegmentsOf(p, [], b)) == m
  {
  }

  lemma CoversInBuffer(r: Record, limit: nat, i: nat)
    requires Sized(r)
    ensures Covers(r, limit, i) ==> !r.Skipped? && 0 <= i - r.addr < MAX_SEGMENT_SIZE
  {
  }

  lemma {:induction false} AgreeFold(
      p: Platform, rs: seq<Record>, m: seq<byte>, m': seq<byte>, b: Buffer, b': Buffer,
      known: nat, i: nat, sofar: bool)
    requires AllSized(rs) && Agree(b, b', known) && |m| == |m'| && i < |m| && (sofar ==> m[i] == m'[i])
    requires SettledAt(p, rs, |m|, known, i, sofar)
    ensures Fold(m, SegmentsOf(p, rs, b))[i] == Fold(m', SegmentsOf(p, rs, b'))[i]
    decreases |rs|
  {
    hide SegmentsOf, Fold, BufferAfter, StoreOf, Known, Covers;
    if rs == [] {
      FoldNoRecords(p, b, m);
      FoldNoRecords(p, b', m');
    } else {
      var r, k := rs[0], Known(p, rs[0], known);
      KnownGrows(p, r, b, b', known);
      FoldHead(p, rs, b, m);
      FoldHead(p, rs, b', m');
      StoreOfAt(p, r, b, m, i);
      StoreOfAt(p, r, b', m', i);
      CoversInBuffer(r, |m|, i);
      AgreeFold(p, rs[1..], StoreOf(p, r, b, m), StoreOf(p, r, b', m'), BufferAfter(p, r, b), BufferAfter(p, r, b'),
                k, i, if Covers(r, |m|, i) then i - r.addr < k else sofar);
    }
  }

  /** A flash byte comes out the same for every earlier buffer exactly when it is settled. */
  lemma ByteIsSettledExactly(p: Platform, rs: seq<Record>, m: seq<byte>, i: nat)
    requires AllSized(rs) && i < |m|
    ensures (forall b: Buffer, b': Buffer ::
               Fold(m, SegmentsOf(p, rs, b))[i] == Fold(m, SegmentsOf(p, rs, b'))[i])
       <==> SettledAt(p, rs, |m|, 0, i, true)
  {
    hide SegmentsOf, Fold, SettledAt;
    if SettledAt(p, rs, |m|, 0, i, true) {
      forall b: Buffer, b': Buffer
        ensures Fold(m, SegmentsOf(p, rs, b))[i] == Fold(m, SegmentsOf(p, rs, b'))[i]
      {
        AgreeFold(p, rs, m, m, b, b', 0, i, true);
      }
    } else {
      TwinsFold(p, rs, m, m, Filled(0), Filled(1), 0, i, true);
    }
  }

  // ---------------------------------------------------------------------------------------
  // Buffers that an update meets
  // ---------------------------------------------------------------------------------------

  /**
   * An accepted file, and one update of it: the buffer is zero at boot, the dry run leaves `dry`,
   * and a first round whose second write fails leaves `failed`. The two rounds flash different
   * bytes for the same deflated record, for which `puff` reported that its input ran out.
   */
  lemma RoundsFlashDifferently() returns (p: Platform, img: Image)
    ensures p.Valid() && WellFormed(p, img) && !Covered(p, img.records, 0)
    ensures var f := Encode(p, img);
            var dry := LoadBuffer(p, f, Blank(), |Load(p, f, Blank()).segments|);
            var failed := LoadBuffer(p, f, dry, 1);
            && Load(p, f, dry) == Scan(Ok, [Segment(0x1000, [2]), Segment(0x1001, [1]), Segment(0x1002, [2])])
            && Load(p, f, failed) == Scan(Ok, [Segment(0x1000, [1]), Segment(0x1001, [1]), Segment(0x1002, [2])])
  {
    p := Platform(0x1000, 0x2000, (source: seq<byte>, capacity: nat) => PuffResult(2, []));
    img := Image([Packed(0x1000, 1, []), Plain(0x1001, [1]), Plain(0x1002, [2])], FIELD_TYPE_EOF, 0, []);
    StaleImage(p, img);
    var f := Encode(p, img);
    EncodingIsAccepted(p, img, Blank());
    StaleRun(p, img, Blank());
    var dry := LoadBuffer(p, f, Blank(), |Load(p, f, Blank()).segments|);
    EncodingIsAccepted(p, img, dry);
    StaleRun(p, img, dry);
    var failed := LoadBuffer(p, f, dry, 1);
    EncodingIsAccepted(p, img, failed);
    StaleRun(p, img, failed);
  }

  ghost predicate IsStale(p: Platform, img: Image) {
    && p == Platform(0x1000, 0x2000, p.puff)
    && (forall source: seq<byte>, capacity: nat :: p.puff(source, capacity) == PuffResult(2, []))
    && img == Image([Packed(0x1000, 1, []), Plain(0x1001, [1]), Plain(0x1002, [2])], FIELD_TYPE_EOF, 0, [])
  }

  lemma StaleImage(p: Platform, img: Image)
    requires IsStale(p, img)
    ensures p.Valid() && WellFormed(p, img) && !Covered(p, img.records, 0)
  {
    assert p.Inflate([], 1) == PuffResult(2, []);
    assert !img.records[0].Skipped?;
  }

  /** What one run over that file flashes, and the buffers it leaves. */
  lemma StaleRun(p: Platform, img: Image, buf: Buffer)
    requires IsStale(p, img) && WellFormed(p, img)
    ensures SegmentsOf(p, img.records, buf)
         == [Segment(0x1000, [buf[0]]), Segment(0x1001, [1]), Segment(0x1002, [2])]
    ensures LoadBuffer(p, Encode(p, img), buf, 3)[0] == 2
    ensures LoadBuffer(p, Encode(p, img), buf, 1)[0] == 1
  {
    hide Encode, LoadBuffer, RecordsBuffer;
    LoadBufferEncoded(p, img, buf, 3);
    LoadBufferEncoded(p, img, buf, 1);
    var r0, r1, r2 := img.records[0], img.records[1], img.records[2];
    assert p.Inflate([], 1) == PuffResult(2, []);
    var b0 := BufferAfter(p, r0, buf);
    assert b0 == buf;
    var b1 := BufferAfter(p, r1, b0);
    var b2 := BufferAfter(p, r2, b1);
    assert b1[0] == 1 && b2[0] == 2;
    var t1, t2 := img.records[1..], img.records[1..][1..];
    assert t1 == [r1, r2] && t2 == [r2] && t2[1..] == [];
    assert SegmentsOf(p, t2, b1) == [Segment(0x1002, [2])];
    assert SegmentsOf(p, t1, b0) == [Segment(0x1001, [1])] + SegmentsOf(p, t2, b1);
    assert b0[..1] == [buf[0]];
    RecordsBufferStep(p, img.records, buf, 3);
    RecordsBufferStep(p, t1, b0, 2);
    RecordsBufferStep(p, t2, b1, 1);
    RecordsBufferStep(p, [], b2, 0);
    RecordsBufferStep(p, img.records, buf, 1);
    RecordsBufferStep(p, t1, b0, 0);
  }

  lemma RecordsBufferStep(p: Platform, rs: seq<Record>, buf: Buffer, k: nat)
    requires AllSized(rs)
    ensures rs == [] ==> RecordsBuffer(p, rs, buf, k) == buf
    ensures rs != [] && !rs[0].Skipped? ==>
              RecordsBuffer(p, rs, buf, k) ==
              if k == 0 then BufferAfter(p, rs[0], buf)
              else RecordsBuffer(p, rs[1..], BufferAfter(p, rs[0], buf), k - 1)
  {
  }
}
