/** What the loader accepts, in terms of the container format, and what acceptance does and
    does not settle about the flash. */
module MbinAcceptance {
  import opened Words
  import opened Mbin

  /** The loader's grammar, both ways, for every byte string. */
  lemma {:induction false} AcceptsExactlyTheGrammar(p: Platform, f: seq<byte>, buf: Buffer)
    ensures Load(p, f, buf).code == Ok <==> exists img :: WellFormed(p, img) && f == Encode(p, img)
  {
    LoadHasNoBuffer(p, f, buf, Blank());
    if Load(p, f, buf).code == Ok {
      AcceptedIsEncoding(p, f, buf);
    }
    if img :| WellFormed(p, img) && f == Encode(p, img) {
      EncodingIsAccepted(p, img, buf);
    }
  }

  // ---------------------------------------------------------------------------------------
  // What acceptance does not check
  // ---------------------------------------------------------------------------------------

  /** The segment lies in the application area. */
  predicate InArea(p: Platform, s: Segment) {
    p.appStart <= s.addr && s.addr + |s.data| <= p.appEnd
  }

  predicate AllInArea(p: Platform, segs: seq<Segment>) {
    forall i :: 0 <= i < |segs| ==> InArea(p, segs[i])
  }

  /** The end address of no segment leaves 32 bits. */
  predicate NoWrap(segs: seq<Segment>) {
    forall i :: 0 <= i < |segs| ==> segs[i].addr + |segs[i].data| < U32
  }

  lemma NextFits(p: Platform, s: seq<byte>, buf: Buffer)
    ensures var r := ReadRecord(p, s, buf);
            r.Next? && r.segment.Some? ==>
              p.Fits(r.segment.value.addr, |r.segment.value.data|) && r.segment.value.addr < U32
  {
  }

  lemma {:induction false} ScanFits(p: Platform, s: seq<byte>, buf: Buffer)
    ensures forall i :: 0 <= i < |ScanAll(p, s, buf).segments| ==>
              var x := ScanAll(p, s, buf).segments[i]; p.Fits(x.addr, |x.data|) && x.addr < U32
    decreases |s|
  {
    NextFits(p, s, buf);
    match ReadRecord(p, s, buf)
    case Next(used, b, segment) =>
      ScanFits(p, s[used..], b);
      var rest := ScanAll(p, s[used..], b);
      assert ScanAll(p, s, buf).segments ==
             match segment case None => rest.segments case Some(x) => [x] + rest.segments;
    case _ =>
  }

  /** The loader's area test means what it says exactly for files without 32-bit wrap-around. */
  lemma InAreaExactlyWhenNoWrap(p: Platform, f: seq<byte>, buf: Buffer)
    requires p.Valid()
    ensures AllInArea(p, Load(p, f, buf).segments) <==> NoWrap(Load(p, f, buf).segments)
  {
    if CheckMagic(f) == Ok {
      ScanFits(p, f[8..], buf);
      FitsInArea(p, ScanAll(p, f[8..], buf).segments);
    }
  }

  lemma FitsInArea(p: Platform, segs: seq<Segment>)
    requires p.Valid()
    requires forall i :: 0 <= i < |segs| ==> p.Fits(segs[i].addr, |segs[i].data|) && segs[i].addr < U32
    ensures AllInArea(p, segs) <==> NoWrap(segs)
  {
  }

  /** A file that is accepted although its one segment ends above the application area. */
  lemma {:induction false} WrappedSegmentIsAccepted(p: Platform, buf: Buffer) returns (img: Image)
    requires p.Valid()
    ensures WellFormed(p, img)
    ensures Load(p, Encode(p, img), buf) == Scan(Ok, [Segment(U32 - 1, [0])])
    ensures !InArea(p, Segment(U32 - 1, [0]))
  {
    var r := Plain(U32 - 1, [0]);
    img := Image([r], FIELD_TYPE_EOF, 0, []);
    assert !img.records[0].Skipped?;
    EncodingIsAccepted(p, img, buf);
    assert SegmentsOf(p, [r], buf) == [Segment(U32 - 1, [0])];
  }
}
