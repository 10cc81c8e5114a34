/** Crash safety of the update protocol: whatever fails and whenever the power goes, the
    application is never entered on a half-written area. */
module BootSafety {
  import opened Words
  import opened Mbin
  import opened MbinAcceptance
  import opened SegmentBuffer
  import opened Flash
  import opened BootProtocol

  /** The area holds what it held at the start of the run, or a complete new image. */
  ghost predicate Sound(w: World, s0: State, s: State)
    requires w.Fits(s0.mem) && w.Fits(s.mem)
  {
    || w.Area(s.mem) == w.Area(s0.mem)
    || (Armed(s0.keys) && w.NewImage(s0.keys.image.value, s.mem))
  }

  /** The update that was armed at the start of the run is still armed, and its file still
      passes the signature check and the dry run. */
  ghost predicate StillValid(w: World, s0: State, s: State) {
    && Armed(s0.keys)
    && s.keys.image == s0.keys.image
    && w.Check(s.keys, s0.keys.image.value) == Ok
  }

  ghost predicate PcInv(w: World, s0: State, s: State)
    requires w.Fits(s0.mem) && w.Fits(s.mem)
  {
    match s.pc
    case Start => true
    case LogError(_, halt) => halt || Sound(w, s0, s)
    case CountAttempt => StillValid(w, s0, s)
    case Erase(_, addr, _) =>
      && StillValid(w, s0, s)
      && w.p.appStart <= addr < w.p.appEnd
      && Tiles(w.blocks, addr, w.p.appEnd, |s.mem|)
      && Erased(s.mem, w.p.appStart, addr)
    case Program(_, segs, at) =>
      && StillValid(w, s0, s)
      && w.Loads(s0.keys.image.value, segs)
      && at <= |segs|
      && w.Area(s.mem) == w.ImageArea(segs[..at], s.mem)
    case Delete(_) => Armed(s0.keys) && w.NewImage(s0.keys.image.value, s.mem)
    case Reset => Sound(w, s0, s)
    case Jumped => Sound(w, s0, s)
    case Halted => true
  }

  /** What every step keeps: an area that is torn means that the update is still armed and
      will be taken again. */
  ghost predicate Inv(w: World, s0: State, s: State) {
    && w.Fits(s0.mem) && w.Fits(s.mem) && |s.mem| == |s0.mem|
    && (s.keys.image == s0.keys.image || s.keys.image == None)
    && (Sound(w, s0, s) || StillValid(w, s0, s))
    && PcInv(w, s0, s)
  }

  lemma DecideKeeps(w: World, s0: State, s: State, t: State)
    requires Inv(w, s0, s) && s.pc == Start && Decide(w, s, t)
    ensures Inv(w, s0, t)
  {
    assert w.Area(t.mem) == w.Area(s.mem);
    if Sound(w, s0, s) {
      SoundStays(w, s0, s, t);
    }
  }

  lemma SoundStays(w: World, s0: State, s: State, t: State)
    requires w.Fits(s0.mem) && w.Fits(s.mem) && t.mem == s.mem
    requires Sound(w, s0, s)
    ensures Sound(w, s0, t)
  {
  }

  lemma KeyStepKeeps(w: World, s0: State, s: State, t: State, lost: set<KeyOp>)
    requires Inv(w, s0, s) && (s.pc.LogError? || s.pc.CountAttempt? || s.pc.Delete? || s.pc.Reset?)
    requires BootStep(w, s, t, lost)
    ensures Inv(w, s0, t)
  {
    assert t.mem == s.mem;
    if Sound(w, s0, s) {
      SoundStays(w, s0, s, t);
    }
  }

  /** A freshly erased area is the new image with nothing stored yet. */
  lemma ErasedIsBlank(w: World, mem: seq<byte>, segs: seq<Segment>)
    requires w.Fits(mem)
    requires Erased(mem, w.p.appStart, w.p.appEnd)
    ensures w.Area(mem) == w.ImageArea(segs[..0], mem)
  {
    assert w.p.appEnd <= w.Top(mem);
    assert Fold(seq(|mem|, _ => ERASE_VALUE), segs[..0]) == seq(|mem|, _ => ERASE_VALUE);
  }

  lemma AfterEraseKeeps(w: World, s0: State, s: State, t: State, round: nat, addr: nat)
    requires w.Fits(s0.mem) && w.Fits(t.mem) && |t.mem| == |s0.mem|
    requires StillValid(w, s0, t) && t.keys == s.keys
    requires w.p.appStart <= addr && Tiles(w.blocks, addr, w.p.appEnd, |t.mem|)
    requires Erased(t.mem, w.p.appStart, addr)
    requires AfterErase(w, s, round, addr, t.pc)
    ensures Inv(w, s0, t)
  {
    if addr >= w.p.appEnd {
      assert w.p.appEnd <= w.Top(t.mem);
      ErasedIsBlank(w, t.mem, t.pc.segs);
    }
  }

  lemma EraseKeeps(w: World, s0: State, s: State, t: State)
    requires Inv(w, s0, s) && s.pc.Erase? && EraseStep(w, s, t, s.pc.round, s.pc.addr, s.pc.tries)
    ensures Inv(w, s0, t)
  {
    var addr := s.pc.addr;
    assert StillValid(w, s0, t);
    if AfterErase(w, s, s.pc.round, addr + w.blocks[addr], t.pc)
       && Erased(t.mem, addr, addr + w.blocks[addr]) {
      AfterEraseKeeps(w, s0, s, t, s.pc.round, addr + w.blocks[addr]);
    }
  }

  /** One more segment stored in the area is one more segment of the new image. */
  lemma StoreExtends(w: World, mem: seq<byte>, segs: seq<Segment>, at: nat)
    requires w.Fits(mem) && at < |segs|
    requires w.Area(mem) == w.ImageArea(segs[..at], mem)
    ensures w.Fits(Store(mem, segs[at]))
    ensures w.Area(Store(mem, segs[at])) == w.ImageArea(segs[..at + 1], mem)
  {
    var blank := seq(|mem|, _ => ERASE_VALUE);
    assert w.p.appEnd <= w.Top(mem);
    assert segs[..at + 1] == segs[..at] + [segs[at]];
    FoldAppend(blank, segs[..at], segs[at]);
    FoldAgrees(mem, Fold(blank, segs[..at]), [segs[at]], w.p.appStart, w.p.appEnd);
    assert Fold(mem, [segs[at]]) == Store(mem, segs[at]);
    assert Fold(Fold(blank, segs[..at]), [segs[at]]) == Store(Fold(blank, segs[..at]), segs[at]);
  }

  lemma FailedLoadKeeps(w: World, s0: State, s: State, t: State, round: nat, code: Code)
    requires w.Fits(s0.mem) && w.Fits(t.mem) && |t.mem| == |s0.mem|
    requires StillValid(w, s0, t) && t.keys == s.keys
    requires AfterFailedLoad(w, s, round, code, t.pc)
    ensures Inv(w, s0, t)
  {
    if round == 0 {
      AfterEraseKeeps(w, s0, s, t, 1, w.p.appStart);
    }
  }

  lemma {:induction false} ProgramKeeps(w: World, s0: State, s: State, t: State)
    requires Inv(w, s0, s) && s.pc.Program? && ProgramStep(w, s, t, s.pc.round, s.pc.segs, s.pc.at)
    ensures Inv(w, s0, t)
  {
    var segs, at := s.pc.segs, s.pc.at;
    assert StillValid(w, s0, t);
    if at == |segs| {
      assert segs[..at] == segs;
      assert w.NewImage(s0.keys.image.value, t.mem);
    } else if t.pc == Program(s.pc.round, segs, at + 1) && t.mem == Store(s.mem, segs[at]) {
      StoreExtends(w, s.mem, segs, at);
    } else {
      FailedLoadKeeps(w, s0, s, t, s.pc.round, ProgramFailed);
    }
  }

  lemma PowerCutKeeps(w: World, s0: State, s: State, t: State)
    requires Inv(w, s0, s) && PowerCut(w, s, t)
    ensures Inv(w, s0, t)
  {
    if t.mem == s.mem && Sound(w, s0, s) {
      SoundStays(w, s0, s, t);
    }
  }

  lemma {:induction false} StepKeeps(w: World, s0: State, s: State, t: State, lost: set<KeyOp>)
    requires Inv(w, s0, s) && Step(w, s, t, lost)
    ensures Inv(w, s0, t)
  {
    if PowerCut(w, s, t) {
      PowerCutKeeps(w, s0, s, t);
    } else {
      match s.pc
      case Start => DecideKeeps(w, s0, s, t);
      case Erase(_, _, _) => EraseKeeps(w, s0, s, t);
      case Program(_, _, _) => ProgramKeeps(w, s0, s, t);
      case _ => KeyStepKeeps(w, s0, s, t, lost);
    }
  }

  lemma {:induction false} RunKeeps(w: World, run: seq<State>, lost: set<KeyOp>, n: nat)
    requires IsRun(w, run, lost) && Initial(w, run[0]) && n < |run|
    ensures Inv(w, run[0], run[n])
    decreases n
  {
    if n > 0 {
      RunKeeps(w, run, lost, n - 1);
      StepKeeps(w, run[0], run[n - 1], run[n], lost);
    }
  }

  /** Over any run, with power cuts anywhere, any flash command failing and key writes lost:
      the application is entered only on an area that is as it was, or on a complete new image
      of the file that was armed. */
  lemma CrashSafety(w: World, run: seq<State>, lost: set<KeyOp>, n: nat)
    requires IsRun(w, run, lost) && Initial(w, run[0]) && n < |run| && run[n].pc == Jumped
    ensures w.Fits(run[n].mem)
    ensures w.Area(run[n].mem) == w.Area(run[0].mem) ||
            (Armed(run[0].keys) && w.NewImage(run[0].keys.image.value, run[n].mem))
  {
    RunKeeps(w, run, lost, n);
  }

  /** In between, a torn area means that UPDATE_IMAGE is still set and that the next boot
      passes the signature check and the dry run. */
  lemma TornMeansStillArmed(w: World, run: seq<State>, lost: set<KeyOp>, n: nat)
    requires IsRun(w, run, lost) && Initial(w, run[0]) && n < |run|
    ensures w.Fits(run[n].mem)
    ensures !Sound(w, run[0], run[n]) ==>
              && Armed(run[n].keys) && run[n].keys.image == run[0].keys.image
              && w.Verify(run[n].keys, run[n].keys.image.value) == Ok
              && w.DryRun(run[n].keys.image.value) == Ok
  {
    RunKeeps(w, run, lost, n);
  }

  // ---------------------------------------------------------------------------------------
  // What was checked
  // ---------------------------------------------------------------------------------------

  /** The two checks pass exactly when the signature is there with its 32 bytes, the file exists
      and hashes to them, and is the encoding of an image. */
  lemma CheckExactly(w: World, keys: Keys, path: string)
    ensures w.Check(keys, path) == Ok <==>
              && keys.signature.Some? && |keys.signature.value| >= 32
              && path in w.files && w.sha256(w.files[path]) == keys.signature.value[..32]
              && exists img :: WellFormed(w.p, img) && w.files[path] == Encode(w.p, img)
  {
    hide Load, Encode, WellFormed;
    if path in w.files {
      AcceptsExactlyTheGrammar(w.p, w.files[path], Blank());
    }
  }

  /** UPDATE_IMAGE names a file whose hash is the first 32 bytes of the stored signature. */
  ghost predicate Signed(w: World, keys: Keys) {
    && keys.image.Some? && keys.image.value in w.files
    && keys.signature.Some? && |keys.signature.value| >= 32
    && w.sha256(w.files[keys.image.value]) == keys.signature.value[..32]
  }

  ghost predicate InvSigned(w: World, s0: State, s: State) {
    && (s.keys.image == s0.keys.image || s.keys.image == None)
    && (s.keys.signature == s0.keys.signature || s.keys.signature == None)
    && (s.pc.CountAttempt? || s.pc.Erase? || s.pc.Program? || s.pc.Delete? || s.mem != s0.mem ==> Signed(w, s0.keys))
  }

  lemma SignedStep(w: World, s0: State, s: State, t: State, lost: set<KeyOp>)
    requires InvSigned(w, s0, s) && Step(w, s, t, lost)
    ensures InvSigned(w, s0, t)
  {
    hide Load;
  }

  lemma {:induction false} SignedRun(w: World, run: seq<State>, lost: set<KeyOp>, n: nat)
    requires IsRun(w, run, lost) && Initial(w, run[0]) && n < |run|
    ensures InvSigned(w, run[0], run[n])
    decreases n
  {
    hide Step, Signed;
    if n > 0 {
      SignedRun(w, run, lost, n - 1);
      SignedStep(w, run[0], run[n - 1], run[n], lost);
    }
  }

  /** Over any run, whatever is lost: the flash is erased, programmed or at all different from
      what it was only if the armed file hashes to the stored signature. */
  lemma FlashedOnlyIfSigned(w: World, run: seq<State>, lost: set<KeyOp>, n: nat)
    requires IsRun(w, run, lost) && Initial(w, run[0]) && n < |run|
    requires run[n].pc.Erase? || run[n].pc.Program? || run[n].mem != run[0].mem
    ensures var keys := run[0].keys;
            && keys.image.Some? && keys.image.value in w.files
            && keys.signature.Some? && |keys.signature.value| >= 32
            && w.sha256(w.files[keys.image.value]) == keys.signature.value[..32]
  {
    SignedRun(w, run, lost, n);
  }

  /** When no deflated record takes a byte that the file has not written to the segment buffer,
      there is one new image only: the file encodes one list of records, and the area holds their
      content over erased flash, later records on top. */
  lemma CoveredImageIsOne(w: World, path: string, mem: seq<byte>)
    requires w.Fits(mem) && w.NewImage(path, mem)
    requires var rs := Decode(w.p, w.files[path]).records; AllSized(rs) ==> Covered(w.p, rs, 0)
    ensures var img := Decode(w.p, w.files[path]);
            && WellFormed(w.p, img) && Encode(w.p, img) == w.files[path]
            && w.Area(mem) == w.ImageArea(SegmentsOf(w.p, img.records, Blank()), mem)
  {
    hide Covered, Decode, Load;
    var f := w.files[path];
    var segs :| w.Loads(path, segs) && w.Area(mem) == w.ImageArea(segs, mem);
    var buf: Buffer :| segs == Load(w.p, f, buf).segments;
    AcceptedIsEncoding(w.p, f, buf);
    CoveredSegments(w.p, Decode(w.p, f).records, buf, Blank(), 0);
  }

  /** All images of the file are the same. */
  ghost predicate OneImage(w: World, path: string, mem: seq<byte>)
    requires w.Fits(mem)
  {
    forall segs, segs' :: w.Loads(path, segs) && w.Loads(path, segs') ==>
      w.ImageArea(segs, mem) == w.ImageArea(segs', mem)
  }

  /** The records are what every run of the loader reads from the file. */
  ghost predicate Reads(w: World, path: string, rs: seq<Record>) {
    && path in w.files && AllSized(rs)
    && forall b: Buffer :: Load(w.p, w.files[path], b).segments == SegmentsOf(w.p, rs, b)
  }

  ghost predicate AreaSettled(w: World, rs: seq<Record>, limit: nat)
    requires AllSized(rs)
  {
    forall i :: w.p.appStart <= i < w.p.appEnd ==> SettledAt(w.p, rs, limit, 0, i, true)
  }

  /** Exactly when a file has one image, whatever the segment buffer held: when every byte of the
      area is settled by its records. */
  lemma ImageIsOneExactly(w: World, path: string, mem: seq<byte>)
    requires w.Fits(mem) && path in w.files && w.DryRun(path) == Ok
    ensures var rs := Decode(w.p, w.files[path]).records;
            AllSized(rs) && (OneImage(w, path, mem) <==> AreaSettled(w, rs, |mem|))
  {
    hide SegmentsOf, SettledAt, Tiles, AreaSettled, OneImage;
    var f := w.files[path];
    var rs := Decode(w.p, f).records;
    forall b: Buffer ensures AllSized(rs) && Load(w.p, f, b).segments == SegmentsOf(w.p, rs, b) {
      AcceptedIsEncoding(w.p, f, b);
    }
    AcceptedIsEncoding(w.p, f, Blank());
    assert Reads(w, path, rs);
    if OneImage(w, path, mem) {
      OneIsSettled(w, path, mem, rs);
    }
    if AreaSettled(w, rs, |mem|) {
      SettledIsOne(w, path, mem, rs);
    }
  }

  lemma ImageAt(w: World, segs: seq<Segment>, mem: seq<byte>, i: nat)
    requires w.Fits(mem) && w.p.appStart <= i < w.p.appEnd
    ensures |w.ImageArea(segs, mem)| == w.p.appEnd - w.p.appStart && i < |mem|
    ensures w.ImageArea(segs, mem)[i - w.p.appStart] == Fold(seq(|mem|, _ => ERASE_VALUE), segs)[i]
  {
    hide Fold, Tiles;
    assert w.p.appEnd <= w.Top(mem);
  }

  lemma OneIsSettled(w: World, path: string, mem: seq<byte>, rs: seq<Record>)
    requires w.Fits(mem) && Reads(w, path, rs) && OneImage(w, path, mem)
    ensures AreaSettled(w, rs, |mem|)
  {
    hide Load, Fold, SegmentsOf, SettledAt, Tiles;
    var blank := seq(|mem|, _ => ERASE_VALUE);
    forall i | w.p.appStart <= i < w.p.appEnd ensures SettledAt(w.p, rs, |mem|, 0, i, true) {
      ImageAt(w, [], mem, i);
      forall b: Buffer, b': Buffer
        ensures Fold(blank, SegmentsOf(w.p, rs, b))[i] == Fold(blank, SegmentsOf(w.p, rs, b'))[i]
      {
        SameImage(w, path, mem, rs, b, b', i);
      }
      ByteIsSettledExactly(w.p, rs, blank, i);
    }
  }

  lemma SameImage(w: World, path: string, mem: seq<byte>, rs: seq<Record>, b: Buffer, b': Buffer, i: nat)
    requires w.Fits(mem) && Reads(w, path, rs) && OneImage(w, path, mem) && w.p.appStart <= i < w.p.appEnd
    ensures i < |mem|
    ensures var blank := seq(|mem|, _ => ERASE_VALUE);
            Fold(blank, SegmentsOf(w.p, rs, b))[i] == Fold(blank, SegmentsOf(w.p, rs, b'))[i]
  {
    hide Load, Fold, SegmentsOf, Tiles;
    var segs, segs' := SegmentsOf(w.p, rs, b), SegmentsOf(w.p, rs, b');
    assert w.Loads(path, segs) && w.Loads(path, segs');
    ImageAt(w, segs, mem, i);
    ImageAt(w, segs', mem, i);
  }

  lemma SettledIsOne(w: World, path: string, mem: seq<byte>, rs: seq<Record>)
    requires w.Fits(mem) && Reads(w, path, rs) && AreaSettled(w, rs, |mem|)
    ensures OneImage(w, path, mem)
  {
    hide Load, Fold, SegmentsOf, SettledAt, Tiles, AreaSettled;
    forall segs, segs' | w.Loads(path, segs) && w.Loads(path, segs')
      ensures w.ImageArea(segs, mem) == w.ImageArea(segs', mem)
    {
      var b: Buffer :| segs == Load(w.p, w.files[path], b).segments;
      var b': Buffer :| segs' == Load(w.p, w.files[path], b').segments;
      var l, r := w.ImageArea(segs, mem), w.ImageArea(segs', mem);
      ImageAt(w, segs, mem, w.p.appStart);
      ImageAt(w, segs', mem, w.p.appStart);
      forall k | 0 <= k < |l| ensures l[k] == r[k] {
        SettledByte(w, mem, rs, b, b', w.p.appStart + k);
      }
    }
  }

  lemma SettledByte(w: World, mem: seq<byte>, rs: seq<Record>, b: Buffer, b': Buffer, i: nat)
    requires w.Fits(mem) && AllSized(rs) && AreaSettled(w, rs, |mem|) && w.p.appStart <= i < w.p.appEnd
    ensures var l := w.ImageArea(SegmentsOf(w.p, rs, b), mem);
            var r := w.ImageArea(SegmentsOf(w.p, rs, b'), mem);
            var k := i - w.p.appStart;
            k < |l| && k < |r| && l[k] == r[k]
  {
    hide Fold, SegmentsOf, SettledAt, Tiles;
    ImageAt(w, SegmentsOf(w.p, rs, b), mem, i);
    ImageAt(w, SegmentsOf(w.p, rs, b'), mem, i);
    assert SettledAt(w.p, rs, |mem|, 0, i, true);
    ByteIsSettledExactly(w.p, rs, seq(|mem|, _ => ERASE_VALUE), i);
  }

  /** The byte at address `i` of an image is the byte of the last segment over it. */
  lemma ImageByte(w: World, segs: seq<Segment>, mem: seq<byte>, i: nat)
    requires w.Fits(mem) && w.p.appStart <= i < w.p.appEnd
    requires forall k :: 0 <= k < |segs| ==> segs[k].addr + |segs[k].data| <= |mem|
    ensures |w.ImageArea(segs, mem)| == w.p.appEnd - w.p.appStart
    ensures w.ImageArea(segs, mem)[i - w.p.appStart] == LastWritten(segs, i, ERASE_VALUE)
  {
    hide Fold, LastWritten, Tiles;
    var blank := seq(|mem|, _ => ERASE_VALUE);
    assert w.p.appEnd <= w.Top(mem);
    FoldIsLastWritten(blank, segs, i);
    assert w.ImageArea(segs, mem) == Fold(blank, segs)[w.p.appStart..w.p.appEnd];
  }

  // ---------------------------------------------------------------------------------------
  // The rest of the flash
  // ---------------------------------------------------------------------------------------

  /** The end address of no segment of the file leaves 32 bits. */
  predicate NoWrapFile(w: World, path: string) {
    path in w.files ==> NoWrap(Load(w.p, w.files[path], Blank()).segments)
  }

  predicate SegmentsFit(segs: seq<Segment>, limit: nat) {
    forall i :: 0 <= i < |segs| ==> segs[i].addr + |segs[i].data| <= limit
  }

  /** The segments of the file lie in a flash of `limit` bytes. */
  predicate FileFits(w: World, path: string, limit: nat) {
    path in w.files && SegmentsFit(Load(w.p, w.files[path], Blank()).segments, limit)
  }

  lemma LoadedFit(w: World, path: string, segs: seq<Segment>, limit: nat)
    requires w.Loads(path, segs)
    ensures SegmentsFit(segs, limit) <==> FileFits(w, path, limit)
  {
    hide Load;
    var buf: Buffer :| segs == Load(w.p, w.files[path], buf).segments;
    LoadHasNoBuffer(w.p, w.files[path], Blank(), buf);
    var blank := Load(w.p, w.files[path], Blank()).segments;
    assert forall i :: 0 <= i < |segs| ==> segs[i].addr == blank[i].addr && |segs[i].data| == |blank[i].data|;
  }

  lemma {:induction false} LoadedInArea(w: World, path: string, segs: seq<Segment>)
    requires w.p.Valid() && NoWrapFile(w, path) && w.Loads(path, segs)
    ensures AllInArea(w.p, segs)
  {
    var buf: Buffer :| segs == Load(w.p, w.files[path], buf).segments;
    LoadHasNoBuffer(w.p, w.files[path], Blank(), buf);
    InAreaExactlyWhenNoWrap(w.p, w.files[path], buf);
  }

  /** Without wrap-around the segments lie in the area, and so in the flash. */
  lemma NoWrapFits(w: World, path: string, mem: seq<byte>)
    requires w.Fits(mem) && path in w.files && NoWrapFile(w, path)
    ensures FileFits(w, path, |mem|)
  {
    hide Load;
    assert w.Loads(path, Load(w.p, w.files[path], Blank()).segments);
    LoadedInArea(w, path, Load(w.p, w.files[path], Blank()).segments);
    assert w.p.appEnd <= w.Top(mem);
  }

  /** What every step keeps: nothing outside the blocks of the application area has changed,
      and the flash commands to come stay inside them. */
  ghost predicate InvOutside(w: World, s0: State, s: State) {
    && w.Fits(s0.mem) && |s.mem| == |s0.mem|
    && SameOutside(s0.mem, s.mem, w.p.appStart, w.Top(s0.mem))
    && (s.keys.image == s0.keys.image || s.keys.image == None)
    && match s.pc
       case Erase(_, addr, _) =>
         && w.p.appStart <= addr < w.p.appEnd && Tiles(w.blocks, addr, w.p.appEnd, |s.mem|)
         && Cover(w.blocks, addr, w.p.appEnd, |s.mem|) == w.Top(s0.mem)
       case Program(_, segs, _) => AllInArea(w.p, segs)
       case _ => true
  }

  lemma {:induction false} OutsideStepKeeps(w: World, s0: State, s: State, t: State, lost: set<KeyOp>)
    requires s0.keys.image.Some? ==> NoWrapFile(w, s0.keys.image.value)
    requires InvOutside(w, s0, s) && Step(w, s, t, lost)
    ensures InvOutside(w, s0, t)
  {
    assert w.p.appEnd <= w.Top(s0.mem);
    if s.pc.Erase? {
      CoverStep(w.blocks, s.pc.addr, w.p.appEnd, |s.mem|);
    }
    if PowerCut(w, s, t) {
      return;
    }
    if t.pc.Program? && !s.pc.Program? {
      LoadedInArea(w, s0.keys.image.value, t.pc.segs);
    }
  }

  /** Over any run, whatever fails: nothing outside the erase blocks of the application area
      ever changes, if no segment of the armed file wraps around 32 bits. */
  lemma {:induction false} OutsideUntouched(w: World, run: seq<State>, lost: set<KeyOp>, n: nat)
    requires IsRun(w, run, lost) && Initial(w, run[0]) && n < |run|
    requires run[0].keys.image.Some? ==> NoWrapFile(w, run[0].keys.image.value)
    ensures InvOutside(w, run[0], run[n])
    decreases n
  {
    if n > 0 {
      OutsideUntouched(w, run, lost, n - 1);
      OutsideStepKeeps(w, run[0], run[n - 1], run[n], lost);
    }
  }
}
