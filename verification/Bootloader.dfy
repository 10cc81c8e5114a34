/** `main`, `check_update` and the methods they call, as they run between two power cuts, and
    the proof that each of their runs is a run of the update protocol. */
module Bootloader {
  import opened Words
  import opened Mbin
  import opened Flash
  import opened BootProtocol
  import BootSafety
  import L = Loader

  // ---------------------------------------------------------------------------------------
  // Runs without a power cut
  // ---------------------------------------------------------------------------------------

  ghost predicate IsBoot(w: World, run: seq<State>) {
    && run != []
    && forall i :: 0 < i < |run| ==> BootStep(w, run[i - 1], run[i], {})
  }

  /** Some run of bootloader steps leads from `s` to `t`. */
  ghost predicate Reaches(w: World, s: State, t: State) {
    exists run :: IsBoot(w, run) && run[0] == s && run[|run| - 1] == t
  }

  lemma ReachesRefl(w: World, s: State)
    ensures Reaches(w, s, s)
  {
    assert IsBoot(w, [s]);
  }

  lemma ReachesStep(w: World, s: State, t: State, u: State)
    requires BootStep(w, s, t, {}) && Reaches(w, t, u)
    ensures Reaches(w, s, u)
  {
    var run :| IsBoot(w, run) && run[0] == t && run[|run| - 1] == u;
    assert IsBoot(w, [s] + run);
    assert ([s] + run)[0] == s && ([s] + run)[|run|] == u;
  }

  lemma ReachesTrans(w: World, s: State, t: State, u: State)
    requires Reaches(w, s, t) && Reaches(w, t, u)
    ensures Reaches(w, s, u)
  {
    var r :| IsBoot(w, r) && r[0] == s && r[|r| - 1] == t;
    var r' :| IsBoot(w, r') && r'[0] == t && r'[|r'| - 1] == u;
    var run := r + r'[1..];
    forall i | 0 < i < |run|
      ensures BootStep(w, run[i - 1], run[i], {})
    {
      if i >= |r| {
        assert run[i] == r'[i - |r| + 1] && run[i - 1] == r'[i - |r|];
      }
    }
    assert IsBoot(w, run);
  }

  /** One step at the end. */
  lemma ReachesThen(w: World, s: State, t: State, u: State)
    requires Reaches(w, s, t) && BootStep(w, t, u, {})
    ensures Reaches(w, s, u)
  {
    ReachesRefl(w, u);
    ReachesStep(w, t, u, u);
    ReachesTrans(w, s, t, u);
  }

  /** Where the erasing of the area leaves the protocol. */
  function AfterErasing(s: State, r: Run, done: Pc): State {
    State(s.keys, r.mem, if r.ok then done else LogError(EraseFailed, true), s.erases + r.erases, s.boots)
  }

  /** Erasing one block with a second try is a run of the protocol. */
  lemma {:induction false} BlockPath(w: World, s: State, hw: Hardware, ops: nat, done: Pc)
    requires s.pc.Erase? && s.pc.tries == 0
    requires s.pc.addr in w.blocks && s.pc.addr + w.blocks[s.pc.addr] <= |s.mem|
    requires AfterErase(w, s, s.pc.round, s.pc.addr + w.blocks[s.pc.addr], done)
    ensures var b := EraseTwice(w.blocks, s.mem, s.pc.addr, hw, ops);
            Reaches(w, s, AfterErasing(s, b, done))
  {
    var addr, size := s.pc.addr, w.blocks[s.pc.addr];
    var b := EraseTwice(w.blocks, s.mem, addr, hw, ops);
    var t := State(s.keys, b.mem, if b.ok then done else LogError(EraseFailed, true), s.erases + b.erases, s.boots);
    var first := EraseEffect(s.mem, addr, size, hw(ops));
    ReachesRefl(w, t);
    if first.ok {
      ReachesStep(w, s, t, t);
    } else {
      var s1 := s.(mem := first.mem, pc := Erase(s.pc.round, addr, 1), erases := s.erases + multiset{addr});
      assert s.erases + b.erases == s1.erases + multiset{addr};
      ReachesStep(w, s1, t, t);
      ReachesStep(w, s, s1, t);
    }
  }

  /** The program point after a block that ends at `next`. */
  function NextErase(w: World, s: State, next: nat, done: Pc): Pc
    requires s.pc.Erase?
  {
    if next < w.p.appEnd then Erase(s.pc.round, next, 0) else done
  }

  lemma NextEraseFollows(w: World, s: State, next: nat, done: Pc)
    requires s.pc.Erase? && AfterErase(w, s, s.pc.round, w.p.appEnd, done)
    ensures AfterErase(w, s, s.pc.round, next, NextErase(w, s, next, done))
    ensures next >= w.p.appEnd ==> NextErase(w, s, next, done) == done
    ensures next < w.p.appEnd ==> NextErase(w, s, next, done) == Erase(s.pc.round, next, 0)
    ensures forall s1: State :: s1.keys == s.keys ==> AfterErase(w, s1, s.pc.round, w.p.appEnd, done)
  {
  }

  lemma EraseTwiceFrame(blocks: map<nat, nat>, mem: seq<byte>, addr: nat, hw: Hardware, ops: nat)
    requires addr in blocks && addr + blocks[addr] <= |mem|
    ensures |EraseTwice(blocks, mem, addr, hw, ops).mem| == |mem|
  {
  }

  lemma EraseNothing(blocks: map<nat, nat>, mem: seq<byte>, addr: nat, end: nat, hw: Hardware, ops: nat)
    requires addr >= end && Tiles(blocks, addr, end, |mem|)
    ensures EraseFrom(blocks, mem, addr, end, hw, ops) == Run(true, mem, ops, multiset{})
  {
  }

  /** Erasing block after block is a run of the protocol. */
  lemma {:induction false} ErasePath(w: World, s: State, hw: Hardware, ops: nat, done: Pc)
    requires s.pc.Erase? && s.pc.tries == 0
    requires s.pc.addr < w.p.appEnd && Tiles(w.blocks, s.pc.addr, w.p.appEnd, |s.mem|)
    requires AfterErase(w, s, s.pc.round, w.p.appEnd, done)
    ensures Reaches(w, s, AfterErasing(s, EraseFrom(w.blocks, s.mem, s.pc.addr, w.p.appEnd, hw, ops), done))
    decreases w.p.appEnd - s.pc.addr
  {
    hide *;
    EraseUnfold(w.blocks, s.mem, s.pc.addr, w.p.appEnd, hw, ops);
    var next := s.pc.addr + w.blocks[s.pc.addr];
    var b := EraseTwice(w.blocks, s.mem, s.pc.addr, hw, ops);
    var pc := NextErase(w, s, next, done);
    NextEraseFollows(w, s, next, done);
    BlockPath(w, s, hw, ops, pc);
    if b.ok {
      var s1 := State(s.keys, b.mem, pc, s.erases + b.erases, s.boots);
      var r := EraseFrom(w.blocks, b.mem, next, w.p.appEnd, hw, b.ops);
      ErasedTail(s, s1, b, r, done);
      if next < w.p.appEnd {
        ErasePath(w, s1, hw, b.ops, done);
      } else {
        EraseNothing(w.blocks, b.mem, next, w.p.appEnd, hw, b.ops);
        ReachesRefl(w, s1);
      }
      ReachesTrans(w, s, s1, AfterErasing(s1, r, done));
    } else {
      FailedErase(s, b, pc, done);
    }
  }

  lemma FailedErase(s: State, b: Run, pc: Pc, done: Pc)
    requires !b.ok
    ensures AfterErasing(s, b, pc) == AfterErasing(s, b, done)
  {
  }

  lemma ErasedTail(s: State, s1: State, b: Run, r: Run, done: Pc)
    requires b.ok && s1 == State(s.keys, b.mem, s1.pc, s.erases + b.erases, s.boots)
    ensures AfterErasing(s, b, s1.pc) == s1
    ensures r.ok && r.mem == b.mem && r.erases == multiset{} && s1.pc == done ==> AfterErasing(s1, r, done) == s1
    ensures AfterErasing(s1, r, done) == AfterErasing(s, r.(erases := b.erases + r.erases), done)
  {
    assert s.erases + b.erases + r.erases == s.erases + (b.erases + r.erases);
  }

  /** Programming segment after segment is a run of the protocol. */
  lemma {:induction false} ProgramPath(w: World, s: State, hw: Hardware, ops: nat, failed: Pc)
    requires s.pc.Program? && s.pc.at <= |s.pc.segs|
    requires AfterFailedLoad(w, s, s.pc.round, ProgramFailed, failed)
    ensures var r := ProgramAll(s.mem, s.pc.segs[s.pc.at..], hw, ops);
            Reaches(w, s, s.(mem := r.mem, pc := if r.ok then s.pc.(at := |s.pc.segs|) else failed))
    decreases |s.pc.segs| - s.pc.at
  {
    var segs, at := s.pc.segs, s.pc.at;
    var r := ProgramAll(s.mem, segs[at..], hw, ops);
    var t := s.(mem := r.mem, pc := if r.ok then s.pc.(at := |segs|) else failed);
    if at == |segs| {
      ReachesRefl(w, s);
    } else {
      var e := WriteEffect(s.mem, segs[at], hw(ops));
      assert segs[at..][1..] == segs[at + 1..] && segs[at..][0] == segs[at];
      if e.ok {
        var s1 := s.(mem := e.mem, pc := s.pc.(at := at + 1));
        ProgramPath(w, s1, hw, ops + 1, failed);
        ReachesStep(w, s, s1, t);
      } else {
        ReachesRefl(w, t);
        ReachesStep(w, s, t, t);
      }
    }
  }

  /** Where the protocol stands after one round of erasing and flashing. */
  function AfterRound(w: World, round: nat, erased: bool, code: Code): Pc {
    if !erased then LogError(EraseFailed, true)
    else if code == Ok then Delete(0)
    else if round == 0 then Erase(1, w.p.appStart, 0)
    else LogError(code, true)
  }

  /** What one round does: erase everything, then run the loader for real. */
  datatype Round = Round(erased: bool, code: Code, mem: seq<byte>, ops: nat, erases: multiset<nat>)

  function RoundRun(w: World, path: string, mem: seq<byte>, hw: Hardware, ops: nat, buf: Buffer): (r: Round)
    requires w.Fits(mem) && path in w.files
    ensures |r.mem| == |mem|
  {
    var e := EraseFrom(w.blocks, mem, w.p.appStart, w.p.appEnd, hw, ops);
    if !e.ok then Round(false, EraseFailed, e.mem, e.ops, e.erases) else
    var l := Load(w.p, w.files[path], buf);
    var r := ProgramAll(e.mem, l.segments, hw, e.ops);
    Round(true, if r.ok then l.code else ProgramFailed, r.mem, r.ops, e.erases)
  }

  /** The round flashed the image. */
  predicate Good(r: Round) {
    r.erased && r.code == Ok
  }

  /** The first round succeeds, or its flashing fails and the second round succeeds. */
  predicate Succeeds(w: World, path: string, mem: seq<byte>, hw: Hardware, ops: nat)
    requires w.Fits(mem) && path in w.files
  {
    var first := RoundRun(w, path, mem, hw, ops, Blank());
    Good(first) || (first.erased && Good(RoundRun(w, path, first.mem, hw, first.ops, Blank())))
  }

  function FailureCode(w: World, path: string, mem: seq<byte>, hw: Hardware, ops: nat): Code
    requires w.Fits(mem) && path in w.files
  {
    var first := RoundRun(w, path, mem, hw, ops, Blank());
    if !first.erased then EraseFailed else
    var second := RoundRun(w, path, first.mem, hw, first.ops, Blank());
    if second.erased then second.code else EraseFailed
  }

  /** Exactly when a round succeeds: the area is erased, the file is in order and every write of
      its segments works. */
  lemma GoodExactly(w: World, path: string, mem: seq<byte>, hw: Hardware, ops: nat, buf: Buffer)
    requires w.Fits(mem) && path in w.files
    ensures var e := EraseFrom(w.blocks, mem, w.p.appStart, w.p.appEnd, hw, ops);
            var segs := Load(w.p, w.files[path], buf).segments;
            Good(RoundRun(w, path, mem, hw, ops, buf)) <==>
              && e.ok && w.DryRun(path) == Ok
              && forall i :: 0 <= i < |segs| ==> WriteWorks(|mem|, segs, hw, e.ops, i)
  {
    hide Load, EraseFrom, ProgramAll;
    var e := EraseFrom(w.blocks, mem, w.p.appStart, w.p.appEnd, hw, ops);
    LoadHasNoBuffer(w.p, w.files[path], buf, Blank());
    ProgramWorks(e.mem, Load(w.p, w.files[path], buf).segments, hw, e.ops);
  }

  /** A flashing that fails is made good by a second round on hardware that works from then on. */
  lemma SecondChance(w: World, path: string, mem: seq<byte>, hw: Hardware, ops: nat)
    requires w.Fits(mem) && path in w.files && w.DryRun(path) == Ok && BootSafety.FileFits(w, path, |mem|)
    requires var first := RoundRun(w, path, mem, hw, ops, Blank());
             first.erased && forall i :: i >= first.ops ==> hw(i).Works?
    ensures Succeeds(w, path, mem, hw, ops)
  {
    hide RoundRun, BootSafety.FileFits;
    var first := RoundRun(w, path, mem, hw, ops, Blank());
    RoundWorks(w, path, first.mem, hw, first.ops, Blank());
  }

  /** For a file that passes the dry run the loader can only fail in programming. */
  lemma FailureIsEraseOrProgram(w: World, path: string, mem: seq<byte>, hw: Hardware, ops: nat)
    requires w.Fits(mem) && path in w.files && w.DryRun(path) == Ok && !Succeeds(w, path, mem, hw, ops)
    ensures FailureCode(w, path, mem, hw, ops) in {EraseFailed, ProgramFailed}
  {
    hide Load, EraseFrom, ProgramAll;
  }

  /** What the flash and the segment buffer hold has no part in how a round comes out. */
  lemma RoundHasNoContent(
      w: World, path: string, mem: seq<byte>, mem': seq<byte>, hw: Hardware, ops: nat, buf: Buffer, buf': Buffer)
    requires w.Fits(mem) && w.Fits(mem') && |mem| == |mem'| && path in w.files
    ensures var r, r' := RoundRun(w, path, mem, hw, ops, buf), RoundRun(w, path, mem', hw, ops, buf');
            r.erased == r'.erased && r.code == r'.code && r.ops == r'.ops
  {
    EraseHasNoContent(w.blocks, mem, mem', w.p.appStart, w.p.appEnd, hw, ops);
    var e := EraseFrom(w.blocks, mem, w.p.appStart, w.p.appEnd, hw, ops);
    var e' := EraseFrom(w.blocks, mem', w.p.appStart, w.p.appEnd, hw, ops);
    LoadHasNoBuffer(w.p, w.files[path], buf, buf');
    var l, l' := Load(w.p, w.files[path], buf), Load(w.p, w.files[path], buf');
    ProgramHasNoContent(e.mem, e'.mem, l.segments, l'.segments, hw, e.ops);
  }

  /** A round that reports success has flashed a complete new image. */
  lemma GoodRoundLeavesImage(w: World, path: string, mem: seq<byte>, hw: Hardware, ops: nat, buf: Buffer)
    requires w.Fits(mem) && path in w.files && Good(RoundRun(w, path, mem, hw, ops, buf))
    ensures w.NewImage(path, RoundRun(w, path, mem, hw, ops, buf).mem)
  {
    var e := EraseFrom(w.blocks, mem, w.p.appStart, w.p.appEnd, hw, ops);
    EraseCovers(w.blocks, mem, w.p.appStart, w.p.appEnd, hw, ops);
    assert w.p.appEnd <= w.Top(mem);
    var l := Load(w.p, w.files[path], buf);
    assert w.Loads(path, l.segments);
    LoadHasNoBuffer(w.p, w.files[path], buf, Blank());
    ProgramStores(e.mem, l.segments, hw, e.ops);
    FlashedOverErased(w, e.mem, l.segments);
  }

  /** A round is a run of the protocol. */
  lemma {:induction false} RoundPath(w: World, s: State, hw: Hardware, ops: nat, buf: Buffer)
    requires w.Fits(s.mem) && Armed(s.keys) && s.keys.image.value in w.files
    requires s.pc.Erase? && s.pc == Erase(s.pc.round, w.p.appStart, 0)
    ensures var r := RoundRun(w, s.keys.image.value, s.mem, hw, ops, buf);
            var pc := AfterRound(w, s.pc.round, r.erased, r.code);
            Reaches(w, s, State(s.keys, r.mem, pc, s.erases + r.erases, s.boots))
  {
    var path := s.keys.image.value;
    var e := EraseFrom(w.blocks, s.mem, w.p.appStart, w.p.appEnd, hw, ops);
    var l := Load(w.p, w.files[path], buf);
    assert w.Loads(path, l.segments);
    ErasePath(w, s, hw, ops, Program(s.pc.round, l.segments, 0));
    if e.ok {
      var s1 := AfterErasing(s, e, Program(s.pc.round, l.segments, 0));
      FlashPath(w, s1, hw, e.ops, buf);
      var r := ProgramAll(e.mem, l.segments, hw, e.ops);
      var code := if r.ok then l.code else ProgramFailed;
      ReachesTrans(w, s, s1, s1.(mem := r.mem, pc := AfterRound(w, s.pc.round, true, code)));
    }
  }

  lemma {:induction false} FlashPath(w: World, s: State, hw: Hardware, ops: nat, buf: Buffer)
    requires w.p.Valid() && Armed(s.keys) && s.keys.image.value in w.files
    requires s.pc.Program? && s.pc.segs == Load(w.p, w.files[s.keys.image.value], buf).segments && s.pc.at == 0
    ensures var l := Load(w.p, w.files[s.keys.image.value], buf);
            var r := ProgramAll(s.mem, l.segments, hw, ops);
            var code := if r.ok then l.code else ProgramFailed;
            Reaches(w, s, s.(mem := r.mem, pc := AfterRound(w, s.pc.round, true, code)))
  {
    var f := w.files[s.keys.image.value];
    var l := Load(w.p, f, buf);
    var r := ProgramAll(s.mem, l.segments, hw, ops);
    var failed := AfterRound(w, s.pc.round, true, ProgramFailed);
    assert s.pc.segs[0..] == l.segments;
    ProgramPath(w, s, hw, ops, failed);
    if r.ok {
      var s1 := s.(mem := r.mem, pc := s.pc.(at := |l.segments|));
      LoadHasNoBuffer(w.p, f, buf, Blank());
      ReachesThen(w, s, s1, s1.(pc := AfterRound(w, s.pc.round, true, l.code)));
    }
  }

  const NO_KEYS: Keys := Keys(None, None, None, None)

  /** The clean-up: all four update keys go, then the reset. */
  lemma CleanUpPath(w: World, s: State)
    requires s.pc == Delete(0)
    ensures Reaches(w, s, s.(keys := NO_KEYS, pc := Start))
  {
    var s1 := s.(keys := Deleted(s.keys, 0), pc := Delete(1));
    var s2 := s1.(keys := Deleted(s1.keys, 1), pc := Delete(2));
    var s3 := s2.(keys := Deleted(s2.keys, 2), pc := Delete(3));
    var s4 := s3.(keys := Deleted(s3.keys, 3), pc := Reset);
    var s5 := s4.(pc := Start);
    ReachesRefl(w, s5);
    ReachesStep(w, s4, s5, s5);
    ReachesStep(w, s3, s4, s5);
    ReachesStep(w, s2, s3, s5);
    ReachesStep(w, s1, s2, s5);
    ReachesStep(w, s, s1, s5);
  }

  /** From the entry of main to the first erase. */
  lemma {:induction false} CountPath(w: World, s: State)
    requires s.pc == Start && Armed(s.keys) && w.Check(s.keys, s.keys.image.value) == Ok
    requires Attempts(s.keys) < MAX_UPDATE_ATTEMPTS
    ensures var counted := s.keys.(attempts := Some(Attempts(s.keys) + 1));
            Reaches(w, s, State(counted, s.mem, Erase(0, w.p.appStart, 0), s.erases, s.boots + 1))
  {
    var s1 := s.(pc := CountAttempt);
    var counted := s.keys.(attempts := Some(Attempts(s.keys) + 1));
    var s2 := State(counted, s.mem, Erase(0, w.p.appStart, 0), s.erases, s.boots + 1);
    ReachesRefl(w, s2);
    ReachesStep(w, s1, s2, s2);
    ReachesStep(w, s, s1, s2);
  }

  /** Logging an error, then the jump or the halt. */
  lemma LogPath(w: World, s: State, t: State)
    requires s.pc.LogError?
    requires t == s.(keys := s.keys.(error := Some(s.pc.code)), pc := if s.pc.halt then Halted else Jumped)
    ensures Reaches(w, s, t)
  {
    ReachesRefl(w, t);
    ReachesStep(w, s, t, t);
  }

  /** A check that ends the update before it begins. */
  lemma RejectPath(w: World, s: State, code: Code, halt: bool)
    requires s.pc == Start && Armed(s.keys)
    requires if halt
             then w.Check(s.keys, s.keys.image.value) == Ok
                  && Attempts(s.keys) >= MAX_UPDATE_ATTEMPTS && code == TooManyAttempts
             else code == w.Check(s.keys, s.keys.image.value) != Ok
    ensures Reaches(w, s, s.(keys := s.keys.(error := Some(code)), pc := if halt then Halted else Jumped))
  {
    var s1 := s.(pc := LogError(code, halt));
    LogPath(w, s1, s1.(keys := s.keys.(error := Some(code)), pc := if halt then Halted else Jumped));
    ReachesStep(w, s, s1, s1.(keys := s.keys.(error := Some(code)), pc := if halt then Halted else Jumped));
  }

  /** A device that never refuses two commands in a row erases the whole area. */
  lemma {:induction false} EraseWorks(
      blocks: map<nat, nat>, mem: seq<byte>, addr: nat, end: nat, hw: Hardware, ops: nat)
    requires Tiles(blocks, addr, end, |mem|) && forall i :: i >= ops ==> hw(i).Works? || hw(i + 1).Works?
    ensures EraseFrom(blocks, mem, addr, end, hw, ops).ok
    decreases end - addr
  {
    if addr < end {
      CoverStep(blocks, addr, end, |mem|);
      assert hw(ops).Works? || hw(ops + 1).Works?;
      var b := EraseTwice(blocks, mem, addr, hw, ops);
      EraseWorks(blocks, b.mem, addr + blocks[addr], end, hw, b.ops);
    }
  }

  // ---------------------------------------------------------------------------------------
  // The program
  // ---------------------------------------------------------------------------------------

  class Bootloader {
    const w: World
    const device: Device
    const loader: L.Loader
    var keys: Keys
    ghost var boots: nat

    ghost predicate Valid()
      reads this, device
    {
      && loader.Valid() && loader.device == device && loader.p == w.p && loader.files == w.files
      && device.blocks == w.blocks
      && w.Fits(device.mem)
    }

    /** The state of the protocol at program point `pc`. */
    ghost function At(pc: Pc): State
      reads this, device
    {
      State(keys, device.mem, pc, device.erases, boots)
    }

    constructor (w: World, device: Device, keys: Keys)
      requires w.Fits(device.mem) && device.blocks == w.blocks
      ensures Valid() && this.w == w && this.device == device && this.keys == keys
    {
      this.w, this.device, this.keys := w, device, keys;
      loader := new L.Loader(w.p, w.files, device);
      boots := 0;
    }

    /** Erases the application area; false where the program ends in `update_failed`. */
    method EraseApplicationArea() returns (ok: bool)
      requires Valid()
      modifies device
      ensures Valid()
      ensures var r := EraseFrom(w.blocks, old(device.mem), w.p.appStart, w.p.appEnd, device.hw, old(device.ops));
        && ok == r.ok && device.mem == r.mem && device.ops == r.ops
        && device.erases == old(device.erases) + r.erases
      ensures ok ==> exists k: nat :: EndsAfter(w.blocks, w.p.appStart, w.p.appEnd, k)
    {
      hide EraseFrom, EraseTwice, BlockAddress, Inside;
      FirstBlock(w.blocks, w.p.appStart, w.p.appEnd);
      var addr := w.p.appStart;
      ghost var k: nat := 0;
      while addr < w.p.appEnd
        invariant addr == BlockAddress(w.blocks, w.p.appStart, k) && w.p.appStart <= addr
        invariant Inside(w.blocks, w.p.appStart, w.p.appEnd, k)
        invariant |device.mem| == |old(device.mem)|
        invariant Tiles(w.blocks, addr, w.p.appEnd, |device.mem|)
        invariant EraseLeft(old(device.mem), old(device.ops), old(device.erases), addr)
        decreases w.p.appEnd - addr
      {
        EraseUnfold(w.blocks, device.mem, addr, w.p.appEnd, device.hw, device.ops);
        EraseTwiceFrame(w.blocks, device.mem, addr, device.hw, device.ops);
        ghost var b := EraseTwice(w.blocks, device.mem, addr, device.hw, device.ops);
        ghost var rest := EraseFrom(w.blocks, device.mem, addr, w.p.appEnd, device.hw, device.ops);
        ghost var e := device.erases;
        ok := EraseBlock(addr);
        if !ok {
          assert rest == b;
          return;
        }
        NextBlock(w.blocks, w.p.appStart, w.p.appEnd, k);
        addr, k := Add32(addr, device.blocks[addr]), k + 1;
        ghost var next := EraseFrom(w.blocks, device.mem, addr, w.p.appEnd, device.hw, device.ops);
        assert e + (b.erases + next.erases) == e + b.erases + next.erases;
      }
      EraseNothing(w.blocks, device.mem, addr, w.p.appEnd, device.hw, device.ops);
      assert device.erases + multiset{} == device.erases;
      assert EndsAfter(w.blocks, w.p.appStart, w.p.appEnd, k);
      return true;
    }

    method EraseBlock(addr: nat) returns (ok: bool)
      requires addr in device.blocks && addr + device.blocks[addr] <= |device.mem|
      modifies device
      ensures var r := EraseTwice(device.blocks, old(device.mem), addr, device.hw, old(device.ops));
        && ok == r.ok && device.mem == r.mem && device.ops == r.ops
        && device.erases == old(device.erases) + r.erases
    {
      ok := device.Erase(addr);
      if !ok {
        ok := device.Erase(addr);
      }
    }

    /** The erasing still to do from `addr` completes the one begun on `mem`. */
    ghost predicate EraseLeft(mem: seq<byte>, ops: nat, erases: multiset<nat>, addr: nat)
      requires Tiles(w.blocks, w.p.appStart, w.p.appEnd, |mem|)
      requires Tiles(w.blocks, addr, w.p.appEnd, |device.mem|)
      reads device
    {
      var whole := EraseFrom(w.blocks, mem, w.p.appStart, w.p.appEnd, device.hw, ops);
      var rest := EraseFrom(w.blocks, device.mem, addr, w.p.appEnd, device.hw, device.ops);
      && whole.ok == rest.ok && whole.mem == rest.mem && whole.ops == rest.ops
      && erases + whole.erases == device.erases + rest.erases
    }

    /** `mmconfig_read_bytes`: the lesser of the buffer and the stored length is copied. */
    static function ReadBytes(stored: seq<byte>, size: nat): (r: seq<byte>)
      ensures |r| <= size && r <= stored && (r == stored || |r| == size)
    {
      if size < |stored| then stored[..size] else stored
    }

    /** Compares the hash of the file, taken 64 bytes at a time, with the stored signature. */
    method VerifySignature(path: string) returns (code: Code)
      ensures code == w.Verify(keys, path)
      ensures code == Ok <==>
                && keys.signature.Some? && |keys.signature.value| >= 32
                && path in w.files && w.sha256(w.files[path]) == keys.signature.value[..32]
      ensures code == SignatureNotFound <==> keys.signature.None? || |keys.signature.value| < 32
      ensures code == FileNotFound <==>
                keys.signature.Some? && |keys.signature.value| >= 32 && path !in w.files
      ensures code in {Ok, SignatureNotFound, FileNotFound, FileVerificationFailed}
    {
      if keys.signature.None? {
        return SignatureNotFound;
      }
      var compare := ReadBytes(keys.signature.value, SIGNATURE_LENGTH);
      if |compare| != SIGNATURE_LENGTH {
        return SignatureNotFound;
      }
      if path !in w.files {
        return FileNotFound;
      }
      var fd := new L.Descriptor(w.files[path]);
      var data := new byte[64](_ => 0);
      var hashed: seq<byte> := [];
      while true
        invariant fd.Valid() && hashed == fd.data[..fd.pos]
        decreases |fd.data| - fd.pos
      {
        var bytesRead := fd.Read(data, 64);
        if bytesRead <= 0 {
          break;
        }
        hashed := hashed + data[..bytesRead];
        if bytesRead != 64 {
          break;
        }
      }
      assert hashed == w.files[path];
      code := if w.sha256(hashed) != compare then FileVerificationFailed else Ok;
    }

    /** One round of `check_update`: erase, then flash; `erased` is false where the program
        ends in `update_failed` after an erase. */
    method EraseAndFlash(path: string) returns (erased: bool, code: Code)
      requires Valid() && path in w.files
      modifies device, loader.segmentBuffer, loader.deflateBuffer
      ensures |device.mem| == |old(device.mem)|
      ensures var r := RoundRun(w, path, old(device.mem), device.hw, old(device.ops), old(loader.Buf()));
        && erased == r.erased && code == r.code && device.mem == r.mem && device.ops == r.ops
        && device.erases == old(device.erases) + r.erases
    {
      erased := EraseApplicationArea();
      code := EraseFailed;
      if erased {
        code := loader.LoadAndFlash(path, true);
      }
    }

    /** `check_update`.  It returns where it leaves the machine: about to jump to the
        application, halted, or reset (back at the start of main). */
    method CheckUpdate() returns (pc: Pc)
      requires Valid()
      modifies this, device, loader.segmentBuffer, loader.deflateBuffer
      ensures Valid()
      ensures pc == Jumped || pc == Halted || pc == Start
      ensures Reaches(w, old(At(Start)), At(pc))
      ensures pc == Start <==> old(Takes())
      ensures pc == Start ==> keys == NO_KEYS && w.NewImage(old(keys).image.value, device.mem)
      ensures pc != Start && old(Armed(keys)) ==> keys.error.Some?
      ensures old(Armed(keys)) && w.Check(old(keys), old(keys).image.value) != Ok ==>
                && pc == Jumped && device.mem == old(device.mem)
                && keys == old(keys).(error := Some(w.Check(old(keys), old(keys).image.value)))
      ensures old(Exhausted()) ==>
                && pc == Halted && device.mem == old(device.mem)
                && keys == old(keys).(error := Some(TooManyAttempts))
      ensures old(Fails()) ==>
                && pc == Halted
                && keys.attempts == Some(if old(keys).attempts.Some? then old(keys).attempts.value + 1 else 1)
                && keys.error == Some(old(Failure()))
                && keys.image == old(keys).image && keys.signature == old(keys).signature
      ensures !old(Armed(keys)) ==> pc == Jumped && keys == old(keys) && device.mem == old(device.mem)
    {
      ghost var start := At(Start);
      if keys.image.None? || |keys.image.value| + 1 > PATH_SIZE {
        ReachesRefl(w, At(Jumped));
        ReachesStep(w, start, At(Jumped), At(Jumped));
        return Jumped;
      }
      var path := keys.image.value;
      var ret := CheckImage(path);
      if ret != Ok {
        RejectPath(w, start, ret, false);
        keys := keys.(error := Some(ret));
        return Jumped;
      }
      pc := CountAndUpdate(path);
    }

    /** The part of `check_update` after the two checks. */
    method CountAndUpdate(path: string) returns (pc: Pc)
      requires Valid() && Armed(keys) && path == keys.image.value && w.Check(keys, path) == Ok
      modifies this, device, loader.segmentBuffer, loader.deflateBuffer
      ensures Valid()
      ensures pc == Halted || pc == Start
      ensures Reaches(w, old(At(Start)), At(pc))
      ensures pc == Start <==> old(Takes())
      ensures pc == Start ==> keys == NO_KEYS && w.NewImage(path, device.mem)
      ensures pc != Start ==> keys.error.Some?
      ensures old(Exhausted()) ==>
                device.mem == old(device.mem) && keys == old(keys).(error := Some(TooManyAttempts))
      ensures old(Fails()) ==>
                keys == old(keys).(attempts := Some(old(Attempts(keys)) + 1), error := Some(old(Failure())))
    {
      hide Succeeds, FailureCode, Reaches, World.NewImage, World.Verify;
      ghost var start := At(Start);
      var attempts := if keys.attempts.Some? then keys.attempts.value else 0;
      if attempts >= MAX_UPDATE_ATTEMPTS {
        RejectPath(w, start, TooManyAttempts, true);
        keys := keys.(error := Some(TooManyAttempts));
        return Halted;
      }
      CountPath(w, start);
      keys := keys.(attempts := Some(attempts + 1));
      boots := boots + 1;
      pc := Update(path, start);
    }

    /** The two checks of `check_update`, the second only if the first succeeds. */
    method CheckImage(path: string) returns (code: Code)
      requires Valid()
      modifies device, loader.segmentBuffer, loader.deflateBuffer
      ensures Valid() && code == w.Check(keys, path)
      ensures device.mem == old(device.mem) && device.ops == old(device.ops) && device.erases == old(device.erases)
    {
      code := VerifySignature(path);
      if code == Ok {
        code := DryRun(path);
      }
    }

    method DryRun(path: string) returns (code: Code)
      requires Valid()
      modifies device, loader.segmentBuffer, loader.deflateBuffer
      ensures Valid() && code == w.DryRun(path)
      ensures device.mem == old(device.mem) && device.ops == old(device.ops) && device.erases == old(device.erases)
    {
      if path in w.files {
        LoadHasNoBuffer(w.p, w.files[path], loader.Buf(), Blank());
      }
      code := loader.LoadAndFlash(path, false);
    }

    /** `check_update` takes the update up and carries it through: it is armed and checked, it has
        an attempt left, and one of its two rounds succeeds. */
    ghost predicate Takes()
      requires Valid()
      reads this, device
    {
      && Armed(keys)
      && w.Check(keys, keys.image.value) == Ok
      && Attempts(keys) < MAX_UPDATE_ATTEMPTS
      && Succeeds(w, keys.image.value, device.mem, device.hw, device.ops)
    }

    /** An update that nothing can keep from going through: the hardware takes every command to
        come, and no segment of the file wraps around. */
    ghost predicate Ready()
      reads this, device
    {
      && Armed(keys)
      && w.Check(keys, keys.image.value) == Ok
      && Attempts(keys) < MAX_UPDATE_ATTEMPTS
      && BootSafety.NoWrapFile(w, keys.image.value)
      && forall i :: i >= device.ops ==> device.hw(i).Works?
    }

    /** `Takes` in terms of the keys, the file and the hash. */
    lemma TakesExactly()
      requires Valid()
      ensures Takes() <==>
                && keys.image.Some? && |keys.image.value| < 128
                && keys.signature.Some? && |keys.signature.value| >= 32
                && keys.image.value in w.files
                && w.sha256(w.files[keys.image.value]) == keys.signature.value[..32]
                && (exists img :: WellFormed(w.p, img) && w.files[keys.image.value] == Encode(w.p, img))
                && (keys.attempts.Some? ==> keys.attempts.value < 10)
                && Succeeds(w, keys.image.value, device.mem, device.hw, device.ops)
    {
      hide WellFormed, Encode, Succeeds;
      if Armed(keys) {
        BootSafety.CheckExactly(w, keys, keys.image.value);
      }
    }

    /** The update is armed and checked, but has no attempt left. */
    ghost predicate Exhausted()
      reads this
    {
      Armed(keys) && w.Check(keys, keys.image.value) == Ok && Attempts(keys) >= MAX_UPDATE_ATTEMPTS
    }

    /** The update has an attempt, but neither of its rounds succeeds. */
    ghost predicate Fails()
      requires Valid()
      reads this, device
    {
      && Armed(keys) && w.Check(keys, keys.image.value) == Ok && Attempts(keys) < MAX_UPDATE_ATTEMPTS
      && !Succeeds(w, keys.image.value, device.mem, device.hw, device.ops)
    }

    /** The code of an update that fails: of the erasing if it stopped in one of the rounds, and
        else of the programming. */
    ghost function Failure(): Code
      requires Valid() && Fails()
      reads this, device
    {
      FailureCode(w, keys.image.value, device.mem, device.hw, device.ops)
    }

    lemma ReadyIsTaken()
      requires Valid() && Ready()
      ensures Takes()
    {
      BootSafety.NoWrapFits(w, keys.image.value, device.mem);
      RoundWorks(w, keys.image.value, device.mem, device.hw, device.ops, Blank());
    }

    /** The part of `check_update` from the first erase on. */
    method Update(path: string, ghost start: State) returns (pc: Pc)
      requires Valid() && Armed(keys) && path == keys.image.value && w.DryRun(path) == Ok
      requires Reaches(w, start, At(Erase(0, w.p.appStart, 0)))
      modifies this`keys, device, loader.segmentBuffer, loader.deflateBuffer
      ensures Valid()
      ensures pc == Halted || pc == Start
      ensures Reaches(w, start, At(pc))
      ensures pc == Start <==> Succeeds(w, path, old(device.mem), device.hw, old(device.ops))
      ensures pc == Start ==> keys == NO_KEYS && w.NewImage(path, device.mem)
      ensures pc != Start ==>
                keys == old(keys).(error := Some(FailureCode(w, path, old(device.mem), device.hw, old(device.ops))))
    {
      hide RoundRun;
      ghost var s := At(Erase(0, w.p.appStart, 0));
      RoundPath(w, s, device.hw, device.ops, loader.Buf());
      RoundHasNoContent(w, path, device.mem, device.mem, device.hw, device.ops, loader.Buf(), Blank());
      ghost var first := RoundRun(w, path, device.mem, device.hw, device.ops, loader.Buf());
      ghost var firstBlank := RoundRun(w, path, device.mem, device.hw, device.ops, Blank());
      if Good(first) {
        GoodRoundLeavesImage(w, path, device.mem, device.hw, device.ops, loader.Buf());
      }
      RoundHasNoContent(w, path, first.mem, firstBlank.mem, device.hw, first.ops, Blank(), Blank());
      var erased, ret := EraseAndFlash(path);
      ReachesTrans(w, start, s, At(AfterRound(w, 0, erased, ret)));
      if !erased {
        pc := UpdateFailed(EraseFailed, start);
        return;
      }
      if ret != Ok {
        pc := SecondRound(path, start);
        return;
      }
      pc := CleanUp(start);
    }

    /** The second and last round. */
    method SecondRound(path: string, ghost start: State) returns (pc: Pc)
      requires Valid() && Armed(keys) && path == keys.image.value && path in w.files
      requires Reaches(w, start, At(Erase(1, w.p.appStart, 0)))
      modifies this`keys, device, loader.segmentBuffer, loader.deflateBuffer
      ensures Valid()
      ensures pc == Halted || pc == Start
      ensures Reaches(w, start, At(pc))
      ensures pc == Start <==> Good(RoundRun(w, path, old(device.mem), device.hw, old(device.ops), Blank()))
      ensures pc == Start ==> keys == NO_KEYS && w.NewImage(path, device.mem)
      ensures pc != Start ==>
                var r := RoundRun(w, path, old(device.mem), device.hw, old(device.ops), Blank());
                keys == old(keys).(error := Some(if r.erased then r.code else EraseFailed))
    {
      hide RoundRun;
      RoundHasNoContent(w, path, device.mem, device.mem, device.hw, device.ops, loader.Buf(), Blank());
      if Good(RoundRun(w, path, device.mem, device.hw, device.ops, loader.Buf())) {
        GoodRoundLeavesImage(w, path, device.mem, device.hw, device.ops, loader.Buf());
      }
      ghost var s := At(Erase(1, w.p.appStart, 0));
      RoundPath(w, s, device.hw, device.ops, loader.Buf());
      var erased, ret := EraseAndFlash(path);
      ReachesTrans(w, start, s, At(AfterRound(w, 1, erased, ret)));
      if !erased {
        pc := UpdateFailed(EraseFailed, start);
      } else if ret != Ok {
        pc := UpdateFailed(ret, start);
      } else {
        pc := CleanUp(start);
      }
    }

    /** The clean-up of `check_update`. */
    method CleanUp(ghost start: State) returns (pc: Pc)
      requires Reaches(w, start, At(Delete(0)))
      modifies this`keys
      ensures pc == Start && keys == NO_KEYS && Reaches(w, start, At(Start))
    {
      ghost var s := At(Delete(0));
      CleanUpPath(w, s);
      keys := keys.(image := None);
      keys := keys.(attempts := None);
      keys := keys.(signature := None);
      keys := keys.(error := None);
      ReachesTrans(w, start, s, At(Start));
      return Start;
    }

    /** `update_failed`: store the code and halt. */
    method UpdateFailed(code: Code, ghost start: State) returns (pc: Pc)
      requires Reaches(w, start, At(LogError(code, true)))
      modifies this`keys
      ensures pc == Halted && keys == old(keys).(error := Some(code)) && Reaches(w, start, At(pc))
    {
      ghost var s := At(LogError(code, true));
      keys := keys.(error := Some(code));
      LogPath(w, s, At(Halted));
      ReachesTrans(w, start, s, At(Halted));
      return Halted;
    }

    /** From power-on to the jump or the halt, through the resets in between: main ends.  An
        armed update loses its four keys exactly when it is carried through, and then the boot
        after the reset enters the complete new image. */
    method PowerOn() returns (pc: Pc)
      requires Valid()
      modifies this, device, loader.segmentBuffer, loader.deflateBuffer
      ensures Valid()
      ensures pc == Jumped || pc == Halted
      ensures Reaches(w, old(At(Start)), At(pc))
      ensures old(Takes()) ==> pc == Jumped && keys == NO_KEYS && w.NewImage(old(keys).image.value, device.mem)
      ensures old(Armed(keys)) ==> (keys == NO_KEYS <==> old(Takes()))
      ensures old(Ready()) ==> old(Takes())
    {
      ghost var start := At(Start);
      if Ready() {
        ReadyIsTaken();
      }
      pc := CheckUpdate();
      if pc == Start {
        ghost var again := At(Start);
        pc := CheckUpdate();
        ReachesTrans(w, start, again, At(pc));
      }
    }
  }

  /** On a device that takes every command, one round flashes the complete new image. */
  lemma RoundWorks(w: World, path: string, mem: seq<byte>, hw: Hardware, ops: nat, buf: Buffer)
    requires w.Fits(mem) && path in w.files
    requires (forall i :: i >= ops ==> hw(i).Works?) && BootSafety.FileFits(w, path, |mem|) && w.DryRun(path) == Ok
    ensures var r := RoundRun(w, path, mem, hw, ops, buf);
            r.erased && r.code == Ok && |r.mem| == |mem| && w.NewImage(path, r.mem)
  {
    hide Tiles, EraseFrom, ProgramAll, Load;
    var e := EraseFrom(w.blocks, mem, w.p.appStart, w.p.appEnd, hw, ops);
    EraseWorks(w.blocks, mem, w.p.appStart, w.p.appEnd, hw, ops);
    var l := Load(w.p, w.files[path], buf);
    LoadHasNoBuffer(w.p, w.files[path], buf, Blank());
    assert w.Loads(path, l.segments);
    BootSafety.LoadedFit(w, path, l.segments, |mem|);
    ProgramWorks(e.mem, l.segments, hw, e.ops);
    GoodRoundLeavesImage(w, path, mem, hw, ops, buf);
  }

  /** Segments stored over an erased area give their image. */
  lemma FlashedOverErased(w: World, mem: seq<byte>, segs: seq<Segment>)
    requires w.Fits(mem) && Erased(mem, w.p.appStart, w.p.appEnd)
    ensures w.Area(Fold(mem, segs)) == w.ImageArea(segs, mem)
  {
    assert w.p.appEnd <= w.Top(mem);
    FoldAgrees(mem, seq(|mem|, _ => ERASE_VALUE), segs, w.p.appStart, w.p.appEnd);
  }

  /** A real run of the loader that reports `Ok` on an erased area leaves the image of the
      file's segments there and nothing outside the area changed. */
  lemma {:induction false} FlashContent(w: World, path: string, mem: seq<byte>, hw: Hardware, ops: nat, buf: Buffer)
    requires w.Fits(mem) && path in w.files && Erased(mem, w.p.appStart, w.p.appEnd)
    requires BootSafety.NoWrapFile(w, path)
    ensures var l := Load(w.p, w.files[path], buf);
            var r := ProgramAll(mem, l.segments, hw, ops);
            && SameOutside(mem, r.mem, w.p.appStart, w.p.appEnd)
            && (r.ok && l.code == Ok ==>
                  w.Area(r.mem) == w.ImageArea(l.segments, mem) && w.NewImage(path, r.mem))
  {
    var l := Load(w.p, w.files[path], buf);
    assert w.Loads(path, l.segments);
    BootSafety.LoadedInArea(w, path, l.segments);
    ProgramStaysInside(mem, l.segments, hw, ops, w.p.appStart, w.p.appEnd);
    ProgramStores(mem, l.segments, hw, ops);
    FlashedOverErased(w, mem, l.segments);
    LoadHasNoBuffer(w.p, w.files[path], buf, Blank());
  }

  // ---------------------------------------------------------------------------------------
  // Boot after boot
  // ---------------------------------------------------------------------------------------

  /** A run without a power cut is a run of the protocol, and a power cut may end it anywhere. */
  lemma BootThenPowerCut(w: World, run: seq<State>, t: State)
    requires IsBoot(w, run) && PowerCut(w, run[|run| - 1], t)
    ensures IsRun(w, run, {}) && IsRun(w, run + [t], {})
  {
  }

  /** Boots, each cut short where the next begins. */
  ghost predicate IsHistory(w: World, boots: seq<seq<State>>) {
    && (forall i :: 0 <= i < |boots| ==> IsBoot(w, boots[i]))
    && (forall i :: 0 < i < |boots| ==> PowerCut(w, Last(boots[i - 1]), boots[i][0]))
  }

  function Last(run: seq<State>): State
    requires run != []
  {
    run[|run| - 1]
  }

  /** Boots and power cuts are one run of the protocol. */
  lemma {:induction false} HistoryIsRun(w: World, boots: seq<seq<State>>) returns (run: seq<State>)
    requires boots != [] && IsHistory(w, boots)
    ensures IsRun(w, run, {}) && run[0] == boots[0][0] && Last(run) == Last(boots[|boots| - 1])
    decreases |boots|
  {
    hide BootStep, PowerCut;
    var n := |boots| - 1;
    var boot := boots[n];
    assert IsBoot(w, boot);
    BootIsRun(w, boot);
    if n == 0 {
      run := boot;
    } else {
      assert forall i :: 0 <= i < n ==> boots[..n][i] == boots[i];
      var before := HistoryIsRun(w, boots[..n]);
      BootThenPowerCut(w, boots[n - 1], boot[0]);
      CutStep(w, Last(boots[n - 1]), boot[0]);
      run := JoinRuns(w, before, boot);
    }
  }

  lemma BootIsRun(w: World, boot: seq<State>)
    requires IsBoot(w, boot)
    ensures IsRun(w, boot, {})
  {
  }

  lemma CutStep(w: World, s: State, t: State)
    requires PowerCut(w, s, t)
    ensures Step(w, s, t, {})
  {
  }

  lemma JoinRuns(w: World, a: seq<State>, b: seq<State>) returns (run: seq<State>)
    requires IsRun(w, a, {}) && IsRun(w, b, {}) && Step(w, Last(a), b[0], {})
    ensures IsRun(w, run, {}) && run[0] == a[0] && Last(run) == Last(b)
  {
    hide Step;
    run := a + b;
    forall i | 0 < i < |run| ensures Step(w, run[i - 1], run[i], {}) {
      if i > |a| {
        assert run[i] == b[i - |a|] && run[i - 1] == b[i - |a| - 1];
      }
    }
  }

  /**
   * However many boots were cut short before: where the program gets from power-on, to the jump,
   * the area is as it was at the start of the first of them, or a complete new image of the file
   * that was armed then.
   */
  lemma PowerOnIsSafe(w: World, boots: seq<seq<State>>, s: State, t: State)
    requires IsHistory(w, boots) && (boots != [] ==> PowerCut(w, Last(boots[|boots| - 1]), s))
    requires Initial(w, if boots == [] then s else boots[0][0])
    requires Reaches(w, s, t) && t.pc == Jumped
    ensures var start := if boots == [] then s else boots[0][0];
            && w.Fits(start.mem) && w.Fits(t.mem)
            && (|| w.Area(t.mem) == w.Area(start.mem)
                || (Armed(start.keys) && w.NewImage(start.keys.image.value, t.mem)))
  {
    hide BootStep, PowerCut;
    var boot :| IsBoot(w, boot) && boot[0] == s && boot[|boot| - 1] == t;
    var all := boots + [boot];
    forall i | 0 < i < |all| ensures PowerCut(w, Last(all[i - 1]), all[i][0]) {
      if i < |boots| {
        assert all[i] == boots[i] && all[i - 1] == boots[i - 1];
      }
    }
    var run := HistoryIsRun(w, all);
    assert run[0] == if boots == [] then s else boots[0][0];
    BootSafety.CrashSafety(w, run, {}, |run| - 1);
  }
}
