/** Flash wear over any number of reboots: the attempt counter is stored before the first erase
    and outlives UPDATE_IMAGE, so one armed update erases each block a bounded number of times. */
module BootWear {
  import opened Words
  import opened Mbin
  import opened Flash
  import opened BootProtocol
  import opened BootSafety

  /** The erase calls that block `b` may have had in the boot under way. */
  function Calls(pc: Pc, b: nat): nat {
    match pc
    case Erase(round, addr, tries) => 2 * round + if b < addr then 2 else if b == addr then tries else 0
    case Program(round, _, _) => 2 * round + 2
    case _ => 0
  }

  predicate InFlight(pc: Pc) {
    pc.Erase? || pc.Program?
  }

  /** The attempts that an update may still make when the counter stands at `n`. */
  function AttemptsLeft(n: int): nat {
    if n < MAX_UPDATE_ATTEMPTS then MAX_UPDATE_ATTEMPTS - n else 0
  }

  /** The armed file can be flashed completely. */
  predicate CanComplete(w: World, s0: State) {
    s0.keys.image.Some? && FileFits(w, s0.keys.image.value, |s0.mem|)
  }

  /** The key operations that bounded wear rests on take effect: the store of the counter and, if
      an update can get that far, the deletion of UPDATE_IMAGE.  All others may be lost. */
  predicate Kept(w: World, s0: State, lost: set<KeyOp>) {
    StoreAttempts !in lost && (DeleteKey(0) !in lost || !CanComplete(w, s0))
  }

  /** Programming stands before a segment that does not lie in the flash. */
  predicate Stuck(pc: Pc, limit: nat) {
    pc.Program? ==> !SegmentsFit(pc.segs, limit) && pc.at <= |pc.segs| && SegmentsFit(pc.segs[..pc.at], limit)
  }

  ghost predicate InvWear(w: World, s0: State, lost: set<KeyOp>, s: State) {
    && w.Fits(s.mem) && |s.mem| == |s0.mem|
    && (s.keys.image == s0.keys.image || s.keys.image == None)
    && (s.pc.Erase? ==> s.pc.addr < w.p.appEnd && Tiles(w.blocks, s.pc.addr, w.p.appEnd, |s.mem|))
    && var n0, n := Attempts(s0.keys), Attempts(s.keys);
    && s.boots <= AttemptsLeft(n0)
    && (s.keys.image.Some? ==> n == n0 + s.boots)
    && (s.pc.CountAttempt? ==> s.keys.image.Some? && n < MAX_UPDATE_ATTEMPTS)
    && (InFlight(s.pc) ==> s.boots > 0 && s.keys.image.Some? && s.pc.round <= 1)
    && (s.pc.Erase? ==> s.pc.tries <= 1)
    && (s.pc.Delete? && s.pc.key > 0 ==> s.keys.image == None)
    && (DeleteKey(0) in lost ==> !s.pc.Delete? && Stuck(s.pc, |s.mem|))
    && forall b :: s.erases[b] <= 4 * (s.boots - if InFlight(s.pc) then 1 else 0) + Calls(s.pc, b)
  }

  lemma WearPowerCut(w: World, s0: State, lost: set<KeyOp>, s: State, t: State)
    requires InvWear(w, s0, lost, s) && PowerCut(w, s, t)
    ensures InvWear(w, s0, lost, t)
  {
    hide SegmentsFit;
  }

  /** A file that cannot be flashed completely leaves programming stuck from its start. */
  lemma StuckAtFirst(w: World, s0: State, path: string, pc: Pc)
    requires pc.Program? && pc.at == 0 && w.Loads(path, pc.segs) && !FileFits(w, path, |s0.mem|)
    ensures Stuck(pc, |s0.mem|)
  {
    hide FileFits;
    LoadedFit(w, path, pc.segs, |s0.mem|);
  }

  lemma WearErase(w: World, s0: State, lost: set<KeyOp>, s: State, t: State)
    requires InvWear(w, s0, lost, s) && Kept(w, s0, lost) && s.pc.Erase? && BootStep(w, s, t, lost)
    ensures InvWear(w, s0, lost, t)
  {
    hide Stuck, FileFits;
    if DeleteKey(0) in lost && t.pc.Program? {
      StuckAtFirst(w, s0, s.keys.image.value, t.pc);
    } else {
      NotStuck(t.pc, |t.mem|);
    }
  }

  lemma NotStuck(pc: Pc, limit: nat)
    ensures !pc.Program? ==> Stuck(pc, limit)
  {
  }

  lemma WearProgram(w: World, s0: State, lost: set<KeyOp>, s: State, t: State)
    requires InvWear(w, s0, lost, s) && Kept(w, s0, lost) && s.pc.Program? && BootStep(w, s, t, lost)
    ensures InvWear(w, s0, lost, t)
  {
    hide Stuck, FileFits, SegmentsFit;
    var segs, at := s.pc.segs, s.pc.at;
    if DeleteKey(0) in lost {
      StuckStep(s.pc, |s.mem|);
    }
    if t.pc.Program? {
      if !(t.pc == Program(s.pc.round, segs, at + 1)) {
        assert s.pc.round == 0;
        StuckAfter(w, s0, lost, s, t);
      }
    } else {
      NotStuck(t.pc, |t.mem|);
    }
  }

  lemma StuckStep(pc: Pc, limit: nat)
    requires pc.Program? && Stuck(pc, limit)
    ensures pc.at < |pc.segs|
    ensures pc.segs[pc.at].addr + |pc.segs[pc.at].data| <= limit ==> Stuck(pc.(at := pc.at + 1), limit)
  {
    assert pc.segs[..|pc.segs|] == pc.segs;
  }

  /** No first round fails over into programming at once, the area being at least a byte long. */
  lemma StuckAfter(w: World, s0: State, lost: set<KeyOp>, s: State, t: State)
    requires InvWear(w, s0, lost, s) && s.pc.Program? && BootStep(w, s, t, lost)
    ensures t.pc.Program? ==> t.pc == Program(s.pc.round, s.pc.segs, s.pc.at + 1)
  {
    hide Stuck, FileFits, SegmentsFit;
  }

  lemma WearKeys(w: World, s0: State, lost: set<KeyOp>, s: State, t: State)
    requires InvWear(w, s0, lost, s) && Kept(w, s0, lost) && !InFlight(s.pc) && BootStep(w, s, t, lost)
    ensures InvWear(w, s0, lost, t)
  {
    hide FileFits, SegmentsFit;
  }

  lemma WearStepKeeps(w: World, s0: State, lost: set<KeyOp>, s: State, t: State)
    requires InvWear(w, s0, lost, s) && Kept(w, s0, lost) && Step(w, s, t, lost)
    ensures InvWear(w, s0, lost, t)
    ensures s.keys.image.Some? && t.keys.image.Some? ==> Attempts(s.keys) <= Attempts(t.keys)
  {
    hide FileFits, SegmentsFit;
    if PowerCut(w, s, t) {
      WearPowerCut(w, s0, lost, s, t);
    } else if s.pc.Erase? {
      WearErase(w, s0, lost, s, t);
    } else if s.pc.Program? {
      WearProgram(w, s0, lost, s, t);
    } else {
      WearKeys(w, s0, lost, s, t);
    }
  }

  /** Over any run that does not lose what wear rests on: the boots that begin erasing are at most
      the attempts left, and each block sees at most four erase calls for each of them. */
  lemma {:induction false} BoundedWear(w: World, run: seq<State>, lost: set<KeyOp>, n: nat, b: nat)
    requires IsRun(w, run, lost) && Initial(w, run[0]) && Kept(w, run[0], lost) && n < |run|
    ensures InvWear(w, run[0], lost, run[n])
    ensures run[n].boots <= AttemptsLeft(Attempts(run[0].keys))
    ensures run[n].erases[b] <= 4 * AttemptsLeft(Attempts(run[0].keys))
    decreases n
  {
    hide FileFits, SegmentsFit;
    if n > 0 {
      BoundedWear(w, run, lost, n - 1, b);
      WearStepKeeps(w, run[0], lost, run[n - 1], run[n]);
    }
  }

  /** From a counter at zero or above, that is ten boots and forty erase calls a block. */
  lemma TenBootsFortyErases(w: World, run: seq<State>, lost: set<KeyOp>, n: nat, b: nat)
    requires IsRun(w, run, lost) && Initial(w, run[0]) && Kept(w, run[0], lost) && n < |run|
    requires Attempts(run[0].keys) >= 0
    ensures run[n].boots <= 10 && run[n].erases[b] <= 40
  {
    BoundedWear(w, run, lost, n, b);
  }

  /** While the update stays armed the counter never goes down. */
  lemma AttemptsNeverDecrease(w: World, run: seq<State>, lost: set<KeyOp>, n: nat)
    requires IsRun(w, run, lost) && Initial(w, run[0]) && Kept(w, run[0], lost) && n + 1 < |run|
    requires run[n].keys.image.Some? && run[n + 1].keys.image.Some?
    ensures Attempts(run[n].keys) <= Attempts(run[n + 1].keys)
  {
    BoundedWear(w, run, lost, n, 0);
    WearStepKeeps(w, run[0], lost, run[n], run[n + 1]);
  }
}
