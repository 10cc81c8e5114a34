/** Which key operations bounded wear rests on: exactly the store of the counter, and the deletion
    of UPDATE_IMAGE where an update can get that far. */
module BootLoss {
  import opened Words
  import opened Mbin
  import opened Flash
  import opened BootProtocol
  import opened BootSafety
  import opened BootWear
  import B = Bootloader

  /** Some run leads from `s` to `t`. */
  ghost predicate Leads(w: World, lost: set<KeyOp>, s: State, t: State) {
    exists run :: Joins(w, lost, run, s, t)
  }

  ghost predicate Joins(w: World, lost: set<KeyOp>, run: seq<State>, s: State, t: State) {
    IsRun(w, run, lost) && run[0] == s && run[|run| - 1] == t
  }

  /** No block is erased more often than `bound`, wherever a run from `s0` leads. */
  ghost predicate WearWithin(w: World, s0: State, lost: set<KeyOp>, bound: nat) {
    forall t, b: nat :: Leads(w, lost, s0, t) ==> t.erases[b] <= bound
  }

  /** The bootloader takes the update up. */
  ghost predicate TakesUp(w: World, s: State) {
    && w.Fits(s.mem) && s.pc == Start && Armed(s.keys)
    && w.Check(s.keys, s.keys.image.value) == Ok && Attempts(s.keys) < MAX_UPDATE_ATTEMPTS
  }

  // ---------------------------------------------------------------------------------------
  // Runs
  // ---------------------------------------------------------------------------------------

  /** A step without losses is a step with them. */
  lemma LosslessStep(w: World, s: State, t: State, lost: set<KeyOp>)
    requires BootStep(w, s, t, {})
    ensures Step(w, s, t, lost)
  {
  }

  lemma LeadsRefl(w: World, lost: set<KeyOp>, s: State)
    ensures Leads(w, lost, s, s)
  {
    assert Joins(w, lost, [s], s, s);
  }

  lemma LeadsStep(w: World, lost: set<KeyOp>, s: State, t: State, u: State)
    requires Leads(w, lost, s, t) && Step(w, t, u, lost)
    ensures Leads(w, lost, s, u)
  {
    hide Step;
    var run :| Joins(w, lost, run, s, t);
    assert Joins(w, lost, run + [u], s, u);
  }

  /** A boot without a power cut, and without losses, at the end. */
  lemma LeadsBoot(w: World, lost: set<KeyOp>, s: State, t: State, u: State)
    requires Leads(w, lost, s, t) && B.Reaches(w, t, u)
    ensures Leads(w, lost, s, u)
  {
    hide Step, BootStep;
    var run :| Joins(w, lost, run, s, t);
    var boot :| B.IsBoot(w, boot) && boot[0] == t && boot[|boot| - 1] == u;
    var longer := run + boot[1..];
    forall i | 0 < i < |longer| ensures Step(w, longer[i - 1], longer[i], lost) {
      if i >= |run| {
        var j := i - |run| + 1;
        assert longer[i] == boot[j] && longer[i - 1] == boot[j - 1];
        LosslessStep(w, boot[j - 1], boot[j], lost);
      }
    }
    assert Joins(w, lost, longer, s, u);
  }

  // ---------------------------------------------------------------------------------------
  // Wear without bound
  // ---------------------------------------------------------------------------------------

  /** If the store of the counter may be lost: a boot that is cut short in its first erase comes
      back with the counter as it was. */
  lemma {:induction false} LostCounterWritesWearWithoutBound(w: World, s: State, lost: set<KeyOp>, k: nat)
    returns (t: State)
    requires TakesUp(w, s) && StoreAttempts in lost
    ensures Leads(w, lost, s, t) && TakesUp(w, t)
    ensures t.erases[w.p.appStart] == s.erases[w.p.appStart] + k
    decreases k
  {
    hide Leads, TakesUp;
    if k == 0 {
      t := s;
      LeadsRefl(w, lost, s);
    } else {
      var u := LostCounterWritesWearWithoutBound(w, s, lost, k - 1);
      t := CounterLost(w, s, u, lost);
    }
  }

  lemma CounterLost(w: World, s0: State, s: State, lost: set<KeyOp>) returns (t: State)
    requires Leads(w, lost, s0, s) && StoreAttempts in lost && TakesUp(w, s)
    ensures Leads(w, lost, s0, t) && TakesUp(w, t)
    ensures t == s.(boots := s.boots + 1, erases := s.erases + multiset{w.p.appStart})
  {
    hide Leads;
    CoverStep(w.blocks, w.p.appStart, w.p.appEnd, |s.mem|);
    var s1 := s.(pc := CountAttempt);
    var s2 := s.(pc := Erase(0, w.p.appStart, 0), boots := s.boots + 1);
    t := s2.(pc := Start, erases := s.erases + multiset{w.p.appStart});
    assert BootStep(w, s, s1, lost) && BootStep(w, s1, s2, lost) && PowerCut(w, s2, t);
    LeadsStep(w, lost, s0, s, s1);
    LeadsStep(w, lost, s0, s1, s2);
    LeadsStep(w, lost, s0, s2, t);
  }

  function AllWork(): Hardware {
    _ => Works
  }

  /** If the deletion of UPDATE_IMAGE may be lost: a boot that completes the update, loses it,
      deletes the counter and is cut short then comes back armed, with the counter at zero. */
  lemma DeletionLost(w: World, s0: State, s: State, lost: set<KeyOp>) returns (t: State)
    requires Leads(w, lost, s0, s) && DeleteKey(0) in lost && TakesUp(w, s)
    requires FileFits(w, s.keys.image.value, |s.mem|)
    ensures Leads(w, lost, s0, t) && TakesUp(w, t)
    ensures t.keys == s.keys.(attempts := None) && |t.mem| == |s.mem|
    ensures t.erases[w.p.appStart] > s.erases[w.p.appStart]
  {
    hide Leads, BootStep, PowerCut, FileFits, B.RoundRun, Step, B.Reaches;
    var counted := s.keys.(attempts := Some(Attempts(s.keys) + 1));
    var s1 := State(counted, s.mem, Erase(0, w.p.appStart, 0), s.erases, s.boots + 1);
    B.CountPath(w, s);
    LeadsBoot(w, lost, s0, s, s1);
    var s2 := RoundCompletes(w, s1);
    LeadsBoot(w, lost, s0, s1, s2);
    var s3, s4, s5 := CleanUpLost(w, s2, lost);
    LeadsStep(w, lost, s0, s2, s3);
    LeadsStep(w, lost, s0, s3, s4);
    LeadsStep(w, lost, s0, s4, s5);
    t := s5;
  }

  /** A round on hardware that takes every command. */
  lemma RoundCompletes(w: World, s: State) returns (t: State)
    requires w.Fits(s.mem) && Armed(s.keys) && s.pc == Erase(0, w.p.appStart, 0)
    requires w.Check(s.keys, s.keys.image.value) == Ok && FileFits(w, s.keys.image.value, |s.mem|)
    ensures B.Reaches(w, s, t)
    ensures t.pc == Delete(0) && t.keys == s.keys && |t.mem| == |s.mem| && t.boots == s.boots
    ensures t.erases[w.p.appStart] > s.erases[w.p.appStart]
  {
    hide FileFits, B.RoundRun, B.Reaches;
    var path := s.keys.image.value;
    B.RoundPath(w, s, AllWork(), 0, Blank());
    B.RoundWorks(w, path, s.mem, AllWork(), 0, Blank());
    RoundErases(w, path, s.mem, AllWork(), 0, Blank());
    var r := B.RoundRun(w, path, s.mem, AllWork(), 0, Blank());
    t := State(s.keys, r.mem, Delete(0), s.erases + r.erases, s.boots);
  }

  lemma CleanUpLost(w: World, s: State, lost: set<KeyOp>) returns (a: State, b: State, c: State)
    requires s.pc == Delete(0) && DeleteKey(0) in lost
    ensures Step(w, s, a, lost) && Step(w, a, b, lost) && Step(w, b, c, lost)
    ensures c == s.(keys := s.keys.(attempts := None), pc := Start)
  {
    a := s.(pc := Delete(1));
    b := s.(keys := s.keys.(attempts := None), pc := Delete(2));
    c := b.(pc := Start);
    assert BootStep(w, s, a, lost) && BootStep(w, a, b, lost) && PowerCut(w, b, c);
  }

  /** A round erases the first block at least once. */
  lemma RoundErases(w: World, path: string, mem: seq<byte>, hw: Hardware, ops: nat, buf: Buffer)
    requires w.Fits(mem) && path in w.files
    ensures B.RoundRun(w, path, mem, hw, ops, buf).erases[w.p.appStart] > 0
  {
    hide EraseFrom, Load, ProgramAll;
    EraseUnfold(w.blocks, mem, w.p.appStart, w.p.appEnd, hw, ops);
  }

  lemma {:induction false} LostDeletionWearsWithoutBound(w: World, s: State, lost: set<KeyOp>, k: nat)
    returns (t: State)
    requires TakesUp(w, s) && DeleteKey(0) in lost && Armed(s.keys) && FileFits(w, s.keys.image.value, |s.mem|)
    ensures Leads(w, lost, s, t) && TakesUp(w, t) && t.keys.image == s.keys.image && |t.mem| == |s.mem|
    ensures t.erases[w.p.appStart] >= s.erases[w.p.appStart] + k
    decreases k
  {
    hide Leads, FileFits, TakesUp;
    if k == 0 {
      t := s;
      LeadsRefl(w, lost, s);
    } else {
      var u := LostDeletionWearsWithoutBound(w, s, lost, k - 1);
      t := DeletionLost(w, s, u, lost);
    }
  }

  /** Exactly when wear is bounded, over all runs from a state in which the bootloader takes an
      update up: when the store of the counter is never lost, and the deletion of UPDATE_IMAGE
      never lost or never reached. */
  lemma WearBoundedExactly(w: World, s0: State, lost: set<KeyOp>)
    requires Initial(w, s0) && TakesUp(w, s0)
    ensures (exists bound: nat :: WearWithin(w, s0, lost, bound)) <==> Kept(w, s0, lost)
  {
    hide FileFits, Leads, Kept;
    if Kept(w, s0, lost) {
      var bound: nat := 4 * AttemptsLeft(Attempts(s0.keys));
      forall t, b: nat | Leads(w, lost, s0, t) ensures t.erases[b] <= bound {
        LedIsBounded(w, s0, lost, t, b);
      }
      assert WearWithin(w, s0, lost, bound);
    } else {
      forall bound: nat ensures !WearWithin(w, s0, lost, bound) {
        var t := WornBeyond(w, s0, lost, bound);
      }
    }
  }

  lemma LedIsBounded(w: World, s0: State, lost: set<KeyOp>, t: State, b: nat)
    requires Initial(w, s0) && Kept(w, s0, lost) && Leads(w, lost, s0, t)
    ensures t.erases[b] <= 4 * AttemptsLeft(Attempts(s0.keys))
  {
    hide FileFits, Step;
    var run :| Joins(w, lost, run, s0, t);
    BoundedWear(w, run, lost, |run| - 1, b);
  }

  lemma WornBeyond(w: World, s0: State, lost: set<KeyOp>, bound: nat) returns (t: State)
    requires TakesUp(w, s0) && !Kept(w, s0, lost)
    ensures Leads(w, lost, s0, t) && t.erases[w.p.appStart] > bound
  {
    hide FileFits, Leads;
    if StoreAttempts in lost {
      t := LostCounterWritesWearWithoutBound(w, s0, lost, bound + 1);
    } else {
      t := LostDeletionWearsWithoutBound(w, s0, lost, bound + 1);
    }
  }
}
