/** The update protocol of the bootloader as a step relation over what survives a power cut
    (the config keys and the flash) and the program point, with power cuts between and inside
    steps and flash commands that fail. */
module BootProtocol {
  import opened Words
  import opened Mbin
  import opened Flash

  const MAX_UPDATE_ATTEMPTS: int := 10

  const SIGNATURE_LENGTH: nat := 32

  const PATH_SIZE: nat := 128

  datatype Keys = Keys(
    image: Option<string>,
    attempts: Option<int>,
    signature: Option<seq<byte>>,
    error: Option<Code>)

  /** What no boot changes: the platform, the flash blocks, the files and the hash. */
  datatype World = World(
    p: Platform,
    blocks: map<nat, nat>,
    files: map<string, seq<byte>>,
    sha256: seq<byte> -> seq<byte>)
  {
    /** The linker script is right: blocks tile the area, inside the flash, and the last one ends
        below 2^32 (`ErasingEndsExactlyBelowWrap` says what depends on that). */
    predicate Fits(mem: seq<byte>) {
      && p.Valid()
      && |mem| <= U32
      && Tiles(blocks, p.appStart, p.appEnd, |mem|)
    }

    function Top(mem: seq<byte>): (r: nat)
      requires Fits(mem)
      ensures p.appEnd <= r <= |mem|
    {
      Cover(blocks, p.appStart, p.appEnd, |mem|)
    }

    function Area(mem: seq<byte>): seq<byte>
      requires Fits(mem)
    {
      assert p.appEnd <= Top(mem) <= |mem|;
      mem[p.appStart..p.appEnd]
    }

    /** The signature check, on the first 32 bytes of the stored signature and the file
        `path`. */
    function Verify(keys: Keys, path: string): Code {
      if keys.signature.None? || |keys.signature.value| < SIGNATURE_LENGTH then SignatureNotFound
      else if path !in files then FileNotFound
      else if sha256(files[path]) != keys.signature.value[..SIGNATURE_LENGTH] then FileVerificationFailed
      else Ok
    }

    /** The verdict of the dry run. */
    function DryRun(path: string): Code {
      if path !in files then FileNotFound else Load(p, files[path], Blank()).code
    }

    /** The first failed check, or `Ok`. */
    function Check(keys: Keys, path: string): Code {
      if Verify(keys, path) != Ok then Verify(keys, path) else DryRun(path)
    }

    /** The segments that a real run of the loader may write: those of the file, over whatever
        the segment buffer held. */
    ghost predicate Loads(path: string, segs: seq<Segment>) {
      path in files && exists buf: Buffer :: segs == Load(p, files[path], buf).segments
    }

    /** The content of the application area once `segs` are stored over erased flash. */
    function ImageArea(segs: seq<Segment>, mem: seq<byte>): seq<byte>
      requires Fits(mem)
    {
      Area(Fold(seq(|mem|, _ => ERASE_VALUE), segs))
    }

    /** `area` is a complete new image of the update file `path`. */
    ghost predicate NewImage(path: string, mem: seq<byte>)
      requires Fits(mem)
    {
      && DryRun(path) == Ok
      && exists segs :: Loads(path, segs) && Area(mem) == ImageArea(segs, mem)
    }
  }

  /** UPDATE_IMAGE is set, to a string that fits the path buffer with its terminator; the empty
      string does. */
  predicate Armed(keys: Keys) {
    keys.image.Some? && |keys.image.value| + 1 <= PATH_SIZE
  }

  function Attempts(keys: Keys): int {
    if keys.attempts.Some? then keys.attempts.value else 0
  }

  datatype Pc =
    | Start                                            // entry of main
    | LogError(code: Code, halt: bool)                 // about to write BOOTLOADER_ERROR
    | CountAttempt                                     // about to write UPDATE_ATTEMPTS
    | Erase(round: nat, addr: nat, tries: nat)         // about to erase the block at addr
    | Program(round: nat, segs: seq<Segment>, at: nat) // about to write segs[at]
    | Delete(key: nat)                                 // about to delete the key-th key
    | Reset                                            // about to reset
    | Jumped                                           // the application runs
    | Halted                                           // blinking in update_failed

  /** `erases` counts the erase calls by block, `boots` the boots that began erasing. */
  datatype State = State(keys: Keys, mem: seq<byte>, pc: Pc, erases: multiset<nat>, boots: nat)

  // ---------------------------------------------------------------------------------------
  // Steps
  // ---------------------------------------------------------------------------------------

  /** The operations on the key store.  One that may be lost can have no effect and say nothing. */
  datatype KeyOp = StoreError | StoreAttempts | DeleteKey(key: nat)

  /** A key operation: done, or, if it may be lost, silently not done. */
  ghost predicate KeyStep(s: State, t: State, keys: Keys, op: KeyOp, lost: set<KeyOp>) {
    && t.mem == s.mem && t.erases == s.erases
    && (t.keys == keys || (op in lost && t.keys == s.keys))
  }

  ghost predicate Decide(w: World, s: State, t: State) {
    && t == s.(pc := t.pc)
    && if !Armed(s.keys) then t.pc == Jumped
       else if w.Check(s.keys, s.keys.image.value) != Ok then
         t.pc == LogError(w.Check(s.keys, s.keys.image.value), false)
       else if Attempts(s.keys) >= MAX_UPDATE_ATTEMPTS then t.pc == LogError(TooManyAttempts, true)
       else t.pc == CountAttempt
  }

  /** Every byte of `[from, to)` reads as erased. */
  ghost predicate Erased(mem: seq<byte>, from: nat, to: nat) {
    forall i :: from <= i < to && i < |mem| ==> mem[i] == ERASE_VALUE
  }

  /** After a block: the next one, or the real run of the loader. */
  ghost predicate AfterErase(w: World, s: State, round: nat, addr: nat, pc: Pc) {
    if addr < w.p.appEnd then pc == Erase(round, addr, 0)
    else Armed(s.keys) && pc.Program? && pc == Program(round, pc.segs, 0) && w.Loads(s.keys.image.value, pc.segs)
  }

  ghost predicate EraseStep(w: World, s: State, t: State, round: nat, addr: nat, tries: nat) {
    && addr in w.blocks && addr + w.blocks[addr] <= |s.mem|
    && t.keys == s.keys && t.boots == s.boots && t.erases == s.erases + multiset{addr}
    && SameOutside(s.mem, t.mem, addr, addr + w.blocks[addr])
    && (|| (&& Erased(t.mem, addr, addr + w.blocks[addr])
            && AfterErase(w, s, round, addr + w.blocks[addr], t.pc))
        || t.pc == (if tries == 0 then Erase(round, addr, 1) else LogError(EraseFailed, true)))
  }

  /** The loader came back with something other than `Ok`. */
  ghost predicate AfterFailedLoad(w: World, s: State, round: nat, code: Code, pc: Pc) {
    if round == 0 then AfterErase(w, s, 1, w.p.appStart, pc) else pc == LogError(code, true)
  }

  ghost predicate ProgramStep(w: World, s: State, t: State, round: nat, segs: seq<Segment>, at: nat) {
    && t.keys == s.keys && t.boots == s.boots && t.erases == s.erases
    && if at < |segs| then
         || (&& segs[at].addr + |segs[at].data| <= |s.mem|
             && t.mem == Store(s.mem, segs[at]) && t.pc == Program(round, segs, at + 1))
         || (SameOutside(s.mem, t.mem, segs[at].addr, segs[at].addr + |segs[at].data|)
             && AfterFailedLoad(w, s, round, ProgramFailed, t.pc))
       else
         && t.mem == s.mem
         && Armed(s.keys)
         && var code := w.DryRun(s.keys.image.value);
            if code == Ok then t.pc == Delete(0) else AfterFailedLoad(w, s, round, code, t.pc)
  }

  function Deleted(keys: Keys, key: nat): Keys {
    match key
    case 0 => keys.(image := None)
    case 1 => keys.(attempts := None)
    case 2 => keys.(signature := None)
    case _ => keys.(error := None)
  }

  /** One step of the bootloader. */
  ghost predicate BootStep(w: World, s: State, t: State, lost: set<KeyOp>) {
    match s.pc
    case Start => Decide(w, s, t)
    case LogError(code, halt) =>
      && KeyStep(s, t, s.keys.(error := Some(code)), StoreError, lost) && t.boots == s.boots
      && t.pc == if halt then Halted else Jumped
    case CountAttempt =>
      && KeyStep(s, t, s.keys.(attempts := Some(Attempts(s.keys) + 1)), StoreAttempts, lost)
      && t.boots == s.boots + 1
      && t.pc == Erase(0, w.p.appStart, 0)
    case Erase(round, addr, tries) => EraseStep(w, s, t, round, addr, tries)
    case Program(round, segs, at) => ProgramStep(w, s, t, round, segs, at)
    case Delete(key) =>
      && KeyStep(s, t, Deleted(s.keys, key), DeleteKey(key), lost) && t.boots == s.boots
      && t.pc == if key < 3 then Delete(key + 1) else Reset
    case Reset => t == s.(pc := Start)
    case Jumped => false
    case Halted => false
  }

  /** A power cut, or a restart of the running application.  It may strike inside a flash
      command, and then the range of that command holds anything. */
  ghost predicate PowerCut(w: World, s: State, t: State) {
    && t.pc == Start && t.keys == s.keys && t.boots == s.boots
    && match s.pc
       case Erase(_, addr, _) =>
         && addr in w.blocks && addr + w.blocks[addr] <= |s.mem|
         && SameOutside(s.mem, t.mem, addr, addr + w.blocks[addr])
         && (t.erases == s.erases || t.erases == s.erases + multiset{addr})
       case Program(_, segs, at) =>
         && t.erases == s.erases
         && if at < |segs| then SameOutside(s.mem, t.mem, segs[at].addr, segs[at].addr + |segs[at].data|)
            else t.mem == s.mem
       case _ => t.mem == s.mem && t.erases == s.erases
  }

  /** The power can go in any state, and inside a flash command it leaves anything in the range
      of that command. */
  lemma PowerGoesAnywhere(w: World, s: State, junk: seq<byte>)
    requires s.pc.Erase? ==> s.pc.addr in w.blocks && s.pc.addr + |junk| <= |s.mem| && |junk| == w.blocks[s.pc.addr]
    requires s.pc.Program? && s.pc.at < |s.pc.segs| ==>
               var seg := s.pc.segs[s.pc.at]; |junk| == |seg.data| && seg.addr + |junk| <= |s.mem|
    ensures var mem := match s.pc
                       case Erase(_, addr, _) => Patch(s.mem, addr, junk)
                       case Program(_, segs, at) => if at < |segs| then Patch(s.mem, segs[at].addr, junk) else s.mem
                       case _ => s.mem;
            PowerCut(w, s, s.(mem := mem, pc := Start))
  {
  }

  ghost predicate Step(w: World, s: State, t: State, lost: set<KeyOp>) {
    BootStep(w, s, t, lost) || PowerCut(w, s, t)
  }

  /** A run of any length. */
  ghost predicate IsRun(w: World, run: seq<State>, lost: set<KeyOp>) {
    && run != []
    && forall i :: 0 < i < |run| ==> Step(w, run[i - 1], run[i], lost)
  }

  /** A run begins at the entry of main, with counters at zero. */
  ghost predicate Initial(w: World, s: State) {
    w.Fits(s.mem) && s.pc == Start && s.erases == multiset{} && s.boots == 0
  }
}
