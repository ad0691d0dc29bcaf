/** The double meta page: `meta.go`, and the commits of `db.go` that swap it. */
module MetaPages {
  import opened Bytes
  import opened TreeModel
  import opened PageKeys
  import opened Record
  import opened PageBytes

  const META_VERSION: nat := 1
  const FREELIST_LINKED: byte := 0
  const FREELIST_TREE: byte := 1
  const U64: nat := 0x1_0000_0000_0000_0000

  /** The roots that a commit records, and the size of the file. */
  datatype Roots = Roots(pageCount: nat, freelist: PageId, tree: PageId, modules: PageId, tags: PageId, files: PageId, types: PageId)

  datatype Meta = Meta(version: nat, generation: nat, format: byte, schema: nat, roots: Roots)

  // ---------- two slots ----------

  /** What the two pages decode to: nothing when the checksum does not match. */
  datatype Slots = Slots(a: Option<Meta>, b: Option<Meta>)

  datatype MetaSlot = SlotA | SlotB

  function InSlot(s: Slots, slot: MetaSlot): Option<Meta> {
    if slot.SlotA? then s.a else s.b
  }

  function Set(s: Slots, slot: MetaSlot, m: Option<Meta>): Slots {
    if slot.SlotA? then s.(a := m) else s.(b := m)
  }

  function Other(slot: MetaSlot): MetaSlot {
    if slot.SlotA? then SlotB else SlotA
  }

  /** Which pages could be read. */
  datatype Readable = Readable(a: bool, b: bool)

  const BOTH: Readable := Readable(true, true)

  function Seen(s: Slots, r: Readable): Slots {
    Slots(if r.a then s.a else None, if r.b then s.b else None)
  }

  /** The slot in force: the valid one, or the newer of two, slot A if they are
      equally new. */
  function Active(s: Slots): (slot: MetaSlot)
    requires s.a.Some? || s.b.Some?
    ensures InSlot(s, slot).Some?
    ensures InSlot(s, Other(slot)).Some? ==> InSlot(s, Other(slot)).value.generation <= InSlot(s, slot).value.generation
  {
    if s.a.None? then SlotB
    else if s.b.None? then SlotA
    else if s.b.value.generation > s.a.value.generation then SlotB else SlotA
  }

  /** `loadMeta`. */
  function Loaded(s: Slots): Option<Meta> {
    if s.a.None? && s.b.None? then None else InSlot(s, Active(s))
  }

  /** The slot that `swapMeta` writes. */
  function Target(s: Slots): MetaSlot {
    if s.a.None? then SlotA
    else if s.b.None? then SlotB
    else if s.b.value.generation <= s.a.value.generation then SlotB else SlotA
  }

  /** A swap overwrites the slot in force exactly when it cannot read it and
      does not find slot A invalid first. */
  lemma TargetIsActive(s: Slots, r: Readable)
    requires Loaded(s).Some?
    ensures Target(Seen(s, r)) == Active(s) <==> if Active(s).SlotA? then !r.a else !r.b && r.a && s.a.Some?
  {
  }

  /** How an interrupted write leaves its slot. */
  datatype Left = Old | New | Torn

  function Written(was: Option<Meta>, m: Meta, left: Left): Option<Meta> {
    match left case Old => was case New => Some(m) case Torn => None
  }

  /** The slots after `swapMeta`. */
  function Swapped(s: Slots, r: Readable, m: Meta, left: Left): Slots {
    var t := Target(Seen(s, r));
    Set(s, t, Written(InSlot(s, t), m, left))
  }

  /** A swap that can read both slots and leaves its slot old or torn changes
      nothing that `loadMeta` sees; so some slot is valid all along. */
  lemma InterruptedSwapIsHarmless(s: Slots, m: Meta, left: Left)
    requires Loaded(s).Some? && !left.New?
    ensures Loaded(Swapped(s, BOTH, m, left)) == Loaded(s)
  {
    TargetIsActive(s, BOTH);
  }

  /** A completed swap takes hold exactly when it raises the generation; at an
      equal generation slot A wins. */
  lemma SwapTakesHold(s: Slots, m: Meta)
    requires Loaded(s).Some?
    ensures var now := Loaded(s).value;
            Loaded(Swapped(s, BOTH, m, New)) == Some(m) <==>
            m.generation > now.generation || (m.generation == now.generation && Target(s).SlotA?) || m == now
  {
    TargetIsActive(s, BOTH);
  }

  /** Whatever can be read, a slot stays valid unless the write tears the only
      valid slot. */
  lemma SomeSlotStaysValid(s: Slots, r: Readable, m: Meta, left: Left)
    requires Loaded(s).Some?
    ensures Loaded(Swapped(s, r, m, left)).Some? <==>
            !(left.Torn? && Target(Seen(s, r)) == Active(s) && InSlot(s, Other(Active(s))).None?)
  {
  }

  // ---------- runs of commits ----------

  /** How a commit's swap ends: it completes, it fails and the program goes on,
      or the program stops and is started again, when `restart` can be read.  A
      start that finds no meta fails; the one after it can read both pages. */
  datatype Fate = Completes | Fails(left: Left) | Crashes(left: Left, restart: Readable)

  function LeftBy(f: Fate): Left {
    if f.Completes? then New else f.left
  }

  /** A commit: what it records, which pages its swap can read, how it ends. */
  datatype Commit = Commit(roots: Roots, seen: Readable, fate: Fate)

  /** The pages on disk, and the meta the open database works with. */
  datatype State = State(slots: Slots, meta: Meta)

  /** The meta that `commitMeta` writes; the generation has 64 bits. */
  function NextMeta(m: Meta, roots: Roots): Meta {
    Meta(META_VERSION, (m.generation + 1) % U64, FREELIST_TREE, m.schema, roots)
  }

  /** One commit, and the next start if it crashes. */
  function CommitStep(s: State, c: Commit): State {
    var slots := Swapped(s.slots, c.seen, NextMeta(s.meta, c.roots), LeftBy(c.fate));
    if c.fate.Completes? then State(slots, NextMeta(s.meta, c.roots))
    else if c.fate.Crashes? && Restarted(slots, c.fate.restart).Some? then State(slots, Restarted(slots, c.fate.restart).value)
    else State(slots, s.meta)
  }

  /** The meta that the program starts with again. */
  function Restarted(s: Slots, r: Readable): Option<Meta> {
    if Loaded(Seen(s, r)).Some? then Loaded(Seen(s, r)) else Loaded(s)
  }

  function RunCommits(s: State, steps: seq<Commit>): State {
    if steps == [] then s else
    var n := |steps| - 1;
    CommitStep(RunCommits(s, steps[..n]), steps[n])
  }

  lemma RunMore(s: State, steps: seq<Commit>, k: nat)
    requires k < |steps|
    ensures RunCommits(s, steps[..k + 1]) == CommitStep(RunCommits(s, steps[..k]), steps[k])
  {
    assert steps[..k + 1][..k] == steps[..k];
  }

  /** The database works with the meta that the disk would give it. */
  predicate InStep(s: State) {
    Loaded(s.slots) == Some(s.meta)
  }

  /** A single register that a commit writes all at once or not at all. */
  function Register(m: Meta, steps: seq<Commit>): Meta {
    if steps == [] then m else
    var n := |steps| - 1;
    Registered(Register(m, steps[..n]), steps[n])
  }

  function Registered(m: Meta, c: Commit): Meta {
    if LeftBy(c.fate).New? then NextMeta(m, c.roots) else m
  }

  lemma RegisterMore(m: Meta, steps: seq<Commit>, k: nat)
    requires k < |steps|
    ensures Register(m, steps[..k + 1]) == Registered(Register(m, steps[..k]), steps[k])
  {
    assert steps[..k + 1][..k] == steps[..k];
  }

  /** A write that fails after it reached the disk. */
  predicate FailsLate(f: Fate) {
    f == Fails(New)
  }

  predicate Reads(r: Readable, slot: MetaSlot) {
    if slot.SlotA? then r.a else r.b
  }

  /** After a crash the slot in force cannot be read, and the other one, which
      can, holds an older meta. */
  predicate Misreads(slots: Slots, c: Commit)
    requires Loaded(slots).Some?
  {
    c.fate.Crashes? &&
    match c.fate.left
    case New =>
      var t := Target(Seen(slots, c.seen));
      !Reads(c.fate.restart, t) && Reads(c.fate.restart, Other(t)) && InSlot(slots, Other(t)).Some?
    case Old =>
      var f := Active(slots);
      && !Reads(c.fate.restart, f) && Reads(c.fate.restart, Other(f))
      && InSlot(slots, Other(f)).Some? && InSlot(slots, Other(f)) != Loaded(slots)
    case Torn => false
  }

  /** The write is torn on the slot in force, which could not be read, while the
      other slot holds something else. */
  predicate TearsInForce(slots: Slots, c: Commit)
    requires Loaded(slots).Some?
  {
    && LeftBy(c.fate).Torn? && Target(Seen(slots, c.seen)) == Active(slots)
    && InSlot(slots, Other(Active(slots))) != Loaded(slots)
  }

  /** A commit that a register would not go through: its write fails late, or
      tears the slot in force, or the next start reads the older slot. */
  predicate Spoils(slots: Slots, c: Commit) {
    FailsLate(c.fate) || (Loaded(slots).Some? && (TearsInForce(slots, c) || Misreads(slots, c)))
  }

  /** One commit goes the way of a register if and only if it does not spoil. */
  lemma StepKeepsInStep(s: State, c: Commit)
    requires InStep(s) && s.meta.generation + 1 < U64
    ensures InStep(CommitStep(s, c)) && CommitStep(s, c).meta == Registered(s.meta, c) <==> !Spoils(s.slots, c)
  {
    var t := CommitStep(s, c);
    var target := Target(Seen(s.slots, c.seen));
    assert InSlot(t.slots, Other(target)) == InSlot(s.slots, Other(target));
    match LeftBy(c.fate)
    case New =>
      assert InSlot(t.slots, target) == Some(NextMeta(s.meta, c.roots));
      assert Loaded(t.slots) == Some(NextMeta(s.meta, c.roots));
    case Old =>
      assert t.slots == s.slots;
    case Torn =>
      assert InSlot(t.slots, target) == None;
  }

  /** What a completed commit wrote is what the next start loads. */
  lemma CompletesLoads(s: State, c: Commit)
    requires InStep(s) && s.meta.generation + 1 < U64 && c.fate.Completes?
    ensures Loaded(CommitStep(s, c).slots) == Some(CommitStep(s, c).meta)
  {
    StepKeepsInStep(s, c);
  }

  /** After every part of a run the database is in step with its disk and holds
      what a register would. */
  predicate AsRegister(s: State, steps: seq<Commit>, k: nat)
    requires k <= |steps|
  {
    InStep(RunCommits(s, steps[..k])) && RunCommits(s, steps[..k]).meta == Register(s.meta, steps[..k])
  }

  /** Two slots, crashes and torn writes behave as one register: all along a run
      of commits the disk holds the last meta completed, or the one that a crash
      had already written, if and only if no commit of the run spoils. */
  lemma RunIsRegister(s: State, steps: seq<Commit>)
    requires InStep(s) && s.meta.generation + |steps| < U64
    ensures (forall k: nat :: k <= |steps| ==> AsRegister(s, steps, k))
            <==> (forall k: nat :: k < |steps| ==> !Spoils(RunCommits(s, steps[..k]).slots, steps[k]))
  {
    hide InStep, Spoils, CommitStep, RunCommits, Register, AsRegister;
    if forall k: nat :: k <= |steps| ==> AsRegister(s, steps, k) {
      forall k: nat | k < |steps| ensures !Spoils(RunCommits(s, steps[..k]).slots, steps[k]) {
        assert AsRegister(s, steps, k) && AsRegister(s, steps, k + 1);
        RegisterStep(s, steps, k);
      }
    }
    if forall k: nat :: k < |steps| ==> !Spoils(RunCommits(s, steps[..k]).slots, steps[k]) {
      forall k: nat | k <= |steps| ensures AsRegister(s, steps, k) {
        UnspoiltRun(s, steps, k);
      }
    }
  }

  /** A register's generation grows by at most one a commit. */
  lemma {:induction false} RegisterBound(m: Meta, steps: seq<Commit>)
    requires m.generation + |steps| < U64
    ensures Register(m, steps).generation <= m.generation + |steps|
  {
    if steps != [] {
      RegisterBound(m, steps[..|steps| - 1]);
    }
  }

  lemma RegisterStep(s: State, steps: seq<Commit>, k: nat)
    requires k < |steps| && AsRegister(s, steps, k) && s.meta.generation + |steps| < U64
    ensures AsRegister(s, steps, k + 1) <==> !Spoils(RunCommits(s, steps[..k]).slots, steps[k])
  {
    RunMore(s, steps, k);
    RegisterMore(s.meta, steps, k);
    RegisterBound(s.meta, steps[..k]);
    StepKeepsInStep(RunCommits(s, steps[..k]), steps[k]);
    hide Spoils, CommitStep, RunCommits, Register, Registered, InStep;
  }

  lemma {:induction false} UnspoiltRun(s: State, steps: seq<Commit>, k: nat)
    requires k <= |steps| && InStep(s) && s.meta.generation + |steps| < U64
    requires forall j: nat :: j < |steps| ==> !Spoils(RunCommits(s, steps[..j]).slots, steps[j])
    ensures AsRegister(s, steps, k)
  {
    hide Spoils, CommitStep, InStep;
    if k == 0 {
      assert RunCommits(s, []) == s && Register(s.meta, []) == s.meta && steps[..0] == [];
    } else {
      UnspoiltRun(s, steps, k - 1);
      assert !Spoils(RunCommits(s, steps[..k - 1]).slots, steps[k - 1]);
      RegisterStep(s, steps, k - 1);
    }
  }

  /** A commit that tears slot A, which it could not read, while slot B is
      invalid. */
  predicate TearsTheLast(slots: Slots, c: Commit) {
    LeftBy(c.fate).Torn? && !c.seen.a && slots.b.None?
  }

  lemma StepKeepsASlot(s: State, c: Commit)
    requires Loaded(s.slots).Some?
    ensures Loaded(CommitStep(s, c).slots).Some? <==> !TearsTheLast(s.slots, c)
  {
    TargetIsActive(s.slots, c.seen);
    SomeSlotStaysValid(s.slots, c.seen, NextMeta(s.meta, c.roots), LeftBy(c.fate));
  }

  /** Whatever can be read, written and crashes: some slot is valid all along a
      run if and only if no commit of it tears the last valid slot. */
  lemma RunKeepsASlot(s: State, steps: seq<Commit>)
    requires Loaded(s.slots).Some?
    ensures (forall k: nat :: k <= |steps| ==> Loaded(RunCommits(s, steps[..k]).slots).Some?)
            <==> (forall k: nat :: k < |steps| ==> !TearsTheLast(RunCommits(s, steps[..k]).slots, steps[k]))
  {
    hide TearsTheLast, CommitStep, RunCommits, Loaded;
    if forall k: nat :: k <= |steps| ==> Loaded(RunCommits(s, steps[..k]).slots).Some? {
      forall k: nat | k < |steps| ensures !TearsTheLast(RunCommits(s, steps[..k]).slots, steps[k]) {
        assert Loaded(RunCommits(s, steps[..k]).slots).Some? && Loaded(RunCommits(s, steps[..k + 1]).slots).Some?;
        RunMore(s, steps, k);
        StepKeepsASlot(RunCommits(s, steps[..k]), steps[k]);
      }
    }
    if forall k: nat :: k < |steps| ==> !TearsTheLast(RunCommits(s, steps[..k]).slots, steps[k]) {
      forall k: nat | k <= |steps| ensures Loaded(RunCommits(s, steps[..k]).slots).Some? {
        UntornRun(s, steps, k);
      }
    }
  }

  lemma {:induction false} UntornRun(s: State, steps: seq<Commit>, k: nat)
    requires k <= |steps| && Loaded(s.slots).Some?
    requires forall j: nat :: j < |steps| ==> !TearsTheLast(RunCommits(s, steps[..j]).slots, steps[j])
    ensures Loaded(RunCommits(s, steps[..k]).slots).Some?
  {
    hide TearsTheLast, CommitStep, Loaded;
    if k == 0 {
      assert steps[..0] == [];
    } else {
      UntornRun(s, steps, k - 1);
      RunMore(s, steps, k - 1);
      assert !TearsTheLast(RunCommits(s, steps[..k - 1]).slots, steps[k - 1]);
      StepKeepsASlot(RunCommits(s, steps[..k - 1]), steps[k - 1]);
    }
  }

  /** After a swap that failed late, the database works with a meta older than
      the disk's, so that the next commit does not raise the generation: it
      takes hold exactly when the failed one went to slot B. */
  lemma AfterLateFailure(s: State, lost: Roots, kept: Roots)
    requires InStep(s) && s.meta.generation + 1 < U64
    ensures var t := CommitStep(CommitStep(s, Commit(lost, BOTH, Fails(New))), Commit(kept, BOTH, Completes));
            InStep(t) <==> Target(s.slots).SlotB? || lost == kept
  {
    var m := NextMeta(s.meta, lost);
    TargetIsActive(s.slots, BOTH);
    SwapTakesHold(s.slots, m);
    var u := CommitStep(s, Commit(lost, BOTH, Fails(New)));
    assert Loaded(u.slots) == Some(m);
    SwapTakesHold(u.slots, NextMeta(s.meta, kept));
  }

  /** The state of a new database. */
  function Fresh(pageCount: nat): State {
    var m := Meta(META_VERSION, 1, FREELIST_LINKED, 0, Roots(pageCount, 0, 0, 0, 0, 0, 0));
    State(Slots(Some(m), Some(m)), m)
  }

  /** Three commits on a new database, the second of which fails late: the
      third completes, and the next start finds the second. */
  lemma LateFailureLosesACommit(pageCount: nat, first: Roots, lost: Roots, kept: Roots)
    requires lost != kept
    ensures var t := RunCommits(Fresh(pageCount),
                                [Commit(first, BOTH, Completes), Commit(lost, BOTH, Fails(New)), Commit(kept, BOTH, Completes)]);
            t.meta.roots == kept && Loaded(t.slots).Some? && Loaded(t.slots).value.roots == lost
  {
    var s := Fresh(pageCount);
    var a, b, c := Commit(first, BOTH, Completes), Commit(lost, BOTH, Fails(New)), Commit(kept, BOTH, Completes);
    assert [a, b, c][..2] == [a, b] && [a, b][..1] == [a] && [a][..0] == [];
    assert RunCommits(s, [a]) == CommitStep(s, a);
    assert RunCommits(s, [a, b]) == CommitStep(CommitStep(s, a), b);
  }

  // ---------- the open database ----------

  /** The meta pages of a data file, and the database that has it open. */
  class MetaFile {
    var slots: Slots
    var meta: Meta

    /** The state as a value. */
    function Here(): State
      reads this
    {
      State(slots, meta)
    }

    /** `initMeta`. */
    constructor (pageCount: nat)
      ensures Here() == Fresh(pageCount) && InStep(Here())
      ensures slots == Slots(Some(meta), Some(meta))
      ensures meta.version == 1 && meta.generation == 1 && meta.format == 0 && meta.schema == 0
      ensures meta.roots == Roots(pageCount, 0, 0, 0, 0, 0, 0)
    {
      var m := Meta(META_VERSION, 1, FREELIST_LINKED, 0, Roots(pageCount, 0, 0, 0, 0, 0, 0));
      slots, meta := Slots(Some(m), Some(m)), m;
    }

    /** `loadMeta`: the newest of the metas that can be read and are valid. */
    method LoadMeta(r: Readable) returns (m: Option<Meta>)
      ensures m == Loaded(Seen(slots, r))
      ensures m.Some? <==> (r.a && slots.a.Some?) || (r.b && slots.b.Some?)
      ensures m.Some? ==> (r.a && slots.a == m) || (r.b && slots.b == m)
      ensures m.Some? && r.a && slots.a.Some? ==> slots.a.value.generation <= m.value.generation
      ensures m.Some? && r.b && slots.b.Some? ==> slots.b.value.generation <= m.value.generation
      ensures m.Some? && r.a && slots.a.Some? && slots.a.value.generation == m.value.generation ==> m == slots.a
    {
      var a := if r.a then slots.a else None;
      var b := if r.b then slots.b else None;
      if a.None? && b.None? {
        return None;
      }
      if a.None? {
        return b;
      }
      if b.None? {
        return a;
      }
      if b.value.generation > a.value.generation {
        return b;
      }
      return a;
    }

    /** `swapMeta`, whose write may leave its slot in any of three ways. */
    method SwapMeta(m: Meta, r: Readable, left: Left)
      modifies this`slots
      ensures slots == Swapped(old(slots), r, m, left)
      ensures var a, b := old(slots.a), old(slots.b);
              if !(r.a && a.Some?) || (r.b && b.Some? && a.value.generation < b.value.generation) then
                slots.b == b && slots.a == match left case Old => a case New => Some(m) case Torn => None
              else
                slots.a == a && slots.b == match left case Old => b case New => Some(m) case Torn => None
    {
      var validA, validB := r.a && slots.a.Some?, r.b && slots.b.Some?;
      var targetSlot;
      if !validA {
        targetSlot := SlotA;
      } else if !validB {
        targetSlot := SlotB;
      } else if slots.b.value.generation <= slots.a.value.generation {
        targetSlot := SlotB;
      } else {
        targetSlot := SlotA;
      }
      slots := Set(slots, targetSlot, Written(InSlot(slots, targetSlot), m, left));
    }

    /** `commitMeta`; the file is opened again after a crash. */
    method CommitMeta(c: Commit) returns (ok: bool)
      modifies this
      ensures Here() == CommitStep(old(Here()), c)
      ensures ok <==> c.fate.Completes?
      ensures ok ==>
                && meta.version == 1 && meta.format == 1 && meta.schema == old(meta.schema) && meta.roots == c.roots
                && (old(meta.generation) + 1 < 0x1_0000_0000_0000_0000 ==> meta.generation == old(meta.generation) + 1)
                && (old(InStep(Here())) && old(meta.generation) + 1 < 0x1_0000_0000_0000_0000 ==> Loaded(slots) == Some(meta))
      ensures old(InStep(Here())) && old(meta.generation) + 1 < U64 ==>
                (InStep(Here()) && meta == Registered(old(meta), c) <==> !Spoils(old(slots), c))
    {
      hide Spoils, Registered, InStep, Active, Target, Loaded;
      ghost var was := Here();
      if InStep(was) && meta.generation + 1 < U64 {
        StepKeepsInStep(was, c);
        if c.fate.Completes? {
          CompletesLoads(was, c);
        }
      }
      var newMeta := Meta(META_VERSION, (meta.generation + 1) % U64, FREELIST_TREE, meta.schema, c.roots);
      SwapMeta(newMeta, c.seen, LeftBy(c.fate));
      match c.fate
      case Completes =>
        meta := newMeta;
        return true;
      case Fails(_) =>
        return false;
      case Crashes(_, restart) =>
        var found := LoadMeta(restart);
        if found.None? {
          found := LoadMeta(BOTH);
        }
        if found.Some? {
          meta := found.value;
        }
        return false;
    }
  }
}
