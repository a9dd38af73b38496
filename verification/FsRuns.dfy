/** Whole runs of the file system: the invariant, the balance of blocks, and files that last. */
module FsRuns {
  import opened Sets
  import opened Words
  import opened Storage
  import opened Superblock
  import opened Bitmap
  import opened Inodes
  import opened Writes
  import opened Ownership
  import opened Accounting

  /** One operation: a new inode f, a write to file id, or the deletion of file id. */
  datatype FsStep = Create(f: Inode) | Write(id: nat, data: seq<byte>) | Delete(id: nat)

  /** s becomes t. A new inode starts without blocks, and files are read before they are written or
      deleted. */
  ghost predicate FsNext(s: Fs, step: FsStep, t: Fs) {
    && BlockLen(s.sb) > 0 && BlockLen(t.sb) > 0
    && match step {
         case Create(f) => Created(s, t, f) && f.owned == 0
         case Write(id, data) => Wrote(s, t, InodeAt(s, id), data, InodeAt(t, id)) && InodeAt(s, id).id == id
         case Delete(id) => Deleted(s, t, InodeAt(s, id)) && InodeAt(s, id).id == id
       }
  }

  /** A write finds enough free blocks. */
  ghost predicate HasRoom(s: Fs, step: FsStep)
    requires BlockLen(s.sb) > 0
  {
    step.Write? ==> Taken(s, InodeAt(s, step.id), |step.data|) <= |FreeSet(s.sb)|
  }

  /** A run through the states, with room for every write. */
  ghost predicate FsRun(states: seq<Fs>, steps: seq<FsStep>) {
    && |states| == |steps| + 1
    && forall i {:trigger steps[i]} :: 0 <= i < |steps| ==>
         FsNext(states[i], steps[i], states[i + 1]) && HasRoom(states[i], steps[i])
  }

  lemma StepKeepsInv(s: Fs, step: FsStep, t: Fs)
    requires FsInv(s) && FsNext(s, step, t) && HasRoom(s, step)
    ensures FsInv(t)
  {
    match step {
      case Create(f) =>
        EmptyIsHarmless(s, f);
        CreatedKeepsInv(s, t, f);
      case Write(id, data) =>
        WroteKeepsInv(s, t, InodeAt(s, id), data, InodeAt(t, id));
      case Delete(id) =>
        DeletedKeepsInv(s, t, InodeAt(s, id));
    }
  }

  /** Every state of a run from a sound file system is sound. */
  lemma {:induction false} RunKeepsInv(states: seq<Fs>, steps: seq<FsStep>, i: nat)
    requires FsRun(states, steps) && FsInv(states[0]) && i <= |steps|
    ensures FsInv(states[i])
  {
    if i > 0 {
      var j := i - 1;
      RunKeepsInv(states, steps, j);
      StepKeepsInv(states[j], steps[j], states[j + 1]);
    }
  }

  /** A freshly formatted disk is sound, and nothing is marked or leaked on it. */
  lemma FormattedIsSound(s: Fs)
    requires Formatted(s, InodeNum(s.sb)) && SuperOnDisk(s)
    ensures FsInv(s) && MarkedSet(s.sb) == {} && Leaked(s) == {}
  {
  }

  // ---- the balance of blocks

  ghost function Takes(s: Fs, step: FsStep): int
    requires BlockLen(s.sb) > 0
  {
    match step
    case Create(f) => 0
    case Write(id, data) => Taken(s, InodeAt(s, id), |data|)
    case Delete(id) => var released: int := InodeAt(s, id).owned; -released
  }

  ghost function Leaks(s: Fs, step: FsStep): nat
    requires BlockLen(s.sb) > 0
  {
    match step
    case Create(f) => InodeAt(s, f.id).owned
    case Write(id, data) => Least(Taken(s, InodeAt(s, id), |data|), InodeAt(s, id).owned)
    case Delete(id) => 0
  }

  ghost function AllTakes(states: seq<Fs>, steps: seq<FsStep>, i: nat): int
    requires FsRun(states, steps) && i <= |steps|
  {
    if i == 0 then 0 else
      assert FsNext(states[i - 1], steps[i - 1], states[i - 1 + 1]);
      AllTakes(states, steps, i - 1) + Takes(states[i - 1], steps[i - 1])
  }

  ghost function AllLeaks(states: seq<Fs>, steps: seq<FsStep>, i: nat): nat
    requires FsRun(states, steps) && i <= |steps|
  {
    if i == 0 then 0 else
      assert FsNext(states[i - 1], steps[i - 1], states[i - 1 + 1]);
      AllLeaks(states, steps, i - 1) + Leaks(states[i - 1], steps[i - 1])
  }

  lemma CreateCounts(s: Fs, f: Inode, t: Fs)
    requires FsInv(s) && FsNext(s, Create(f), t)
    ensures |MarkedSet(t.sb)| == |MarkedSet(s.sb)| && |Leaked(t)| == |Leaked(s)| + Leaks(s, Create(f))
  {
    CreatedAccounts(s, t, f);
    DisjointUnion(Leaked(s), Elements(Owned(InodeAt(s, f.id))));
  }

  lemma WriteCounts(s: Fs, id: nat, data: seq<byte>, t: Fs)
    requires FsInv(s) && FsNext(s, Write(id, data), t) && HasRoom(s, Write(id, data))
    ensures |MarkedSet(t.sb)| == |MarkedSet(s.sb)| + Takes(s, Write(id, data))
    ensures |Leaked(t)| == |Leaked(s)| + Leaks(s, Write(id, data))
  {
    var f := InodeAt(s, id);
    WroteAccounts(s, t, f, data, InodeAt(t, id));
    DisjointUnion(MarkedSet(s.sb), Elements(Allocated(s.sb, Taken(s, f, |data|))));
    DisjointUnion(Leaked(s), Forgotten(f, Taken(s, f, |data|)));
  }

  lemma DeleteCounts(s: Fs, id: nat, t: Fs)
    requires FsInv(s) && FsNext(s, Delete(id), t)
    ensures |MarkedSet(t.sb)| == |MarkedSet(s.sb)| + Takes(s, Delete(id)) && Leaked(t) == Leaked(s)
  {
    var f := InodeAt(s, id);
    DeletedAccounts(s, t, f);
    Difference(MarkedSet(s.sb), Elements(Owned(f)));
  }

  lemma StepAccounts(s: Fs, step: FsStep, t: Fs)
    requires FsInv(s) && FsNext(s, step, t) && HasRoom(s, step)
    ensures |MarkedSet(t.sb)| == |MarkedSet(s.sb)| + Takes(s, step)
    ensures |Leaked(t)| == |Leaked(s)| + Leaks(s, step)
  {
    match step {
      case Create(f) => CreateCounts(s, f, t);
      case Write(id, data) => WriteCounts(s, id, data, t);
      case Delete(id) => DeleteCounts(s, id, t);
    }
  }

  /** Over a whole run the marked blocks grow by what the writes took less what the deletes released,
      and the leaked blocks by what overwriting forgot. */
  lemma {:induction false} RunAccounts(states: seq<Fs>, steps: seq<FsStep>, i: nat)
    requires FsRun(states, steps) && FsInv(states[0]) && i <= |steps|
    ensures FsInv(states[i])
    ensures |MarkedSet(states[i].sb)| == |MarkedSet(states[0].sb)| + AllTakes(states, steps, i)
    ensures |Leaked(states[i])| == |Leaked(states[0])| + AllLeaks(states, steps, i)
  {
    if i > 0 {
      var j := i - 1;
      RunAccounts(states, steps, j);
      StepKeepsInv(states[j], steps[j], states[j + 1]);
      StepAccounts(states[j], steps[j], states[j + 1]);
    }
  }

  /** Overwriting files wears the disk out: over a whole run, however long and however large the disk,
      no more than 32 blocks can be forgotten. Beyond that some write finds no room. */
  lemma LeaksAreBounded(states: seq<Fs>, steps: seq<FsStep>)
    requires FsRun(states, steps) && FsInv(states[0])
    ensures AllLeaks(states, steps, |steps|) <= WORD_BITS - |Leaked(states[0])|
  {
    var n := |steps|;
    RunAccounts(states, steps, n);
    var t := states[n];
    DataStartIsSmall(t.sb, |t.disk|, BlockLen(t.sb));
    AllocRange(t.sb, DataStart(t.sb));
    SpanSize(DataStart(t.sb), AllocEnd(t.sb), Leaked(t));
  }

  // ---- files that last

  ghost predicate Touches(step: FsStep, id: nat) {
    match step
    case Create(f) => f.id == id
    case Write(i, data) => i == id
    case Delete(i) => i == id
  }

  lemma StepFrame(s: Fs, step: FsStep, t: Fs, id: nat, n: nat)
    requires FsInv(s) && FsNext(s, step, t) && id < InodeNum(s.sb) && !Touches(step, id) && Within(s, id, n)
    ensures InodeNum(t.sb) == InodeNum(s.sb) && BlockLen(t.sb) == BlockLen(s.sb)
    ensures InodeAt(t, id) == InodeAt(s, id) && FileOf(t, id, n) == FileOf(s, id, n)
  {
    match step {
      case Create(f) =>
        CreatedMarks(s, t, f);
        CreatedFrame(s, t, f, id, n);
      case Write(i, data) =>
        SameFieldsSameLayout(s.sb, t.sb);
        WroteFrame(s, t, InodeAt(s, i), data, InodeAt(t, i), id, n);
      case Delete(i) =>
        DeletedMarks(s, t, InodeAt(s, i));
        DeletedFrame(s, t, InodeAt(s, i), id, n);
    }
  }

  /** In t file id is as it was in s, as far as its first n bytes go. */
  ghost predicate Lasting(s: Fs, t: Fs, id: nat, n: nat) {
    && FsInv(t) && BlockLen(s.sb) > 0 && InodeNum(t.sb) == InodeNum(s.sb) && BlockLen(t.sb) == BlockLen(s.sb)
    && InodeAt(t, id) == InodeAt(s, id) && FileOf(t, id, n) == FileOf(s, id, n)
  }

  lemma LastingStep(s: Fs, t: Fs, step: FsStep, u: Fs, id: nat, n: nat)
    requires Lasting(s, t, id, n) && FsNext(t, step, u) && HasRoom(t, step) && !Touches(step, id)
    requires id < InodeNum(s.sb) && Within(s, id, n)
    ensures Lasting(s, u, id, n)
  {
    StepFrame(t, step, u, id, n);
    StepKeepsInv(t, step, u);
  }

  /** A file that no step of the run is about keeps its inode and its contents. */
  lemma {:induction false} FileLasts(states: seq<Fs>, steps: seq<FsStep>, id: nat, n: nat, i: nat)
    requires FsRun(states, steps) && FsInv(states[0]) && id < InodeNum(states[0].sb) && i <= |steps|
    requires (forall j :: 0 <= j < i ==> !Touches(steps[j], id)) && Within(states[0], id, n)
    ensures Lasting(states[0], states[i], id, n)
  {
    if i > 0 {
      FileLasts(states, steps, id, n, i - 1);
      LastingRunStep(states, steps, id, n, i);
    }
  }

  lemma LastingRunStep(states: seq<Fs>, steps: seq<FsStep>, id: nat, n: nat, i: nat)
    requires FsRun(states, steps) && 0 < i <= |steps| && Lasting(states[0], states[i - 1], id, n)
    requires id < InodeNum(states[0].sb) && !Touches(steps[i - 1], id) && Within(states[0], id, n)
    ensures Lasting(states[0], states[i], id, n)
  {
    assert FsNext(states[i - 1], steps[i - 1], states[i - 1 + 1]);
    LastingStep(states[0], states[i - 1], steps[i - 1], states[i], id, n);
  }

  lemma WrittenIsWithin(s: Fs, t: Fs, id: nat, data: seq<byte>)
    requires FsInv(s) && FsNext(s, Write(id, data), t) && BlockLen(t.sb) > 0
    ensures Within(t, id, |data|) && id < InodeNum(t.sb)
  {
    var f, g := InodeAt(s, id), InodeAt(t, id);
    FsInvInode(s, id);
    SameFieldsSameLayout(s.sb, t.sb);
    WroteReplaces(s, t, f, data, g);
    WrittenFits(BlockLen(s.sb), |data|, g.owned);
  }

  lemma WrittenFits(len: nat, n: nat, owned: nat)
    requires len > 0 && BlocksOccupied(len, n) <= owned
    ensures n <= Start(len, owned)
  {
  }

  lemma RunTail(states: seq<Fs>, steps: seq<FsStep>)
    requires FsRun(states, steps) && steps != []
    ensures FsRun(states[1..], steps[1..])
  {
  }

  /** Data written to a file is read back after any run of operations on other files. */
  lemma WriteThenReadLater(s: Fs, id: nat, data: seq<byte>, states: seq<Fs>, steps: seq<FsStep>)
    requires FsInv(s) && FsRun([s] + states, [Write(id, data)] + steps)
    requires forall j :: 0 <= j < |steps| ==> !Touches(steps[j], id)
    ensures var t := states[|steps|];
            BlockLen(t.sb) > 0 && InodeAt(t, id).size == |data| && FileOf(t, id, |data|) == data
  {
    var all, t := [s] + states, states[0];
    RunTail(all, [Write(id, data)] + steps);
    assert all[1..] == states && ([Write(id, data)] + steps)[1..] == steps;
    assert FsNext(all[0], ([Write(id, data)] + steps)[0], all[0 + 1]);
    StepKeepsInv(s, Write(id, data), t);
    WriteThenRead(s, t, InodeAt(s, id), data, InodeAt(t, id));
    WrittenIsWithin(s, t, id, data);
    FileLasts(states, steps, id, |data|, |steps|);
  }

  /** A file in use whose id has a place in the bitmap is never the target of a create. */
  lemma CreateSparesFilesInUse(s: Fs, f: Inode, t: Fs, id: nat)
    requires FsInv(s) && FsNext(s, Create(f), t) && id < InodeNum(s.sb)
    requires Markable(id) && InodeAt(s, id).kind != UNALLOCATED
    ensures !Touches(Create(f), id)
  {
    if f.id == id {
      CreatedIsFresh(s, t, f);
    }
  }

  // ---- mounting again

  /** Reading the superblock back from the disk gives the one in memory, in every reachable state, so
      that mounting again finds the same file system. */
  lemma RemountRestores(s: Fs)
    requires FsInv(s)
    ensures var len := BlockLen(s.sb);
            Decode(Content(s.disk, len, Span(0, BlocksOccupied(len, SUPER_BYTES)), SUPER_BYTES)) == s.sb
  {
    DecodeEncode(s.sb);
  }
}
