/** The table of open files of the kernel (fs.c) and that of each process (processes.c), both arrays with
    a count that are changed in place. */
module OpenFiles {

  const MAX_OPEN_FILES := 10

  datatype Mode = Read | Write | ReadWrite | ReadGlobal | WriteGlobal

  datatype Fd = Fd(id: int, mode: Mode, inode: int)

  predicate IsGlobal(fd: Fd) {
    fd.mode == ReadGlobal || fd.mode == WriteGlobal
  }

  // ---- the table of the kernel

  /** The position of the first entry for that inode, or the number of entries. */
  function InodeAtPosition(es: seq<Fd>, inode: int): (r: nat)
    ensures r <= |es| && (r < |es| ==> es[r].inode == inode) && forall i :: 0 <= i < r ==> es[i].inode != inode
  {
    if es == [] || es[0].inode == inode then 0 else 1 + InodeAtPosition(es[1..], inode)
  }

  /** The position of the first entry with that descriptor, or the number of entries. */
  function IdPosition(es: seq<Fd>, id: int): (r: nat)
    ensures r <= |es| && (r < |es| ==> es[r].id == id) && forall i :: 0 <= i < r ==> es[i].id != id
  {
    if es == [] || es[0].id == id then 0 else 1 + IdPosition(es[1..], id)
  }

  lemma FirstInode(es: seq<Fd>, inode: int, p: nat)
    requires p <= |es| && (p < |es| ==> es[p].inode == inode) && forall i :: 0 <= i < p ==> es[i].inode != inode
    ensures InodeAtPosition(es, inode) == p
  {
  }

  lemma FirstId(es: seq<Fd>, id: int, p: nat)
    requires p <= |es| && (p < |es| ==> es[p].id == id) && forall i :: 0 <= i < p ==> es[i].id != id
    ensures IdPosition(es, id) == p
  {
  }

  /** What add_fd returns. */
  function Opened(es: seq<Fd>, inode: int): int {
    var p := InodeAtPosition(es, inode);
    if |es| >= MAX_OPEN_FILES then -1
    else if p == |es| then |es|
    else if IsGlobal(es[p]) then es[p].id
    else -1
  }

  /** The entries after add_fd. */
  function AfterOpen(es: seq<Fd>, inode: int, mode: Mode): seq<Fd> {
    if |es| < MAX_OPEN_FILES && InodeAtPosition(es, inode) == |es| then es + [Fd(|es|, mode, inode)] else es
  }

  /** The entries after close_file. */
  function AfterClose(es: seq<Fd>, id: int): seq<Fd> {
    var p := IdPosition(es, id);
    if p == |es| || IsGlobal(es[p]) then es else es[..p] + es[p + 1..]
  }

  class OpenFileTable {
    var count: nat
    const open: array<Fd>

    ghost predicate Valid()
      reads this
    {
      open.Length == MAX_OPEN_FILES && count <= open.Length
    }

    ghost function Entries(): seq<Fd>
      requires Valid()
      reads this, open
    {
      open[..count]
    }

    constructor ()
      ensures Valid() && Entries() == [] && fresh(open)
    {
      count := 0;
      open := new Fd[MAX_OPEN_FILES](_ => Fd(0, Read, 0));
    }

    /** add_fd */
    method AddFd(inode: int, mode: Mode) returns (id: int)
      requires Valid()
      modifies this, open
      ensures Valid() && id == Opened(old(Entries()), inode)
      ensures Entries() == AfterOpen(old(Entries()), inode, mode)
    {
      if count >= MAX_OPEN_FILES {
        return -1;
      }
      var i := 0;
      while i < count
        invariant 0 <= i <= count && forall j :: 0 <= j < i ==> open[j].inode != inode
      {
        if open[i].inode == inode {
          FirstInode(Entries(), inode, i);
          return if IsGlobal(open[i]) then open[i].id else -1;
        }
        i := i + 1;
      }
      FirstInode(Entries(), inode, count);
      id := count;
      open[id] := Fd(id, mode, inode);
      count := count + 1;
    }

    /** fdid_to_fd: where the entry is, or behind the last one if there is none. */
    method Position(id: int) returns (i: nat)
      requires Valid()
      ensures i == IdPosition(Entries(), id)
    {
      i := 0;
      while i < count && open[i].id != id
        invariant 0 <= i <= count && forall j :: 0 <= j < i ==> open[j].id != id
      {
        i := i + 1;
      }
      FirstId(Entries(), id, i);
    }

    /** close_file */
    method CloseFd(id: int) returns (status: int)
      requires Valid()
      modifies this, open
      ensures Valid() && Entries() == AfterClose(old(Entries()), id)
      ensures status == if IdPosition(old(Entries()), id) == old(count) then -1 else 0
    {
      var index := -1;
      var i := 0;
      while i < count
        invariant 0 <= i <= count && index == -1 && forall j :: 0 <= j < i ==> open[j].id != id
      {
        if open[i].id == id {
          index := i;
          break;
        }
        i := i + 1;
      }
      FirstId(Entries(), id, if index == -1 then count else index);
      if index == -1 {
        return -1;
      }
      if IsGlobal(open[index]) {
        return 0;
      }
      count := count - 1;
      forall k | index <= k < count {
        open[k] := open[k + 1];
      }
      status := 0;
    }
  }

  datatype TableStep = Open(inode: int, mode: Mode) | Close(id: int)

  function Next(es: seq<Fd>, step: TableStep): seq<Fd> {
    match step
    case Open(inode, mode) => AfterOpen(es, inode, mode)
    case Close(id) => AfterClose(es, id)
  }

  function Run(es: seq<Fd>, steps: seq<TableStep>): seq<Fd>
    decreases |steps|
  {
    if steps == [] then es else Run(Next(es, steps[0]), steps[1..])
  }

  /** At most ten entries, and one for each inode. */
  predicate TableInv(es: seq<Fd>) {
    |es| <= MAX_OPEN_FILES && forall i, j :: 0 <= i < j < |es| ==> es[i].inode != es[j].inode
  }

  /** Over any run of opening and closing there is at most one entry for a file, and entries that are open
      to everyone are never removed. */
  lemma {:induction false} RunKeepsTable(es: seq<Fd>, steps: seq<TableStep>)
    requires TableInv(es)
    ensures TableInv(Run(es, steps))
    ensures forall fd :: fd in es && IsGlobal(fd) ==> fd in Run(es, steps)
    decreases |steps|
  {
    if steps != [] {
      var next := Next(es, steps[0]);
      forall fd | fd in es && IsGlobal(fd)
        ensures fd in next
      {
        StepKeepsGlobal(es, steps[0], fd);
      }
      RunKeepsTable(next, steps[1..]);
    }
  }

  lemma StepKeepsGlobal(es: seq<Fd>, step: TableStep, fd: Fd)
    requires fd in es && IsGlobal(fd)
    ensures fd in Next(es, step)
  {
  }

  /** Opening succeeds exactly when the table is not full and the file is either not open or open to
      everyone. In particular a file opened for oneself cannot be opened again before it is closed. */
  lemma OpenSucceedsIff(es: seq<Fd>, inode: int)
    requires TableInv(es) && forall i :: 0 <= i < |es| ==> es[i].id >= 0
    ensures Opened(es, inode) >= 0
            <==> |es| < 10 && forall i :: 0 <= i < |es| && es[i].inode == inode ==> IsGlobal(es[i])
  {
  }

  /** A file that was not open gets an entry of its own at the end, with the mode asked for, as long as there are
      fewer than ten. Nothing else ever changes the table: a file that is open to everyone keeps its mode. */
  lemma OpenedEntry(es: seq<Fd>, inode: int, mode: Mode)
    requires TableInv(es) && Aligned(es)
    ensures var fd, after := Opened(es, inode), AfterOpen(es, inode, mode);
            if |es| < 10 && forall i :: 0 <= i < |es| ==> es[i].inode != inode
            then fd == |es| && after == es + [Fd(fd, mode, inode)] && IdPosition(after, fd) == fd
            else after == es && (fd >= 0 ==> fd < |es| && IsGlobal(es[fd]) && es[fd].inode == inode)
  {
    if |es| < 10 && forall i :: 0 <= i < |es| ==> es[i].inode != inode {
      FirstId(AfterOpen(es, inode, mode), |es|, |es|);
    }
  }

  /** A private file is not open any more once it has been closed, so that it can be opened again. */
  lemma ClosedCanBeOpened(es: seq<Fd>, p: nat)
    requires TableInv(es) && UniqueIds(es) && p < |es| && !IsGlobal(es[p])
    ensures var rest := AfterClose(es, es[p].id);
            && rest == es[..p] + es[p + 1..] && IdPosition(rest, es[p].id) == |rest|
            && Opened(rest, es[p].inode) == |rest|
  {
    FirstId(es, es[p].id, p);
    var rest := es[..p] + es[p + 1..];
    forall i | 0 <= i < |rest|
      ensures rest[i].id != es[p].id && rest[i].inode != es[p].inode
    {
      assert rest[i] == es[if i < p then i else i + 1];
    }
    FirstId(rest, es[p].id, |rest|);
    FirstInode(rest, es[p].inode, |rest|);
  }

  // ---- descriptors are positions

  /** Every entry has its own position as descriptor, as add_fd gives it. */
  predicate Aligned(es: seq<Fd>) {
    forall i :: 0 <= i < |es| ==> es[i].id == i
  }

  predicate UniqueIds(es: seq<Fd>) {
    forall i, j :: 0 <= i < j < |es| ==> es[i].id != es[j].id
  }

  lemma OpenKeepsAligned(es: seq<Fd>, inode: int, mode: Mode)
    requires Aligned(es)
    ensures Aligned(AfterOpen(es, inode, mode))
  {
  }

  /** Closing keeps the descriptors in step with the positions exactly when the entry is the last one, or
      stays. */
  lemma CloseKeepsAligned(es: seq<Fd>, id: int)
    requires Aligned(es)
    ensures Aligned(AfterClose(es, id)) <==> !(0 <= id < |es| - 1) || IsGlobal(es[id])
  {
    if 0 <= id < |es| {
      FirstId(es, id, id);
      assert id < |es| - 1 && !IsGlobal(es[id]) ==> AfterClose(es, id)[id].id == id + 1;
    } else {
      FirstId(es, id, |es|);
    }
  }

  /** Along the run only the last entry is ever closed, apart from closes that change nothing. */
  predicate ClosesLast(es: seq<Fd>, steps: seq<TableStep>)
    decreases |steps|
  {
    steps == [] ||
    (&& (steps[0].Close? ==> !(0 <= steps[0].id < |es| - 1) || IsGlobal(es[steps[0].id]))
     && ClosesLast(Next(es, steps[0]), steps[1..]))
  }

  /** Over such runs descriptors stay positions, and so stay unique. */
  lemma {:induction false} RunKeepsAligned(es: seq<Fd>, steps: seq<TableStep>)
    requires Aligned(es) && ClosesLast(es, steps)
    ensures Aligned(Run(es, steps)) && UniqueIds(Run(es, steps))
    decreases |steps|
  {
    if steps != [] {
      match steps[0] {
        case Open(inode, mode) => OpenKeepsAligned(es, inode, mode);
        case Close(id) => CloseKeepsAligned(es, id);
      }
      RunKeepsAligned(Next(es, steps[0]), steps[1..]);
    }
  }

  /** An opened file gets a descriptor of its own exactly when no entry has the number of entries as
      descriptor. */
  lemma OpenKeepsUnique(es: seq<Fd>, inode: int, mode: Mode)
    requires UniqueIds(es) && |es| < MAX_OPEN_FILES && InodeAtPosition(es, inode) == |es|
    ensures UniqueIds(AfterOpen(es, inode, mode)) <==> IdPosition(es, |es|) == |es|
  {
    var all, p := AfterOpen(es, inode, mode), IdPosition(es, |es|);
    assert p < |es| ==> all[p].id == all[|es|].id;
  }

  /** After closing an entry other than the last, the next file that is opened gets the descriptor of the
      last entry, which goes on leading to the file of that entry. */
  lemma ReopenedReachesWrongFile(es: seq<Fd>, id: nat, inode: int, mode: Mode)
    requires Aligned(es) && TableInv(es) && id < |es| - 1 && !IsGlobal(es[id])
    requires InodeAtPosition(es, inode) == |es|
    ensures var rest := AfterClose(es, id);
            var all, fd := AfterOpen(rest, inode, mode), Opened(rest, inode);
            && fd == es[|es| - 1].id && !UniqueIds(all)
            && IdPosition(all, fd) < |all| && all[IdPosition(all, fd)].inode == es[|es| - 1].inode != inode
  {
    FirstId(es, id, id);
    var rest := AfterClose(es, id);
    FirstInode(rest, inode, |rest|);
    var all := AfterOpen(rest, inode, mode);
    assert all[|es| - 2] == es[|es| - 1];
    assert all[|es| - 1] == Fd(|es| - 1, mode, inode);
    FirstId(all, |es| - 1, |es| - 2);
  }

  // ---- the table of a process

  /** The position of the first occurrence of fd, or the number of entries. */
  function FdPosition(es: seq<int>, fd: int): (r: nat)
    ensures r <= |es| && (r < |es| ==> es[r] == fd) && fd !in es[..r]
  {
    if es == [] || es[0] == fd then 0 else 1 + FdPosition(es[1..], fd)
  }

  lemma FirstFd(es: seq<int>, fd: int, p: nat)
    requires p <= |es| && (p < |es| ==> es[p] == fd) && forall i :: 0 <= i < p ==> es[i] != fd
    ensures FdPosition(es, fd) == p
  {
  }

  /** The entries after remove_process_fd. Its block move goes up instead of down: the entry at the
      position found stays, and the entries from there on move away from it. */
  function AfterRemove(es: seq<int>, fd: int): (r: seq<int>) {
    var p := FdPosition(es, fd);
    if p == |es| then es
    else if p == |es| - 1 then es[..p]
    else es[..p + 1] + es[p..|es| - 2]
  }

  class ProcessFiles {
    var count: nat
    const open: array<int>

    ghost predicate Valid()
      reads this
    {
      open.Length == MAX_OPEN_FILES && count <= open.Length
    }

    ghost function Entries(): seq<int>
      requires Valid()
      reads this, open
    {
      open[..count]
    }

    constructor ()
      ensures Valid() && Entries() == [] && fresh(open)
    {
      count := 0;
      open := new int[MAX_OPEN_FILES](_ => 0);
    }

    /** add_process_fd */
    method Add(fd: int) returns (status: int)
      requires Valid()
      modifies this, open
      ensures Valid() && status == if old(count) < MAX_OPEN_FILES then 0 else -1
      ensures Entries() == if status == 0 then old(Entries()) + [fd] else old(Entries())
    {
      if count >= MAX_OPEN_FILES {
        return -1;
      }
      open[count] := fd;
      count := count + 1;
      status := 0;
    }

    /** remove_process_fd */
    method Remove(fd: int) returns (status: int)
      requires Valid()
      modifies this, open
      ensures Valid() && Entries() == AfterRemove(old(Entries()), fd)
      ensures status == if fd in old(Entries()) then 0 else -1
    {
      ghost var was := Entries();
      var index := -1;
      var i := 0;
      while i < count
        invariant 0 <= i <= count && index == -1 && forall j :: 0 <= j < i ==> open[j] != fd
      {
        if open[i] == fd {
          index := i;
          break;
        }
        i := i + 1;
      }
      FirstFd(Entries(), fd, if index == -1 then count else index);
      if index == -1 {
        return -1;
      }
      count := count - 1;
      forall k | index < k < count + 1 {
        open[k] := open[k - 1];
      }
      assert index < count ==> open[..count] == was[..index + 1] + was[index..count - 1];
      status := 0;
    }

    /** proc_fd_open */
    method IsOpen(fd: int) returns (r: int)
      requires Valid()
      ensures r == if fd in Entries() then 1 else -1
    {
      var i := 0;
      while i < count
        invariant 0 <= i <= count && forall j :: 0 <= j < i ==> open[j] != fd
      {
        if open[i] == fd {
          assert Entries()[i] == fd;
          return 1;
        }
        i := i + 1;
      }
      r := -1;
    }
  }

  /** A file that a process closes is gone from its table exactly when its first occurrence is the last
      entry. */
  lemma RemoveWorksIff(es: seq<int>, fd: int)
    requires fd in es
    ensures fd !in AfterRemove(es, fd) <==> FdPosition(es, fd) == |es| - 1
  {
  }

  /** What remove_process_fd leaves: one entry less, and from the position behind the one found on every entry is
      the one that was before it. */
  lemma RemovedEntries(es: seq<int>, fd: int, p: nat)
    requires p < |es| && es[p] == fd && fd !in es[..p]
    ensures var rest := AfterRemove(es, fd);
            && |rest| == |es| - 1
            && forall i :: 0 <= i < |rest| ==> rest[i] == es[if i <= p then i else i - 1]
    ensures fd !in es[p + 1..] && fd == es[|es| - 1] ==> AfterRemove(es, fd) == es[..|es| - 1]
  {
    FirstFd(es, fd, p);
  }

  /** Otherwise the process keeps the closed file and loses the one that it opened last. */
  lemma RemoveTakesTheLast(es: seq<int>, fd: int)
    requires fd in es && FdPosition(es, fd) < |es| - 1
    requires forall i, j :: 0 <= i < j < |es| ==> es[i] != es[j]
    ensures fd in AfterRemove(es, fd) && es[|es| - 1] !in AfterRemove(es, fd)
  {
  }
}
