/** Who may read and write an open file: the table of the kernel and those of the processes together
    (file_system_calls.c). */
module FileAccess {
  import opened OpenFiles

  /** The table of open files, and the descriptors that each process holds. */
  datatype Files = Files(kernel: seq<Fd>, tables: seq<seq<int>>)

  /** Renew is what new_process does for process p, when p exits and when a fork makes it. */
  datatype Use = SysOpen(p: nat, inode: int, mode: Mode) | SysClose(p: nat, fd: int) | Renew(p: nat)

  /** sys_open once the inode is known, sys_close, which does not look at who holds the descriptor, and
      new_process, which clears the table of the process and leaves that of the kernel. */
  function After(f: Files, u: Use): Files
    requires u.p < |f.tables|
  {
    var table := f.tables[u.p];
    match u
    case SysOpen(p, inode, mode) =>
      var fd := Opened(f.kernel, inode);
      var table' := if 0 <= fd && |table| < MAX_OPEN_FILES then table + [fd] else table;
      Files(AfterOpen(f.kernel, inode, mode), f.tables[p := table'])
    case SysClose(p, fd) =>
      if IdPosition(f.kernel, fd) == |f.kernel| then f
      else Files(AfterClose(f.kernel, fd), f.tables[p := AfterRemove(table, fd)])
    case Renew(p) => f.(tables := f.tables[p := []])
  }

  /** process_has_file_permission, for a request to read or to write. */
  predicate MayUse(f: Files, p: nat, fd: int, mode: Mode)
    requires p < |f.tables|
  {
    var i := IdPosition(f.kernel, fd);
    && i < |f.kernel|
    && ((mode == Read && f.kernel[i].mode == ReadGlobal) || (mode == Write && f.kernel[i].mode == WriteGlobal)
        || ((f.kernel[i].mode == ReadWrite || f.kernel[i].mode == mode) && fd in f.tables[p]))
  }

  /** The descriptor is that of a file that is not open to everyone. */
  predicate IsPrivate(k: seq<Fd>, fd: int) {
    IdPosition(k, fd) < |k| && !IsGlobal(k[IdPosition(k, fd)])
  }

  function FileBehind(k: seq<Fd>, fd: int): int
    requires IsPrivate(k, fd)
  {
    k[IdPosition(k, fd)].inode
  }

  /** p may read or write the private file, through one of its descriptors. */
  predicate Accesses(f: Files, p: nat, inode: int)
    requires p < |f.tables|
  {
    exists fd :: fd in f.tables[p] && IsPrivate(f.kernel, fd) && FileBehind(f.kernel, fd) == inode
  }

  lemma AccessIsPermission(f: Files, p: nat, fd: int)
    requires p < |f.tables| && IsPrivate(f.kernel, fd)
    ensures fd in f.tables[p] <==> MayUse(f, p, fd, Read) || MayUse(f, p, fd, Write)
  {
  }

  /** Which requests each mode allows: to everyone what the global modes name, and to a process with the descriptor
      in its table what the private ones name. Everything else is refused. */
  lemma WhoMayUse(f: Files, p: nat, fd: int)
    requires p < |f.tables| && IdPosition(f.kernel, fd) < |f.kernel|
    ensures var mode, holds := f.kernel[IdPosition(f.kernel, fd)].mode, fd in f.tables[p];
            match mode
            case Read => (MayUse(f, p, fd, Read) <==> holds) && !MayUse(f, p, fd, Write)
            case Write => !MayUse(f, p, fd, Read) && (MayUse(f, p, fd, Write) <==> holds)
            case ReadWrite => (MayUse(f, p, fd, Read) <==> holds) && (MayUse(f, p, fd, Write) <==> holds)
            case ReadGlobal => MayUse(f, p, fd, Read) && !MayUse(f, p, fd, Write)
            case WriteGlobal => !MayUse(f, p, fd, Read) && MayUse(f, p, fd, Write)
  {
  }

  /** What a process that opens a file for itself may do with it then is what it asked for, if its table and the
      kernel's have room, and nobody else may do anything with it. */
  lemma OpenedForUse(f: Files, p: nat, inode: int, mode: Mode, q: nat)
    requires p < |f.tables| && q < |f.tables| && TableInv(f.kernel) && Aligned(f.kernel)
    requires |f.kernel| < 10 && |f.tables[p]| < 10 && forall i :: 0 <= i < |f.kernel| ==> f.kernel[i].inode != inode
    requires mode == Read || mode == Write || mode == ReadWrite
    requires forall r :: 0 <= r < |f.tables| ==> |f.kernel| !in f.tables[r]
    ensures var g, fd := After(f, SysOpen(p, inode, mode)), |f.kernel|;
            && g.tables[p] == f.tables[p] + [fd] && g.kernel == f.kernel + [Fd(fd, mode, inode)]
            && (MayUse(g, q, fd, Read) <==> q == p && (mode == Read || mode == ReadWrite))
            && (MayUse(g, q, fd, Write) <==> q == p && (mode == Write || mode == ReadWrite))
  {
    OpenedEntry(f.kernel, inode, mode);
    WhoMayUse(After(f, SysOpen(p, inode, mode)), q, |f.kernel|);
  }

  /** After its owner has closed the file that it opened last nobody may use the descriptor, and it is in no table. */
  lemma ClosedForUse(f: Files, p: nat, i: nat, q: nat, mode: Mode)
    requires p < |f.tables| && q < |f.tables| && TableInv(f.kernel) && UniqueIds(f.kernel)
    requires i < |f.kernel| && !IsGlobal(f.kernel[i])
    ensures var fd := f.kernel[i].id;
            && !MayUse(After(f, SysClose(p, fd)), q, fd, mode)
            && (f.tables[p] != [] && FdPosition(f.tables[p], fd) == |f.tables[p]| - 1 ==>
                  After(f, SysClose(p, fd)).tables[p] == f.tables[p][..|f.tables[p]| - 1])
  {
    FirstId(f.kernel, f.kernel[i].id, i);
    ClosedCanBeOpened(f.kernel, i);
  }

  /** Only one process can access a file at a time, unless it is open to everyone. */
  ghost predicate Exclusive(f: Files) {
    forall p, q, inode :: 0 <= p < q < |f.tables| && Accesses(f, p, inode) ==> !Accesses(f, q, inode)
  }

  predicate HeldOnce(tables: seq<seq<int>>, fd: int) {
    forall p, q :: 0 <= p < q < |tables| ==> fd !in tables[p] || fd !in tables[q]
  }

  /** With one entry for each file this comes to: no private descriptor is in two tables. */
  lemma ExclusiveIff(f: Files)
    requires TableInv(f.kernel)
    ensures Exclusive(f) <==> forall fd :: IsPrivate(f.kernel, fd) ==> HeldOnce(f.tables, fd)
  {
    if Exclusive(f) {
      forall fd | IsPrivate(f.kernel, fd)
        ensures HeldOnce(f.tables, fd)
      {
        forall p, q | 0 <= p < q < |f.tables| && fd in f.tables[p] && fd in f.tables[q]
          ensures false
        {
          assert Accesses(f, p, FileBehind(f.kernel, fd)) && Accesses(f, q, FileBehind(f.kernel, fd));
        }
      }
    }
  }

  lemma UseKeepsTable(f: Files, u: Use)
    requires u.p < |f.tables| && TableInv(f.kernel)
    ensures TableInv(After(f, u).kernel)
  {
    match u {
      case SysOpen(p, inode, mode) => RunKeepsTable(f.kernel, [Open(inode, mode)]);
      case SysClose(p, fd) => RunKeepsTable(f.kernel, [Close(fd)]);
      case Renew(p) =>
    }
  }

  /** Once fd has been given out for a file opened in that mode it leads to a private file: that of the entry
      with this descriptor if there is one, and otherwise the new one. */
  predicate WillBePrivate(k: seq<Fd>, fd: int, mode: Mode) {
    if IdPosition(k, fd) < |k| then IsPrivate(k, fd) else mode != ReadGlobal && mode != WriteGlobal
  }

  /** Another process holds fd, or if p has no room for it, two processes do. */
  predicate HeldBesides(tables: seq<seq<int>>, p: nat, fd: int)
    requires p < |tables|
  {
    if |tables[p]| < MAX_OPEN_FILES then exists q :: 0 <= q < |tables| && q != p && fd in tables[q]
    else !HeldOnce(tables, fd)
  }

  /** The open is contested: the descriptor that it will give out leads to a private file, and somebody else
      has it already. */
  predicate Contested(f: Files, u: Use)
    requires u.p < |f.tables|
  {
    u.SysOpen? && (
      var fd := Opened(f.kernel, u.inode);
      fd >= 0 && WillBePrivate(f.kernel, fd, u.mode) && HeldBesides(f.tables, u.p, fd))
  }

  lemma PrivateAfterOpen(k: seq<Fd>, inode: int, mode: Mode)
    requires Opened(k, inode) >= 0
    ensures IsPrivate(AfterOpen(k, inode, mode), Opened(k, inode)) <==> WillBePrivate(k, Opened(k, inode), mode)
  {
    var fd := Opened(k, inode);
    if AfterOpen(k, inode, mode) == k {
      assert k[InodeAtPosition(k, inode)].id == fd;
    } else {
      AppendedPosition(k, Fd(|k|, mode, inode), fd);
    }
  }

  lemma HeldAfterOpen(tables: seq<seq<int>>, p: nat, fd: int)
    requires p < |tables|
    ensures var table' := if |tables[p]| < MAX_OPEN_FILES then tables[p] + [fd] else tables[p];
            HeldOnce(tables[p := table'], fd) <==> !HeldBesides(tables, p, fd)
  {
    var table' := if |tables[p]| < MAX_OPEN_FILES then tables[p] + [fd] else tables[p];
    var after := tables[p := table'];
    if |tables[p]| < MAX_OPEN_FILES {
      assert fd in after[p];
      if q :| 0 <= q < |tables| && q != p && fd in tables[q] {
        assert fd in after[q];
      }
    } else {
      assert after == tables;
    }
  }

  lemma AppendedPosition(k: seq<Fd>, entry: Fd, fd: int)
    ensures IdPosition(k + [entry], fd) == if IdPosition(k, fd) < |k| || entry.id != fd then
                                             (if IdPosition(k, fd) < |k| then IdPosition(k, fd) else |k| + 1)
                                           else |k|
  {
    var i := IdPosition(k, fd);
    FirstId(k + [entry], fd, if i < |k| || entry.id == fd then i else |k| + 1);
  }

  /** Opening keeps the files exclusive exactly when the descriptor is not contested. */
  lemma OpenKeepsExclusive(f: Files, u: Use)
    requires u.p < |f.tables| && u.SysOpen? && TableInv(f.kernel) && Exclusive(f)
    ensures Exclusive(After(f, u)) <==> !Contested(f, u)
  {
    var g, k, given := After(f, u), f.kernel, Opened(f.kernel, u.inode);
    UseKeepsTable(f, u);
    ExclusiveIff(f);
    ExclusiveIff(g);
    if given >= 0 {
      PrivateAfterOpen(k, u.inode, u.mode);
      HeldAfterOpen(f.tables, u.p, given);
    }
    forall fd | IsPrivate(g.kernel, fd) && (given < 0 || fd != given)
      ensures HeldOnce(g.tables, fd)
    {
      if g.kernel != k {
        AppendedPosition(k, Fd(|k|, u.mode, u.inode), fd);
      }
      assert IsPrivate(k, fd) && HeldOnce(f.tables, fd);
    }
  }

  lemma HeldOnceAfterRemove(tables: seq<seq<int>>, p: nat, x: int, fd: int)
    requires p < |tables| && HeldOnce(tables, fd)
    ensures HeldOnce(tables[p := AfterRemove(tables[p], x)], fd)
  {
    assert fd in AfterRemove(tables[p], x) ==> fd in tables[p];
  }

  lemma EntryBefore(k: seq<Fd>, i: nat, fd: int)
    requires i < |k| && k[i].id != fd
    ensures var rest := k[..i] + k[i + 1..];
            var j := IdPosition(rest, fd);
            IdPosition(k, fd) == if j < i then j else j + 1
  {
    var rest := k[..i] + k[i + 1..];
    var j := IdPosition(rest, fd);
    var j' := if j < i then j else j + 1;
    forall n | 0 <= n < j'
      ensures k[n].id != fd
    {
      assert n < i ==> k[n] == rest[n];
      assert n > i ==> k[n] == rest[n - 1];
    }
    assert j < |rest| ==> k[j'] == rest[j];
    FirstId(k, fd, j');
  }

  lemma PrivateBefore(k: seq<Fd>, id: int, fd: int)
    requires IsPrivate(k, id) && IsPrivate(AfterClose(k, id), fd)
    ensures IsPrivate(k, fd)
  {
    if fd != id {
      EntryBefore(k, IdPosition(k, id), fd);
    }
  }

  /** Closing always keeps them exclusive, although it leaves the descriptor in the process's table unless it
      is the last one there. */
  lemma CloseKeepsExclusive(f: Files, u: Use)
    requires u.p < |f.tables| && u.SysClose? && TableInv(f.kernel) && Exclusive(f)
    ensures Exclusive(After(f, u))
  {
    var g := After(f, u);
    UseKeepsTable(f, u);
    ExclusiveIff(f);
    ExclusiveIff(g);
    forall fd | IsPrivate(g.kernel, fd)
      ensures HeldOnce(g.tables, fd)
    {
      if g.kernel != f.kernel {
        PrivateBefore(f.kernel, u.fd, fd);
      }
      assert HeldOnce(f.tables, fd);
      HeldOnceAfterRemove(f.tables, u.p, u.fd, fd);
    }
  }

  /** So do the exit of a process and a fork. */
  lemma RenewKeepsExclusive(f: Files, u: Use)
    requires u.p < |f.tables| && u.Renew? && TableInv(f.kernel) && Exclusive(f)
    ensures Exclusive(After(f, u))
  {
    var g := After(f, u);
    ExclusiveIff(f);
    ExclusiveIff(g);
    forall fd | IsPrivate(g.kernel, fd)
      ensures HeldOnce(g.tables, fd)
    {
      assert HeldOnce(f.tables, fd);
    }
  }

  function Uses(f: Files, us: seq<Use>): Files
    requires forall i :: 0 <= i < |us| ==> us[i].p < |f.tables|
    decreases |us|
  {
    if us == [] then f else Uses(After(f, us[0]), us[1..])
  }

  predicate NoneContested(f: Files, us: seq<Use>)
    requires forall i :: 0 <= i < |us| ==> us[i].p < |f.tables|
    decreases |us|
  {
    us == [] || (!Contested(f, us[0]) && NoneContested(After(f, us[0]), us[1..]))
  }

  /** Over every run from a state in which files are exclusive they stay so as long as no descriptor that is
      given out is contested. */
  lemma {:induction false} RunKeepsExclusive(f: Files, us: seq<Use>)
    requires (forall i :: 0 <= i < |us| ==> us[i].p < |f.tables|) && NoneContested(f, us)
    requires TableInv(f.kernel) && Exclusive(f)
    ensures Exclusive(Uses(f, us)) && TableInv(Uses(f, us).kernel)
    decreases |us|
  {
    if us != [] {
      UseKeepsTable(f, us[0]);
      match us[0] {
        case SysOpen(p, inode, mode) => OpenKeepsExclusive(f, us[0]);
        case SysClose(p, fd) => CloseKeepsExclusive(f, us[0]);
        case Renew(p) => RenewKeepsExclusive(f, us[0]);
      }
      RunKeepsExclusive(After(f, us[0]), us[1..]);
    }
  }

  // ---- a file that stays open

  /** The use closes fd, or may take it out of the table of p. */
  predicate EndsUse(u: Use, p: nat, fd: int) {
    (u.SysClose? && (u.fd == fd || u.p == p)) || (u.Renew? && u.p == p)
  }

  lemma AppendedKeepsFirst(k: seq<Fd>, x: Fd, fd: int)
    requires IdPosition(k, fd) < |k|
    ensures IdPosition(k + [x], fd) == IdPosition(k, fd)
  {
    FirstId(k + [x], fd, IdPosition(k, fd));
  }

  lemma ClosedKeepsEntry(k: seq<Fd>, gone: int, fd: int)
    requires gone != fd && IdPosition(k, fd) < |k|
    ensures var rest := AfterClose(k, gone);
            IdPosition(rest, fd) < |rest| && rest[IdPosition(rest, fd)] == k[IdPosition(k, fd)]
  {
    var i, j, rest := IdPosition(k, fd), IdPosition(k, gone), AfterClose(k, gone);
    if rest != k {
      var i' := if j < i then i - 1 else i;
      forall l | 0 <= l < i'
        ensures rest[l].id != fd
      {
        assert rest[l] == k[if l < j then l else l + 1];
      }
      FirstId(rest, fd, i');
    }
  }

  lemma UseKeepsPermission(f: Files, u: Use, p: nat, fd: int, mode: Mode)
    requires u.p < |f.tables| && p < |f.tables| && MayUse(f, p, fd, mode) && !EndsUse(u, p, fd)
    ensures var g := After(f, u);
            && MayUse(g, p, fd, mode)
            && g.kernel[IdPosition(g.kernel, fd)] == f.kernel[IdPosition(f.kernel, fd)]
  {
    match u {
      case SysOpen(q, inode, m) => AppendedKeepsFirst(f.kernel, Fd(|f.kernel|, m, inode), fd);
      case SysClose(q, gone) => ClosedKeepsEntry(f.kernel, gone, fd);
      case Renew(q) =>
    }
  }

  /** A process goes on being allowed to use a file over every run in which nobody closes its descriptor and the
      process itself closes nothing and does not exit; and the descriptor goes on leading to that file. */
  lemma {:induction false} PermissionLasts(f: Files, us: seq<Use>, p: nat, fd: int, mode: Mode)
    requires forall i :: 0 <= i < |us| ==> us[i].p < |f.tables| && !EndsUse(us[i], p, fd)
    requires p < |f.tables| && MayUse(f, p, fd, mode)
    ensures var g := Uses(f, us);
            && |g.tables| == |f.tables| && MayUse(g, p, fd, mode)
            && g.kernel[IdPosition(g.kernel, fd)] == f.kernel[IdPosition(f.kernel, fd)]
    decreases |us|
  {
    if us != [] {
      UseKeepsPermission(f, us[0], p, fd, mode);
      PermissionLasts(After(f, us[0]), us[1..], p, fd, mode);
    }
  }

  // ---- the files of a process that has exited

  /** The entry is private and the only one for its file. */
  predicate Locks(k: seq<Fd>, fd: Fd) {
    fd in k && !IsGlobal(fd) && TableInv(k)
  }

  lemma LockedIsNotOpened(k: seq<Fd>, fd: Fd)
    requires Locks(k, fd)
    ensures Opened(k, fd.inode) == -1
  {
    var i :| 0 <= i < |k| && k[i] == fd;
    FirstInode(k, fd.inode, i);
  }

  /** The entry stays until somebody closes its descriptor. */
  lemma UseKeepsEntry(f: Files, u: Use, fd: Fd)
    requires u.p < |f.tables| && Locks(f.kernel, fd) && (u.SysClose? ==> u.fd != fd.id)
    ensures Locks(After(f, u).kernel, fd)
  {
    UseKeepsTable(f, u);
    if u.SysClose? {
      var k, i := f.kernel, IdPosition(f.kernel, u.fd);
      var j :| 0 <= j < |k| && k[j] == fd;
      assert After(f, u).kernel != k ==> After(f, u).kernel[if j < i then j else j - 1] == fd;
    }
  }

  /** A file that a process has open when it exits stays locked: over every run after that in which nobody
      happens to close its descriptor, nobody can open it. */
  lemma {:induction false} ExitedFileStaysLocked(f: Files, us: seq<Use>, fd: Fd)
    requires forall i :: 0 <= i < |us| ==> us[i].p < |f.tables| && (us[i].SysClose? ==> us[i].fd != fd.id)
    requires Locks(f.kernel, fd)
    ensures Locks(Uses(f, us).kernel, fd) && Opened(Uses(f, us).kernel, fd.inode) == -1
    decreases |us|
  {
    if us == [] {
      LockedIsNotOpened(f.kernel, fd);
    } else {
      UseKeepsEntry(f, us[0], fd);
      ExitedFileStaysLocked(After(f, us[0]), us[1..], fd);
    }
  }

  /** While files are exclusive nobody can access it any more, although it is open. */
  lemma ExitLeavesNobody(f: Files, p: nat, q: nat, fd: int)
    requires p < |f.tables| && q < |f.tables| && Exclusive(f) && fd in f.tables[p] && IsPrivate(f.kernel, fd)
    ensures !Accesses(After(f, Renew(p)), q, FileBehind(f.kernel, fd))
  {
    var g, inode := After(f, Renew(p)), FileBehind(f.kernel, fd);
    assert Accesses(f, p, inode);
    assert q != p ==> !Accesses(f, q, inode) && g.tables[q] == f.tables[q];
  }

  lemma TwoOpens(a: int, b: int)
    requires a != b
    ensures var f := Files([], [[], []]);
            After(After(f, SysOpen(0, a, Write)), SysOpen(0, b, Write))
            == Files([Fd(0, Write, a), Fd(1, Write, b)], [[0, 1], []])
  {
    var none: seq<int> := [];
    var f, g := Files([], [none, none]), Files([Fd(0, Write, a)], [[0], none]);
    assert none + [0] == [0] && [none, none][0 := [0]] == [[0], none];
    assert After(f, SysOpen(0, a, Write)) == g;
    assert [0] + [1] == [0, 1] && [[0], none][0 := [0, 1]] == [[0, 1], none];
  }

  lemma TwoCloses(a: int, b: int)
    ensures var f := Files([Fd(0, Write, a), Fd(1, Write, b)], [[0, 1], []]);
            After(After(f, SysClose(0, 0)), SysClose(0, 1)) == Files([], [[0], []])
  {
    var f := Files([Fd(0, Write, a), Fd(1, Write, b)], [[0, 1], []]);
    assert AfterRemove([0, 1], 0) == [0];
    assert After(f, SysClose(0, 0)) == Files([Fd(1, Write, b)], [[0], []]);
  }

  lemma OneMoreOpen(x: int)
    ensures After(Files([], [[0], []]), SysOpen(1, x, Write)) == Files([Fd(0, Write, x)], [[0], [0]])
  {
    var none: seq<int> := [];
    assert none + [0] == [0] && [[0], none][1 := [0]] == [[0], [0]];
  }

  /** It does happen: process 0 opens two files and closes both, the first one first, and then process 1 opens a
      file. Process 0 still holds the descriptor that process 1 gets, and both may write the file. */
  lemma TwoProcessesOneFile(a: int, b: int, x: int)
    requires a != b
    ensures var open := After(After(Files([], [[], []]), SysOpen(0, a, Write)), SysOpen(0, b, Write));
            var closed := After(After(open, SysClose(0, 0)), SysClose(0, 1));
            var f := After(closed, SysOpen(1, x, Write));
            && f == Files([Fd(0, Write, x)], [[0], [0]])
            && MayUse(f, 0, 0, Write) && MayUse(f, 1, 0, Write) && !Exclusive(f)
  {
    TwoOpens(a, b);
    TwoCloses(a, b);
    OneMoreOpen(x);
    var g := Files([Fd(0, Write, x)], [[0], [0]]);
    assert FileBehind(g.kernel, 0) == x && Accesses(g, 0, x) && Accesses(g, 1, x);
  }
}
