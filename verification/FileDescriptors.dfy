/** The HAL's file descriptor table and its exclusive locks. */
module FileDescriptors {
  import opened Base

  const MAX_FD: nat := 32
  const EACCES := 13
  const ENODEV := 19
  const EMFILE := 24
  const EBADFD := 81

  /** A driver, registered either as a device or as a file system. */
  datatype Driver = Driver(id: nat, isDevice: bool)

  /** A descriptor: its driver, the two flags the table itself uses, and the caller's other flags. */
  datatype Slot = Slot(dev: Option<Driver>, excl: bool, isDev: bool, flags: nat)

  const FREE := Slot(None, false, false, 0)

  /** The table: the descriptors, and the highest one ever allocated. */
  datatype Table = Table(slots: seq<Slot>, maxFd: int)

  /** At reset descriptors 0 to 2 refer to the null device, and nothing has been allocated. */
  function Reset(nullDev: Driver): (t: Table)
  {
    Table(seq(MAX_FD, i => if i < 3 then Slot(Some(nullDev), false, false, 0) else FREE), -1)
  }

  // ---------------------------------------------------------------- the calls, on tables

  /** alt_get_fd's search. */
  function FirstFree(slots: seq<Slot>, from: nat): (i: nat)
    requires from <= |slots|
    ensures from <= i <= |slots|
    ensures forall j :: from <= j < i ==> slots[j].dev.Some?
    ensures i < |slots| ==> slots[i].dev.None?
    decreases |slots| - from
  {
    if from == |slots| || slots[from].dev.None? then from else FirstFree(slots, from + 1)
  }

  /** alt_release_fd: the three standard descriptors are never freed. */
  function Released(t: Table, fd: int): (t': Table)
    requires fd < |t.slots|
  {
    if fd > 2 then t.(slots := t.slots[fd := t.slots[fd].(dev := None, excl := false, isDev := false, flags := 0)]) else t
  }

  /** Some descriptor in [0, bound), other than fd, refers to this driver. */
  ghost predicate OtherBelow(t: Table, fd: int, dev: Option<Driver>, bound: int)
  {
    exists i :: 0 <= i < bound && i < |t.slots| && i != fd && t.slots[i].dev == dev
  }

  /** Some descriptor, other than fd, holds this driver's lock. */
  ghost predicate Locked(t: Table, fd: int, dev: Option<Driver>)
  {
    exists i :: 0 <= i <= t.maxFd && i < |t.slots| && i != fd && t.slots[i].dev == dev && t.slots[i].excl
  }

  /** The table after a slot is taken for `dev`, before the lock is looked at. */
  function Taken(t: Table, i: nat, dev: Driver, flags: nat): (t': Table)
    requires i < |t.slots|
  {
    Table(t.slots[i := Slot(Some(dev), false, dev.isDevice, flags)], if i > t.maxFd then i else t.maxFd)
  }

  /** open: `dev` is what the name resolves to, `status` what the driver's own open returns. */
  ghost function Opened(t: Table, dev: Option<Driver>, flags: nat, status: int): (r: (Table, int))
  {
    if dev.None? then (t, -1)
    else
      var i := FirstFree(t.slots, 0);
      if i == |t.slots| then (t, -1)
      else
        var t' := Taken(t, i, dev.value, flags);
        if (dev.value.isDevice && Locked(t', i, dev)) || status < 0 then (Released(t', i), -1) else (t', i as int)
  }

  /** The TIOCEXCL request on a device descriptor. */
  ghost function LockedBy(t: Table, fd: nat): (r: (Table, int))
    requires fd < |t.slots|
  {
    if OtherBelow(t, fd, t.slots[fd].dev, t.maxFd) then (t, -EACCES)
    else (t.(slots := t.slots[fd := t.slots[fd].(excl := true)]), 0)
  }

  datatype Request = Exclusive | NotExclusive | Other

  /** A call; `status` is what the driver's own function returns where one is called. */
  datatype Op =
    | Open(dev: Option<Driver>, flags: nat, status: int)
    | Close(fd: int, status: int)
    | Ioctl(fd: int, request: Request, status: int)
    | Redirect(std: nat, dev: Option<Driver>, flags: nat, status: int)

  /** What a caller must respect: a descriptor it names is negative or open, and only standard
      descriptors are redirected. */
  predicate Legal(t: Table, op: Op)
  {
    match op
    case Open(_, _, _) => true
    case Close(fd, _) => fd < |t.slots| && (fd < 0 || t.slots[fd].dev.Some?)
    case Ioctl(fd, _, _) => fd < |t.slots| && (fd < 0 || t.slots[fd].dev.Some?)
    case Redirect(std, _, _, _) => std < 3 <= |t.slots|
  }

  /** The table and the result after one call. */
  ghost function Step(t: Table, op: Op): (r: (Table, int))
    requires Legal(t, op)
  {
    match op
    case Open(dev, flags, status) => Opened(t, dev, flags, status)
    case Close(fd, status) => if fd < 0 then (t, -1) else (Released(t, fd), if status < 0 then -1 else 0)
    case Ioctl(fd, request, status) =>
      if fd < 0 then (t, -EBADFD)
      else if t.slots[fd].isDev && request == Exclusive then LockedBy(t, fd)
      else if t.slots[fd].isDev && request == NotExclusive then
        (t.(slots := t.slots[fd := t.slots[fd].(excl := false)]), 0)
      else (t, status)
    case Redirect(std, dev, flags, status) =>
      var (t', fd) := Opened(t, dev, flags, status);
      if 0 <= fd < |t'.slots| then (Released(t'.(slots := t'.slots[std := t'.slots[fd]]), fd), 0) else (t', fd)
  }

  // ---------------------------------------------------------------- what every call keeps

  ghost predicate Inv(t: Table)
  {
    && |t.slots| == MAX_FD && -1 <= t.maxFd < MAX_FD
    && (forall i :: 0 <= i < 3 ==> t.slots[i].dev.Some?)
    && (forall i :: 3 <= i < MAX_FD && i > t.maxFd ==> t.slots[i].dev.None?)
    && (forall i :: 0 <= i < MAX_FD && t.slots[i].dev.None? ==> t.slots[i] == FREE)
    && (forall i :: 0 <= i < MAX_FD && t.slots[i].isDev ==>
          t.maxFd >= 3 && t.slots[i].dev.Some? && t.slots[i].dev.value.isDevice)
    && (forall i :: 0 <= i < MAX_FD && t.slots[i].excl ==> t.slots[i].isDev)
    // the lock scan stops one slot early; every other descriptor on a locked device sits above the holder
    && (forall i, j | 0 <= i < MAX_FD && 0 <= j < MAX_FD && i != j ::
          t.slots[i].excl && t.slots[j].dev == t.slots[i].dev ==> i < j)
  }

  /** At most one descriptor holds the lock of any device. */
  ghost predicate SoleHolders(t: Table)
  {
    forall i, j :: 0 <= i < j < |t.slots| && t.slots[i].excl && t.slots[j].excl ==> t.slots[i].dev != t.slots[j].dev
  }

  lemma OpenKeeps(t: Table, dev: Option<Driver>, flags: nat, status: int)
    requires Inv(t)
    ensures var (t', rc) := Opened(t, dev, flags, status);
            && Inv(t')
            && (rc < 0 ==> rc == -1 && t'.slots == t.slots)
            && (rc >= 0 ==> 3 <= rc < MAX_FD && t.slots[rc].dev.None? && t'.slots == t.slots[rc := t'.slots[rc]]
                            && t'.slots[rc].dev == dev && !t'.slots[rc].excl)
  {
    if dev.Some? {
      var i := FirstFree(t.slots, 0);
      if i < |t.slots| {
        assert i >= 3;
        var t' := Taken(t, i, dev.value, flags);
        assert Released(t', i).slots == t.slots;
        if !(dev.value.isDevice && Locked(t', i, dev)) && dev.value.isDevice {
          forall h | 0 <= h < MAX_FD && h != i && t'.slots[h].excl
            ensures t'.slots[h].dev != dev
          {
            assert h <= t'.maxFd;
          }
        }
      }
    }
  }

  /** Every call keeps the invariant. */
  lemma StepKeeps(t: Table, op: Op)
    requires Inv(t) && Legal(t, op)
    ensures Inv(Step(t, op).0)
  {
    match op {
      case Open(dev, flags, status) =>
        OpenKeeps(t, dev, flags, status);
      case Close(fd, status) =>
      case Ioctl(fd, request, status) =>
        if fd >= 0 && t.slots[fd].isDev && request == Exclusive {
          LockKeeps(t, fd);
        }
      case Redirect(std, dev, flags, status) =>
        OpenKeeps(t, dev, flags, status);
        if Opened(t, dev, flags, status).1 >= 0 {
          RedirectKeeps(t, std, dev, flags, status);
        }
    }
  }

  lemma LockKeeps(t: Table, fd: nat)
    requires Inv(t) && fd < MAX_FD && t.slots[fd].isDev
    ensures Inv(LockedBy(t, fd).0)
  {
    if !OtherBelow(t, fd, t.slots[fd].dev, t.maxFd) {
      forall j | 0 <= j < MAX_FD && j != fd && t.slots[j].dev == t.slots[fd].dev
        ensures fd < j && !t.slots[j].excl
      {
        assert j >= t.maxFd;
      }
    }
  }

  lemma RedirectKeeps(t: Table, std: nat, dev: Option<Driver>, flags: nat, status: int)
    requires Inv(t) && std < 3 && Opened(t, dev, flags, status).1 >= 0
    ensures Inv(Step(t, Redirect(std, dev, flags, status)).0)
  {
    OpenKeeps(t, dev, flags, status);
    var (t', fd) := Opened(t, dev, flags, status);
    forall h | 0 <= h < MAX_FD && t'.slots[h].excl
      ensures t'.slots[h].dev != dev
    {
      OpenOfFreeDevice(t, dev, flags, status, h);
    }
  }

  /** What an open does to the descriptors. */
  lemma OpenSlots(t: Table, dev: Option<Driver>, flags: nat, status: int)
    requires Inv(t)
    ensures var (t', rc) := Opened(t, dev, flags, status);
            && (rc >= 0 ==> && dev.Some? && 3 <= rc < MAX_FD && t.slots[rc].dev.None?
                            && (forall j :: 0 <= j < rc ==> t.slots[j].dev.Some?)
                            && t'.slots == t.slots[rc := Slot(dev, false, dev.value.isDevice, flags)]
                            && t'.maxFd == if rc > t.maxFd then rc else t.maxFd)
            && (rc < 0 ==> rc == -1 && t'.slots == t.slots && t'.maxFd >= t.maxFd)
    ensures Opened(t, dev, flags, status).1 >= 0 <==>
              && dev.Some? && status >= 0
              && (exists i :: 0 <= i < MAX_FD && t.slots[i].dev.None?)
              && (dev.value.isDevice ==> forall h :: 0 <= h < MAX_FD && t.slots[h].dev == dev ==> !t.slots[h].excl)
  {
    OpenKeeps(t, dev, flags, status);
    OpenGranted(t, dev, flags, status);
  }

  /** Over all runs: a close of the holder, whatever its driver returns, makes the device free to open again exactly if the
      holder is not a standard descriptor. */
  lemma ClosingUnlocks(nullDev: Driver, ops: seq<Op>, t: Table, fd: nat, dev: Driver, status: int, flags: nat, willing: nat)
    requires Reaches(Reset(nullDev), ops, t) && fd < |t.slots| && t.slots[fd].excl && t.slots[fd].dev == Some(dev)
    ensures Legal(t, Close(fd, status))
    ensures Opened(Step(t, Close(fd, status)).0, Some(dev), flags, willing).1 >= 0 <==> fd > 2
  {
    RunKeeps(Reset(nullDev), ops, t);
    StepKeeps(t, Close(fd, status));
    var t' := Step(t, Close(fd, status)).0;
    OpenGranted(t', Some(dev), flags, willing);
    if fd > 2 {
      assert t'.slots[fd].dev.None?;
    } else {
      assert t'.slots[fd] == t.slots[fd];
    }
  }

  /** A successful open found no lock on the device, and leaves none. */
  lemma OpenOfFreeDevice(t: Table, dev: Option<Driver>, flags: nat, status: int, h: nat)
    requires Inv(t) && Opened(t, dev, flags, status).1 >= 0 && h < MAX_FD
    ensures var t' := Opened(t, dev, flags, status).0;
            t'.slots[h].excl ==> t'.slots[h].dev != dev
  {
    OpenKeeps(t, dev, flags, status);
  }

  /** No open of a locked device succeeds, and a refused open leaves every descriptor as it was. */
  lemma LockedDeviceRefused(t: Table, dev: Driver, flags: nat, status: int, h: nat)
    requires Inv(t) && h < MAX_FD && t.slots[h].excl && t.slots[h].dev == Some(dev)
    ensures var (t', rc) := Opened(t, Some(dev), flags, status);
            rc == -1 && t'.slots == t.slots
  {
    OpenKeeps(t, Some(dev), flags, status);
    var i := FirstFree(t.slots, 0);
    if i < |t.slots| {
      var t' := Taken(t, i, dev, flags);
      assert t'.slots[h] == t.slots[h] && h <= t'.maxFd;
    }
  }

  /** When an open is granted: the name is known, a descriptor is free, a device is not locked, and the
      driver agrees. */
  lemma OpenGranted(t: Table, dev: Option<Driver>, flags: nat, status: int)
    requires Inv(t)
    ensures Opened(t, dev, flags, status).1 >= 0 <==>
              && dev.Some? && status >= 0
              && (exists i :: 0 <= i < MAX_FD && t.slots[i].dev.None?)
              && (dev.value.isDevice ==> forall h :: 0 <= h < MAX_FD && t.slots[h].dev == dev ==> !t.slots[h].excl)
  {
    if dev.Some? {
      var i := FirstFree(t.slots, 0);
      if i < |t.slots| {
        var t' := Taken(t, i, dev.value, flags);
        if h :| 0 <= h < MAX_FD && t.slots[h].dev == dev && t.slots[h].excl {
          assert t'.slots[h] == t.slots[h] && h <= t'.maxFd;
        }
      }
    }
  }

  // ---------------------------------------------------------------- whole runs

  /** The tables a run of legal calls goes through. */
  ghost predicate Reaches(t: Table, ops: seq<Op>, t': Table)
    decreases |ops|
  {
    if ops == [] then t' == t
    else Legal(t, ops[0]) && Reaches(Step(t, ops[0]).0, ops[1..], t')
  }

  lemma {:induction false} RunKeeps(t: Table, ops: seq<Op>, t': Table)
    requires Inv(t) && Reaches(t, ops, t')
    ensures Inv(t')
    decreases |ops|
  {
    if ops != [] {
      StepKeeps(t, ops[0]);
      RunKeeps(Step(t, ops[0]).0, ops[1..], t');
    }
  }

  /** From reset, after any calls whatever: at most one descriptor per device holds its lock, and opening a
      locked device fails without touching any descriptor. */
  lemma ExclusionHolds(nullDev: Driver, ops: seq<Op>, t: Table)
    requires Reaches(Reset(nullDev), ops, t)
    ensures SoleHolders(t)
    ensures forall h, dev: Driver, flags: nat, status: int ::
              0 <= h < |t.slots| && t.slots[h].excl && t.slots[h].dev == Some(dev) ==>
                Opened(t, Some(dev), flags, status).1 == -1 && Opened(t, Some(dev), flags, status).0.slots == t.slots
  {
    RunKeeps(Reset(nullDev), ops, t);
    forall h, dev: Driver, flags: nat, status: int |
      0 <= h < |t.slots| && t.slots[h].excl && t.slots[h].dev == Some(dev)
      ensures Opened(t, Some(dev), flags, status).1 == -1 && Opened(t, Some(dev), flags, status).0.slots == t.slots
    {
      LockedDeviceRefused(t, dev, flags, status, h);
    }
  }

  // ---------------------------------------------------------------- what the lock does not promise

  /** Another descriptor refers to the same driver. */
  ghost predicate Shared(t: Table, fd: nat)
    requires fd < |t.slots|
  {
    exists i :: 0 <= i < |t.slots| && i != fd && t.slots[i].dev == t.slots[fd].dev
  }

  /** alt_fd_lock documents that it grants a lock if and only if no other descriptor refers to the device. It
      does so exactly unless the only other such descriptor is the highest one ever allocated. */
  lemma LockAsDocumented(t: Table, fd: nat)
    requires Inv(t) && fd < MAX_FD && t.slots[fd].isDev
    ensures (LockedBy(t, fd).1 == 0 <==> !Shared(t, fd)) <==>
              !(fd != t.maxFd && t.slots[t.maxFd].dev == t.slots[fd].dev
                && !OtherBelow(t, fd, t.slots[fd].dev, t.maxFd))
  {
    assert forall i :: 0 <= i < MAX_FD && t.slots[i].dev == t.slots[fd].dev ==> i <= t.maxFd;
  }

  /** The run that shows it: open a device twice, then lock the first descriptor. */
  lemma SharedDeviceLocked(nullDev: Driver, dev: Driver)
    requires dev.isDevice && nullDev != dev
    ensures var ops := [Open(Some(dev), 0, 0), Open(Some(dev), 0, 0), Ioctl(3, Exclusive, 0)];
            exists t :: Reaches(Reset(nullDev), ops, t) && |t.slots| == MAX_FD && t.slots[3].excl && Shared(t, 3)
  {
    var t0 := Reset(nullDev);
    var t1 := Table(t0.slots[3 := Slot(Some(dev), false, true, 0)], 3);
    var t2 := Table(t1.slots[4 := Slot(Some(dev), false, true, 0)], 4);
    var t3 := t2.(slots := t2.slots[3 := t2.slots[3].(excl := true)]);
    FirstFreeIs(t0.slots, 0, 3);
    assert Opened(t0, Some(dev), 0, 0) == (t1, 3);
    FirstFreeIs(t1.slots, 0, 4);
    assert Opened(t1, Some(dev), 0, 0) == (t2, 4);
    assert LockedBy(t2, 3) == (t3, 0);
    var ops := [Open(Some(dev), 0, 0), Open(Some(dev), 0, 0), Ioctl(3, Exclusive, 0)];
    assert ops[1..][1..] == [Ioctl(3, Exclusive, 0)];
    assert Reaches(t3, [], t3);
    assert Reaches(t2, [Ioctl(3, Exclusive, 0)], t3);
    assert Reaches(t1, ops[1..], t3);
    assert t3.slots[4].dev == t3.slots[3].dev;
  }

  lemma FirstFreeIs(slots: seq<Slot>, from: nat, i: nat)
    requires from <= i < |slots| && slots[i].dev.None? && forall j :: from <= j < i ==> slots[j].dev.Some?
    ensures FirstFree(slots, from) == i
  {
  }

  // ---------------------------------------------------------------- the table the HAL updates

  class FdTable {
    const fdList: array<Slot>
    var maxFd: int

    ghost predicate Valid()
      reads this, fdList
    {
      fdList.Length == MAX_FD && Inv(View())
    }

    ghost function View(): (t: Table)
      reads this, fdList
    {
      Table(fdList[..], maxFd)
    }

    constructor (nullDev: Driver)
      ensures Valid() && View() == Reset(nullDev) && fresh(fdList)
    {
      fdList := new Slot[MAX_FD](i => if 0 <= i < 3 then Slot(Some(nullDev), false, false, 0) else FREE);
      maxFd := -1;
    }

    /** alt_get_fd. */
    method GetFd(dev: Driver) returns (rc: int)
      requires Valid()
      modifies this, fdList
      ensures var i := FirstFree(old(fdList[..]), 0);
              if i == MAX_FD then rc == -EMFILE && View() == old(View())
              else rc == i && maxFd == (if i > old(maxFd) then i else old(maxFd))
                   && fdList[..] == old(fdList[..])[i := FREE.(dev := Some(dev))]
    {
      rc := -EMFILE;
      var i := 0;
      while i < MAX_FD
        invariant 0 <= i <= MAX_FD && View() == old(View()) && rc == -EMFILE
        invariant FirstFree(fdList[..], 0) == FirstFree(fdList[..], i)
      {
        if fdList[i].dev.None? {
          fdList[i] := fdList[i].(dev := Some(dev));
          if i > maxFd {
            maxFd := i;
          }
          return i;
        }
        i := i + 1;
      }
    }

    /** alt_release_fd. */
    method ReleaseFd(fd: int)
      requires fd < fdList.Length
      modifies fdList
      ensures View() == Released(old(View()), fd)
    {
      if fd > 2 {
        fdList[fd] := fdList[fd].(isDev := false, excl := false, flags := 0);
        fdList[fd] := fdList[fd].(dev := None);
      }
    }

    /** alt_file_locked. */
    method FileLocked(fd: nat) returns (rc: int)
      requires fd < fdList.Length && -1 <= maxFd < fdList.Length
      modifies fdList
      ensures fdList[..] == old(fdList[..])[fd := old(fdList[fd]).(isDev := true)]
      ensures rc == if Locked(View(), fd, fdList[fd].dev) then -EACCES else 0
    {
      fdList[fd] := fdList[fd].(isDev := true);
      var i := 0;
      while i <= maxFd
        invariant 0 <= i <= maxFd + 1
        invariant forall j :: 0 <= j < i && j != fd && fdList[j].dev == fdList[fd].dev ==> !fdList[j].excl
        invariant fdList[..] == old(fdList[..])[fd := old(fdList[fd]).(isDev := true)]
      {
        if fdList[i].dev == fdList[fd].dev && fdList[i].excl && i != fd {
          return -EACCES;
        }
        i := i + 1;
      }
      rc := 0;
    }

    /** open: `status` is what the driver's own open returns, 0 when it has none. */
    method Open(dev: Option<Driver>, flags: nat, status: int) returns (rc: int, errno: int)
      requires Valid()
      modifies this, fdList
      ensures Valid() && (View(), rc) == Step(old(View()), Op.Open(dev, flags, status))
      // granted exactly if the name and the driver allow it, a descriptor is free and nobody holds the device
      ensures rc >= 0 <==>
                && dev.Some? && status >= 0 && (exists i :: 0 <= i < MAX_FD && old(fdList[i].dev).None?)
                && (dev.value.isDevice ==> forall h :: 0 <= h < MAX_FD && old(fdList[h].dev) == dev ==> !old(fdList[h].excl))
      // the lowest free descriptor refers to the driver, unlocked; a refusal leaves all descriptors as they were
      ensures rc >= 0 ==> 3 <= rc < MAX_FD && old(fdList[rc].dev).None? && forall j :: 0 <= j < rc ==> old(fdList[j].dev).Some?
      ensures rc >= 0 ==> fdList[..] == old(fdList[..])[rc := Slot(dev, false, dev.value.isDevice, flags)]
      ensures rc >= 0 ==> maxFd == if rc > old(maxFd) then rc else old(maxFd)
      ensures rc < 0 ==> rc == -1 && fdList[..] == old(fdList[..]) && maxFd >= old(maxFd)
      ensures rc >= 0 ==> errno == 0
      ensures rc < 0 ==>
                var i := FirstFree(old(fdList[..]), 0);
                errno == if dev.None? then ENODEV
                         else if i == MAX_FD then EMFILE
                         else if dev.value.isDevice && Locked(Taken(old(View()), i, dev.value, flags), i, dev) then EACCES
                         else -status
    {
      hide Inv;
      StepKeeps(View(), Op.Open(dev, flags, status));
      OpenSlots(View(), dev, flags, status);
      var index, st := -1, -ENODEV;
      if dev.Some? {
        index := GetFd(dev.value);
        if index < 0 {
          st := index;
        } else {
          fdList[index] := fdList[index].(flags := flags, excl := false, isDev := false);
          st := 0;
          if dev.value.isDevice {
            st := FileLocked(index);
          }
          assert View() == Taken(old(View()), index, dev.value, flags);
          if st >= 0 {
            st := status;
          }
        }
      }
      if st < 0 {
        ReleaseFd(index);
        return -1, -st;
      }
      return index, 0;
    }

    /** close. */
    method Close(fd: int, status: int) returns (rc: int, errno: int)
      requires Valid() && Legal(View(), Op.Close(fd, status))
      modifies this, fdList
      ensures Valid() && (View(), rc) == Step(old(View()), Op.Close(fd, status))
      // the descriptor is free afterwards, whatever the driver says, unless it is a standard one
      ensures fd > 2 ==> fdList[..] == old(fdList[..])[fd := Slot(None, false, false, 0)]
      ensures fd <= 2 ==> fdList[..] == old(fdList[..])
      ensures maxFd == old(maxFd)
      ensures rc == 0 <==> fd >= 0 && status >= 0
      ensures errno == if rc == 0 then 0 else if fd < 0 then EBADFD else -status
    {
      StepKeeps(View(), Op.Close(fd, status));
      if fd >= 0 {
        ReleaseFd(fd);
        if status < 0 {
          return -1, -status;
        }
        return 0, 0;
      } else {
        return -1, EBADFD;
      }
    }

    /** alt_fd_lock: the scan stops before `alt_max_fd`. */
    method FdLock(fd: nat) returns (rc: int)
      requires fd < fdList.Length && -1 <= maxFd < fdList.Length
      modifies fdList
      ensures (View(), rc) == LockedBy(old(View()), fd)
    {
      var i := 0;
      while i < maxFd
        invariant 0 <= i && (i <= maxFd || i == 0) && View() == old(View())
        invariant forall j :: 0 <= j < i && j != fd ==> fdList[j].dev != fdList[fd].dev
      {
        if i != fd && fdList[i].dev == fdList[fd].dev {
          return -EACCES;
        }
        i := i + 1;
      }
      fdList[fd] := fdList[fd].(excl := true);
      rc := 0;
    }

    /** alt_fd_unlock. */
    method FdUnlock(fd: nat) returns (rc: int)
      requires fd < fdList.Length
      modifies fdList
      ensures rc == 0 && fdList[..] == old(fdList[..])[fd := old(fdList[fd]).(excl := false)]
    {
      fdList[fd] := fdList[fd].(excl := false);
      rc := 0;
    }

    /** ioctl: `status` is what the driver's own ioctl returns, -25 when it has none. */
    method Ioctl(fd: int, request: Request, status: int) returns (rc: int, errno: int)
      requires Valid() && Legal(View(), Op.Ioctl(fd, request, status))
      modifies this, fdList
      ensures Valid() && (View(), rc) == Step(old(View()), Op.Ioctl(fd, request, status))
      ensures fd < 0 ==> rc == -EBADFD && fdList[..] == old(fdList[..])
      // a device is locked unless a descriptor below the highest one ever allocated refers to it too
      ensures fd >= 0 && old(fdList[fd].isDev) && request == Exclusive ==>
                if exists i :: 0 <= i < maxFd && i != fd && old(fdList[i].dev) == old(fdList[fd].dev)
                then rc == -EACCES && fdList[..] == old(fdList[..])
                else rc == 0 && fdList[..] == old(fdList[..])[fd := old(fdList[fd]).(excl := true)]
      ensures fd >= 0 && old(fdList[fd].isDev) && request == NotExclusive ==>
                rc == 0 && fdList[..] == old(fdList[..])[fd := old(fdList[fd]).(excl := false)]
      ensures fd >= 0 && (!old(fdList[fd].isDev) || request == Other) ==> rc == status && fdList[..] == old(fdList[..])
      ensures maxFd == old(maxFd)
      ensures errno == if rc < 0 then -rc else 0
    {
      StepKeeps(View(), Op.Ioctl(fd, request, status));
      if fd >= 0 {
        if fdList[fd].isDev && request == Exclusive {
          rc := FdLock(fd);
        } else if fdList[fd].isDev && request == NotExclusive {
          rc := FdUnlock(fd);
        } else {
          rc := status;
        }
      } else {
        rc := -EBADFD;
      }
      errno := 0;
      if rc < 0 {
        errno := -rc;
      }
    }

    /** alt_open_fd: open, copy the new descriptor over a standard one, and release it. */
    method OpenFd(std: nat, dev: Option<Driver>, flags: nat, status: int) returns (rc: int)
      requires Valid() && std < 3
      modifies this, fdList
      ensures Valid() && (View(), rc) == Step(old(View()), Redirect(std, dev, flags, status))
      // the standard descriptor refers to the driver, and no other descriptor has changed
      ensures rc == 0 ==> dev.Some? && fdList[..] == old(fdList[..])[std := Slot(dev, false, dev.value.isDevice, flags)]
      ensures rc != 0 ==> rc == -1 && fdList[..] == old(fdList[..])
    {
      StepKeeps(View(), Redirect(std, dev, flags, status));
      OpenKeeps(View(), dev, flags, status);
      var fd, _ := Open(dev, flags, status);
      if fd >= 0 {
        fdList[std] := fdList[fd];
        ReleaseFd(fd);
        rc := 0;
      } else {
        rc := fd;
      }
    }
  }
}
