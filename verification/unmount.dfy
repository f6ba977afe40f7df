/** `unmountExternalDevice` and `#unmountAllMountedExternalDevices`: unmount every mounted partition
    of one USB device, clean up left-over mount points, optionally delete the device from the kernel,
    and announce the change. */
module Unmount {
  import opened Wrappers
  import opened Seqs
  import opened BlockDevices
  import opened Host
  import opened Automount
  import opened Cleanup
  import opened Queries

  /** The first device with the given id, as `Array.prototype.find` returns it. */
  function FindDevice(devices: seq<BlockDevice>, id: string): (r: Option<BlockDevice>)
    ensures r.None? <==> forall i :: 0 <= i < |devices| ==> devices[i].id != id
    ensures r.Some? ==> exists i ::
      (0 <= i < |devices| && devices[i] == r.value && r.value.id == id
       && forall j :: 0 <= j < i ==> devices[j].id != id)
  {
    if devices == [] then None
    else if devices[0].id == id then
      assert devices[0] == devices[0];
      Some(devices[0])
    else
      var r := FindDevice(devices[1..], id);
      if r.Some? then
        var i :| 0 <= i < |devices[1..]| && devices[1..][i] == r.value && r.value.id == id
          && forall j :: 0 <= j < i ==> devices[1..][j].id != id;
        assert devices[i + 1] == r.value;
        r
      else r
  }

  function UmountOf(p: Partition): Effect {
    Umount(p.id)
  }

  /** The partition loop: `umount --all-targets` for each partition that has a mount point. A
      successful command releases all of that partition's mount points; a failed one is logged,
      flags the run as failed and moves on. Returns the new host and the failure flag. */
  function UmountPartitions(h: HostState, ps: seq<Partition>, umountOk: string -> bool): (r: (HostState, bool))
    ensures r.0.lsblk == h.lsblk && r.0.baseListable == h.baseListable && r.0.entries == h.entries
    ensures r.0.mounted <= h.mounted
  {
    if ps == [] then (h, false)
    else
      var prev := UmountPartitions(h, ps[..|ps| - 1], umountOk);
      var p := ps[|ps| - 1];
      if !HasMountpoints(p) then prev
      else
        var h1 := prev.0.(trace := prev.0.trace + [Umount(p.id)]);
        if umountOk(p.id) then (h1.(mounted := h1.mounted - set m | m in p.mountpoints), prev.1)
        else (h1, true)
  }

  /** The loop issues `umount` exactly for the partitions that have a mount point, in order. */
  lemma {:induction false} UmountPartitionsTrace(h: HostState, ps: seq<Partition>, umountOk: string -> bool)
    ensures UmountPartitions(h, ps, umountOk).0.trace == h.trace + Map(UmountOf, Filter(HasMountpoints, ps))
  {
    if ps == [] {
      assert h.trace + [] == h.trace;
    } else {
      var n := |ps| - 1;
      var p := ps[n];
      var before, last := Filter(HasMountpoints, ps[..n]), Filter(HasMountpoints, [p]);
      calc {
        UmountPartitions(h, ps, umountOk).0.trace;
        { UmountStepTrace(h, ps, umountOk); }
        UmountPartitions(h, ps[..n], umountOk).0.trace + Map(UmountOf, last);
        { UmountPartitionsTrace(h, ps[..n], umountOk); }
        (h.trace + Map(UmountOf, before)) + Map(UmountOf, last);
        { MapAppend(UmountOf, before, last); }
        h.trace + Map(UmountOf, before + last);
        { FilterAppend(HasMountpoints, ps[..n], [p]); assert ps == ps[..n] + [p]; }
        h.trace + Map(UmountOf, Filter(HasMountpoints, ps));
      }
    }
  }

  /** The last partition adds its `umount` exactly when it has a mount point. */
  lemma UmountStepTrace(h: HostState, ps: seq<Partition>, umountOk: string -> bool)
    requires ps != []
    ensures UmountPartitions(h, ps, umountOk).0.trace
      == UmountPartitions(h, ps[..|ps| - 1], umountOk).0.trace + Map(UmountOf, Filter(HasMountpoints, [ps[|ps| - 1]]))
  {
    var p := ps[|ps| - 1];
    FilterSingleton(HasMountpoints, p);
    if !HasMountpoints(p) {
      assert Map(UmountOf, Filter(HasMountpoints, [p])) == [];
    } else {
      assert Map(UmountOf, Filter(HasMountpoints, [p])) == [Umount(p.id)];
    }
  }

  /** The run is flagged as failed exactly when some partition with a mount point failed to unmount. */
  lemma {:induction false} UmountPartitionsFailed(h: HostState, ps: seq<Partition>, umountOk: string -> bool)
    ensures UmountPartitions(h, ps, umountOk).1 <==>
      exists i :: 0 <= i < |ps| && HasMountpoints(ps[i]) && !umountOk(ps[i].id)
  {
    if ps != [] {
      var n := |ps| - 1;
      UmountPartitionsFailed(h, ps[..n], umountOk);
      if exists i :: 0 <= i < n && HasMountpoints(ps[..n][i]) && !umountOk(ps[..n][i].id) {
        var i :| 0 <= i < n && HasMountpoints(ps[..n][i]) && !umountOk(ps[..n][i].id);
        assert ps[i] == ps[..n][i];
      }
      if exists i :: 0 <= i < |ps| && HasMountpoints(ps[i]) && !umountOk(ps[i].id) {
        var i :| 0 <= i < |ps| && HasMountpoints(ps[i]) && !umountOk(ps[i].id);
        if i < n {
          assert ps[..n][i] == ps[i];
        }
      }
    }
  }

  /** A mount point stays active exactly when it was active and no partition listing it was
      unmounted successfully. */
  lemma {:induction false} UmountPartitionsMounted(h: HostState, ps: seq<Partition>, umountOk: string -> bool, m: string)
    ensures m in UmountPartitions(h, ps, umountOk).0.mounted <==>
      m in h.mounted && forall i :: 0 <= i < |ps| && umountOk(ps[i].id) ==> m !in ps[i].mountpoints
  {
    if ps != [] {
      var n := |ps| - 1;
      UmountPartitionsMounted(h, ps[..n], umountOk, m);
      if m in h.mounted && forall i :: 0 <= i < n && umountOk(ps[..n][i].id) ==> m !in ps[..n][i].mountpoints {
        forall i | 0 <= i < n && umountOk(ps[i].id)
          ensures m !in ps[i].mountpoints
        {
          assert ps[..n][i] == ps[i];
        }
      }
      if !(forall i :: 0 <= i < n && umountOk(ps[..n][i].id) ==> m !in ps[..n][i].mountpoints) {
        var i :| 0 <= i < n && umountOk(ps[..n][i].id) && m in ps[..n][i].mountpoints;
        assert ps[i] == ps[..n][i];
      }
    }
  }

  /** The announcement and verdict at the end of the queued task. */
  function Finish(h: HostState, failed: bool): (HostState, Result<bool, StorageError>) {
    (h.(trace := h.trace + [StorageChanged]), if failed then Err(FailedUnmounts) else Ok(true))
  }

  /** The task after the partition loop: clean up left-over mount points, write the delete file when
      asked to, announce, and reject with `[failed-unmounts]` if some `umount` failed. */
  function AfterUmounts(files: Collaborators, h: HostState, id: string, remove: bool, failed: bool, deleteOk: bool)
    : (HostState, Result<bool, StorageError>)
  {
    match Clean(files, h)
    case Err(e) => (h, Err(e))
    case Ok(h2) =>
      if remove then
        var h3 := h2.(trace := h2.trace + [DeleteDevice(id)]);
        if deleteOk then Finish(h3, failed) else (h3, Err(DeleteFailed))
      else Finish(h2, failed)
  }

  /** `unmountExternalDevice(id, {remove})`. `umountOk` says which partitions `umount` succeeds on and
      `deleteOk` whether the `/sys/block/<id>/device/delete` write succeeds. */
  function UnmountDevice(files: Collaborators, h: HostState, id: string, remove: bool,
                         umountOk: string -> bool, deleteOk: bool): (HostState, Result<bool, StorageError>)
  {
    match ExternalDevices(h.lsblk)
    case Err(e) => (h, Err(e))
    case Ok(devices) =>
      match FindDevice(devices, id)
      case None => (h, Err(InvalidDeviceId))
      case Some(device) =>
        var (h1, failed) := UmountPartitions(h, device.partitions, umountOk);
        AfterUmounts(files, h1, id, remove, failed, deleteOk)
  }

  /** An id that is not one of the current USB devices rejects with `[invalid-device-id]` before
      anything is done; a failing probe rejects before anything is done too. */
  lemma UnmountRejectsUnknown(files: Collaborators, h: HostState, id: string, remove: bool,
                              umountOk: string -> bool, deleteOk: bool)
    ensures h.lsblk.ProbeFailed? ==> UnmountDevice(files, h, id, remove, umountOk, deleteOk) == (h, Err(ProbeError))
    ensures ExternalDevices(h.lsblk).Ok? && (forall d :: d in ExternalDevices(h.lsblk).value ==> d.id != id) ==>
      UnmountDevice(files, h, id, remove, umountOk, deleteOk) == (h, Err(InvalidDeviceId))
  {
  }

  /** The effects after the partition loop: the left-over removals, then the delete write and the
      announcement as far as the task gets. */
  function Tail(listable: bool, id: string, remove: bool, deleteOk: bool): seq<Effect> {
    if !listable then []
    else (if remove then [DeleteDevice(id)] else []) + (if !remove || deleteOk then [StorageChanged] else [])
  }

  lemma AfterUmountsTrace(files: Collaborators, h: HostState, id: string, remove: bool, failed: bool, deleteOk: bool)
    returns (removals: seq<Effect>)
    ensures forall e :: e in removals ==> e.RemoveDir?
    ensures AfterUmounts(files, h, id, remove, failed, deleteOk).0.trace
      == h.trace + removals + Tail(h.baseListable, id, remove, deleteOk)
    ensures AfterUmounts(files, h, id, remove, failed, deleteOk).0.lsblk == h.lsblk
  {
    if h.baseListable {
      var h2 := Clean(files, h).value;
      CleanOnlyRemoves(files, h);
      removals := h2.trace[|h.trace|..];
      assert h2.trace == h.trace + removals;
    } else {
      removals := [];
    }
  }

  /** The known-device trace in three parts: the `umount` commands, the left-over removals, then the
      delete write and the announcement as far as the task gets. */
  lemma UnmountDeviceTrace(files: Collaborators, h: HostState, id: string, remove: bool,
                           umountOk: string -> bool, deleteOk: bool, device: BlockDevice)
    returns (umounts: seq<Effect>, removals: seq<Effect>, tail: seq<Effect>)
    requires ExternalDevices(h.lsblk).Ok? && FindDevice(ExternalDevices(h.lsblk).value, id) == Some(device)
    ensures umounts == Map(UmountOf, Filter(HasMountpoints, device.partitions))
    ensures forall e :: e in umounts ==> e.Umount?
    ensures forall e :: e in removals ==> e.RemoveDir?
    ensures tail == Tail(h.baseListable, id, remove, deleteOk)
    ensures UnmountDevice(files, h, id, remove, umountOk, deleteOk).0.trace == h.trace + umounts + removals + tail
    ensures UnmountDevice(files, h, id, remove, umountOk, deleteOk).0.lsblk == h.lsblk
  {
    var (h1, failed) := UmountPartitions(h, device.partitions, umountOk);
    assert UnmountDevice(files, h, id, remove, umountOk, deleteOk) == AfterUmounts(files, h1, id, remove, failed, deleteOk);
    UmountPartitionsTrace(h, device.partitions, umountOk);
    UmountDeltaHasNoDelete(device.partitions);
    umounts := Map(UmountOf, Filter(HasMountpoints, device.partitions));
    removals := AfterUmountsTrace(files, h1, id, remove, failed, deleteOk);
    tail := Tail(h.baseListable, id, remove, deleteOk);
  }

  /** For a known device: the verdict is `true` exactly when the base directory could be listed, the
      delete write (if asked for) succeeded and every mounted partition unmounted; it is
      `[failed-unmounts]` exactly when only the last of these fails. */
  lemma UnmountDeviceVerdict(files: Collaborators, h: HostState, id: string, remove: bool,
                             umountOk: string -> bool, deleteOk: bool, device: BlockDevice)
    requires ExternalDevices(h.lsblk).Ok? && FindDevice(ExternalDevices(h.lsblk).value, id) == Some(device)
    ensures var r := UnmountDevice(files, h, id, remove, umountOk, deleteOk).1;
      var failing := exists i ::
        (0 <= i < |device.partitions| && HasMountpoints(device.partitions[i]) && !umountOk(device.partitions[i].id));
      var reached := h.baseListable && (!remove || deleteOk);
      && (r.Ok? ==> r.value)
      && (r == Ok(true) <==> reached && !failing)
      && (r == Err(FailedUnmounts) <==> reached && failing)
      && (!h.baseListable ==> r == Err(ListingFailed))
      && (h.baseListable && remove && !deleteOk ==> r == Err(DeleteFailed))
  {
    var (h1, failed) := UmountPartitions(h, device.partitions, umountOk);
    assert UnmountDevice(files, h, id, remove, umountOk, deleteOk) == AfterUmounts(files, h1, id, remove, failed, deleteOk);
    UmountPartitionsFailed(h, device.partitions, umountOk);
  }

  /** A trace extended by `umount`s, removals and a tail only grows, and the delete write and the
      announcement appear in the extension exactly when they appear in the tail. */
  lemma TailMembers(t: seq<Effect>, t': seq<Effect>, umounts: seq<Effect>, removals: seq<Effect>, tail: seq<Effect>, id: string)
    requires t' == t + umounts + removals + tail
    requires forall e :: e in umounts ==> e.Umount?
    requires forall e :: e in removals ==> e.RemoveDir?
    ensures |t| <= |t'| && t'[..|t|] == t
    ensures StorageChanged in t'[|t|..] <==> StorageChanged in tail
    ensures DeleteDevice(id) in t'[|t|..] <==> DeleteDevice(id) in tail
    ensures (forall e :: e in tail ==> !e.DeleteDevice?) ==> forall e :: e in t'[|t|..] ==> !e.DeleteDevice?
  {
    assert t'[|t|..] == umounts + removals + tail;
    assert StorageChanged !in umounts + removals;
    assert DeleteDevice(id) !in umounts + removals;
  }

  /** For a known device, the effects: the trace only grows; the device is deleted exactly when a
      hard eject was asked for and the clean-up could list the base directory; the change is
      announced exactly when the task gets past the delete write. */
  lemma UnmountDeviceEffects(files: Collaborators, h: HostState, id: string, remove: bool,
                             umountOk: string -> bool, deleteOk: bool, device: BlockDevice)
    requires ExternalDevices(h.lsblk).Ok? && FindDevice(ExternalDevices(h.lsblk).value, id) == Some(device)
    ensures var h' := UnmountDevice(files, h, id, remove, umountOk, deleteOk).0;
      && |h.trace| <= |h'.trace| && h'.trace[..|h.trace|] == h.trace
      && (StorageChanged in h'.trace[|h.trace|..] <==> h.baseListable && (!remove || deleteOk))
      && (DeleteDevice(id) in h'.trace[|h.trace|..] <==> h.baseListable && remove)
      && h'.lsblk == h.lsblk
  {
    var umounts, removals, tail := UnmountDeviceTrace(files, h, id, remove, umountOk, deleteOk, device);
    TailMembers(h.trace, UnmountDevice(files, h, id, remove, umountOk, deleteOk).0.trace, umounts, removals, tail, id);
    TailOf(h.baseListable, id, remove, deleteOk);
  }

  /** Which of the delete write and the announcement a tail holds. */
  lemma TailOf(listable: bool, id: string, remove: bool, deleteOk: bool)
    ensures StorageChanged in Tail(listable, id, remove, deleteOk) <==> listable && (!remove || deleteOk)
    ensures DeleteDevice(id) in Tail(listable, id, remove, deleteOk) <==> listable && remove
  {
  }

  lemma UmountDeltaHasNoDelete(ps: seq<Partition>)
    ensures forall e :: e in Map(UmountOf, Filter(HasMountpoints, ps)) ==> e.Umount?
  {
  }

  function DeviceId(d: BlockDevice): string {
    d.id
  }

  /** The device loop of `#unmountAllMountedExternalDevices`: a soft unmount (`remove: false`) of each
      device in turn, each failure logged and skipped. */
  function UnmountEach(files: Collaborators, h: HostState, ids: seq<string>, umountOk: string -> bool): HostState {
    if ids == [] then h
    else UnmountDevice(files, UnmountEach(files, h, ids[..|ids| - 1], umountOk), ids[|ids| - 1], false, umountOk, true).0
  }

  /** `#unmountAllMountedExternalDevices`: the mounted USB devices are listed once; a failing listing
      rejects before anything is unmounted. */
  function UnmountAllMounted(files: Collaborators, h: HostState, umountOk: string -> bool): (HostState, Result<(), StorageError>) {
    match MountedExternalDevices(files, h.lsblk)
    case Err(e) => (h, Err(e))
    case Ok(devices) => (UnmountEach(files, h, Map(DeviceId, devices), umountOk), Ok(()))
  }

  /** A soft unmount (`remove: false`) only appends to the trace and never deletes a device. */
  lemma SoftUnmountNeverDeletes(files: Collaborators, h: HostState, id: string, umountOk: string -> bool, deleteOk: bool)
    ensures var h' := UnmountDevice(files, h, id, false, umountOk, deleteOk).0;
      && |h.trace| <= |h'.trace| && h'.trace[..|h.trace|] == h.trace
      && (forall e :: e in h'.trace[|h.trace|..] ==> !e.DeleteDevice?)
      && h'.lsblk == h.lsblk
  {
    if ExternalDevices(h.lsblk).Ok? && FindDevice(ExternalDevices(h.lsblk).value, id).Some? {
      var device := FindDevice(ExternalDevices(h.lsblk).value, id).value;
      var umounts, removals, tail := UnmountDeviceTrace(files, h, id, false, umountOk, deleteOk, device);
      TailMembers(h.trace, UnmountDevice(files, h, id, false, umountOk, deleteOk).0.trace, umounts, removals, tail, id);
    }
  }

  /** `stop` is a soft eject: unmounting every mounted device never writes a device's `/sys` delete
      file, so the devices are found again on the next start; it only appends to the trace and leaves
      lsblk's answer alone. */
  lemma {:induction false} UnmountEachNeverDeletes(files: Collaborators, h: HostState, ids: seq<string>, umountOk: string -> bool)
    ensures var h' := UnmountEach(files, h, ids, umountOk);
      && |h.trace| <= |h'.trace| && h'.trace[..|h.trace|] == h.trace
      && (forall e :: e in h'.trace[|h.trace|..] ==> !e.DeleteDevice?)
      && h'.lsblk == h.lsblk
  {
    if ids != [] {
      var n := |ids| - 1;
      var prev := UnmountEach(files, h, ids[..n], umountOk);
      var h' := UnmountEach(files, h, ids, umountOk);
      UnmountEachNeverDeletes(files, h, ids[..n], umountOk);
      SoftUnmountNeverDeletes(files, prev, ids[n], umountOk, true);
      ExtendWithoutDelete(h.trace, prev.trace, h'.trace);
    }
  }

  /** Two extensions of a trace that write no delete file make one such extension. */
  lemma ExtendWithoutDelete(t0: seq<Effect>, t1: seq<Effect>, t2: seq<Effect>)
    requires |t0| <= |t1| && t1[..|t0|] == t0 && forall e :: e in t1[|t0|..] ==> !e.DeleteDevice?
    requires |t1| <= |t2| && t2[..|t1|] == t1 && forall e :: e in t2[|t1|..] ==> !e.DeleteDevice?
    ensures |t0| <= |t2| && t2[..|t0|] == t0 && forall e :: e in t2[|t0|..] ==> !e.DeleteDevice?
  {
    assert t2[|t0|..] == t1[|t0|..] + t2[|t1|..];
    assert t2[..|t0|] == t1[..|t0|];
  }

  /** The whole of `#unmountAllMountedExternalDevices` never deletes a device. */
  lemma UnmountAllNeverDeletes(files: Collaborators, h: HostState, umountOk: string -> bool)
    ensures var (h', r) := UnmountAllMounted(files, h, umountOk);
      && (r.Err? ==> h' == h && r == Err(ProbeError))
      && |h.trace| <= |h'.trace| && h'.trace[..|h.trace|] == h.trace
      && (forall e :: e in h'.trace[|h.trace|..] ==> !e.DeleteDevice?)
  {
    if MountedExternalDevices(files, h.lsblk).Ok? {
      UnmountEachNeverDeletes(files, h, Map(DeviceId, MountedExternalDevices(files, h.lsblk).value), umountOk);
    }
  }

  predicate IsUmount(e: Effect) {
    e.Umount?
  }

  /** The `umount` commands `unmountExternalDevice(id)` issues against the listed devices: one per
      partition of the device with that id that has a mount point, or none for an unknown id. */
  function DeviceUmounts(devices: seq<BlockDevice>, id: string): seq<Effect> {
    match FindDevice(devices, id)
    case None => []
    case Some(device) => Map(UmountOf, Filter(HasMountpoints, device.partitions))
  }

  /** The `umount` commands of unmounting the devices `ids` in turn. */
  function UmountsFor(devices: seq<BlockDevice>, ids: seq<string>): seq<Effect> {
    if ids == [] then []
    else UmountsFor(devices, ids[..|ids| - 1]) + DeviceUmounts(devices, ids[|ids| - 1])
  }

  /** The device with this id is listed and has a partition with a mount point whose id is `x`. */
  predicate HasMountedPartition(devices: seq<BlockDevice>, id: string, x: string) {
    FindDevice(devices, id).Some? &&
    exists p :: p in FindDevice(devices, id).value.partitions && HasMountpoints(p) && p.id == x
  }

  /** One unmount issues exactly the `umount` commands of its device, whatever else it does. */
  lemma UnmountDeviceUmounts(files: Collaborators, h: HostState, id: string, remove: bool,
                             umountOk: string -> bool, deleteOk: bool)
    requires ExternalDevices(h.lsblk).Ok?
    ensures var h' := UnmountDevice(files, h, id, remove, umountOk, deleteOk).0;
      && |h.trace| <= |h'.trace| && h'.trace[..|h.trace|] == h.trace
      && Filter(IsUmount, h'.trace[|h.trace|..]) == DeviceUmounts(ExternalDevices(h.lsblk).value, id)
  {
    var h' := UnmountDevice(files, h, id, remove, umountOk, deleteOk).0;
    var found := FindDevice(ExternalDevices(h.lsblk).value, id);
    if found.None? {
      assert h' == h;
      assert h'.trace[|h.trace|..] == [];
    } else {
      var umounts, removals, tail := UnmountDeviceTrace(files, h, id, remove, umountOk, deleteOk, found.value);
      UmountsOfDelta(h.trace, h'.trace, umounts, removals, tail, h.baseListable, id, remove, deleteOk);
    }
  }

  /** In a trace extended by `umount`s, removals and a tail, the `umount`s of the extension are the first part. */
  lemma UmountsOfDelta(t: seq<Effect>, t': seq<Effect>, umounts: seq<Effect>, removals: seq<Effect>, tail: seq<Effect>,
                       listable: bool, id: string, remove: bool, deleteOk: bool)
    requires t' == t + umounts + removals + tail
    requires forall e :: e in umounts ==> e.Umount?
    requires forall e :: e in removals ==> e.RemoveDir?
    requires tail == Tail(listable, id, remove, deleteOk)
    ensures |t| <= |t'| && t'[..|t|] == t
    ensures Filter(IsUmount, t'[|t|..]) == umounts
  {
    assert t'[|t|..] == umounts + removals + tail;
    assert t'[..|t|] == t;
    forall i | 0 <= i < |umounts| ensures IsUmount(umounts[i]) {
      assert umounts[i] in umounts;
    }
    forall i | 0 <= i < |removals| ensures !IsUmount(removals[i]) {
      assert removals[i] in removals;
    }
    FilterAllPass(IsUmount, umounts);
    FilterNonePass(IsUmount, removals);
    FilterNonePass(IsUmount, tail);
    FilterAppend(IsUmount, umounts, removals);
    FilterAppend(IsUmount, umounts + removals, tail);
  }

  /** Soft-unmounting the devices `ids` in turn issues exactly their `umount` commands, device by
      device, in order. */
  lemma {:induction false} UnmountEachUmounts(files: Collaborators, h: HostState, ids: seq<string>, umountOk: string -> bool)
    requires ExternalDevices(h.lsblk).Ok?
    ensures var h' := UnmountEach(files, h, ids, umountOk);
      && |h.trace| <= |h'.trace|
      && Filter(IsUmount, h'.trace[|h.trace|..]) == UmountsFor(ExternalDevices(h.lsblk).value, ids)
  {
    var h' := UnmountEach(files, h, ids, umountOk);
    UnmountEachNeverDeletes(files, h, ids, umountOk);
    if ids == [] {
      assert h'.trace[|h.trace|..] == [];
    } else {
      var n := |ids| - 1;
      var prev := UnmountEach(files, h, ids[..n], umountOk);
      UnmountEachNeverDeletes(files, h, ids[..n], umountOk);
      UnmountEachUmounts(files, h, ids[..n], umountOk);
      UnmountDeviceUmounts(files, prev, ids[n], false, umountOk, true);
      TraceSplit(h.trace, prev.trace, h'.trace);
      FilterAppend(IsUmount, prev.trace[|h.trace|..], h'.trace[|prev.trace|..]);
    }
  }

  lemma TraceSplit(t0: seq<Effect>, t1: seq<Effect>, t2: seq<Effect>)
    requires |t0| <= |t1| && t1[..|t0|] == t0 && |t1| <= |t2| && t2[..|t1|] == t1
    ensures t2[|t0|..] == t1[|t0|..] + t2[|t1|..]
  {
  }

  /** A `umount` belongs to the commands for `ids` exactly when one of those devices has a partition
      with a mount point and that id. */
  lemma {:induction false} UmountsForMembers(devices: seq<BlockDevice>, ids: seq<string>, x: string)
    ensures Umount(x) in UmountsFor(devices, ids) <==> exists id :: id in ids && HasMountedPartition(devices, id, x)
  {
    if ids != [] {
      var n := |ids| - 1;
      UmountsForMembers(devices, ids[..n], x);
      DeviceUmountsMembers(devices, ids[n], x);
      assert ids == ids[..n] + [ids[n]];
      assert UmountsFor(devices, ids) == UmountsFor(devices, ids[..n]) + DeviceUmounts(devices, ids[n]);
    }
  }

  lemma DeviceUmountsMembers(devices: seq<BlockDevice>, id: string, x: string)
    ensures Umount(x) in DeviceUmounts(devices, id) <==> HasMountedPartition(devices, id, x)
  {
    if FindDevice(devices, id).Some? {
      var ps := FindDevice(devices, id).value.partitions;
      var kept := Filter(HasMountpoints, ps);
      if Umount(x) in Map(UmountOf, kept) {
        var k :| 0 <= k < |kept| && Map(UmountOf, kept)[k] == Umount(x);
        assert kept[k] in kept;
        FilterMemberPasses(HasMountpoints, ps, kept[k]);
      }
      if HasMountedPartition(devices, id, x) {
        var p :| p in ps && HasMountpoints(p) && p.id == x;
        FilterKeeps(HasMountpoints, ps, p);
        var k :| 0 <= k < |kept| && kept[k] == p;
        assert Map(UmountOf, kept)[k] == Umount(x);
      }
    }
  }

  predicate IsAnnouncement(e: Effect) {
    e.StorageChanged?
  }

  /** A soft unmount of a listed device announces the change once when the base directory can be
      listed and not at all otherwise. */
  lemma SoftUnmountAnnounces(files: Collaborators, h: HostState, id: string, umountOk: string -> bool, deleteOk: bool)
    requires ExternalDevices(h.lsblk).Ok? && FindDevice(ExternalDevices(h.lsblk).value, id).Some?
    ensures var h' := UnmountDevice(files, h, id, false, umountOk, deleteOk).0;
      && |h.trace| <= |h'.trace| && h'.trace[..|h.trace|] == h.trace
      && h'.baseListable == h.baseListable && h'.lsblk == h.lsblk
      && |Filter(IsAnnouncement, h'.trace[|h.trace|..])| == (if h.baseListable then 1 else 0)
  {
    var device := FindDevice(ExternalDevices(h.lsblk).value, id).value;
    var (h1, failed) := UmountPartitions(h, device.partitions, umountOk);
    assert UnmountDevice(files, h, id, false, umountOk, deleteOk) == AfterUmounts(files, h1, id, false, failed, deleteOk);
    var umounts, removals, tail := UnmountDeviceTrace(files, h, id, false, umountOk, deleteOk, device);
    AnnouncementsOfDelta(h.trace, UnmountDevice(files, h, id, false, umountOk, deleteOk).0.trace, umounts, removals, tail);
  }

  /** In a trace extended by `umount`s, removals and a soft unmount's tail, the announcements of the
      extension are the tail. */
  lemma AnnouncementsOfDelta(t: seq<Effect>, t': seq<Effect>, umounts: seq<Effect>, removals: seq<Effect>, tail: seq<Effect>)
    requires t' == t + umounts + removals + tail
    requires forall e :: e in umounts ==> e.Umount?
    requires forall e :: e in removals ==> e.RemoveDir?
    requires tail == [] || tail == [StorageChanged]
    ensures |t| <= |t'| && t'[..|t|] == t
    ensures Filter(IsAnnouncement, t'[|t|..]) == tail
  {
    assert t'[|t|..] == umounts + removals + tail;
    assert t'[..|t|] == t;
    forall i | 0 <= i < |umounts| ensures !IsAnnouncement(umounts[i]) {
      assert umounts[i] in umounts;
    }
    forall i | 0 <= i < |removals| ensures !IsAnnouncement(removals[i]) {
      assert removals[i] in removals;
    }
    FilterNonePass(IsAnnouncement, umounts);
    FilterNonePass(IsAnnouncement, removals);
    FilterAllPass(IsAnnouncement, tail);
    FilterAppend(IsAnnouncement, umounts, removals);
    FilterAppend(IsAnnouncement, umounts + removals, tail);
  }

  /** Soft-unmounting listed devices in turn announces the change once per device when the base
      directory can be listed, and never otherwise. */
  lemma {:induction false} UnmountEachAnnounces(files: Collaborators, h: HostState, ids: seq<string>, umountOk: string -> bool)
    requires ExternalDevices(h.lsblk).Ok?
    requires forall i :: 0 <= i < |ids| ==> FindDevice(ExternalDevices(h.lsblk).value, ids[i]).Some?
    ensures var h' := UnmountEach(files, h, ids, umountOk);
      && |h.trace| <= |h'.trace| && h'.baseListable == h.baseListable
      && |Filter(IsAnnouncement, h'.trace[|h.trace|..])| == (if h.baseListable then |ids| else 0)
  {
    var h' := UnmountEach(files, h, ids, umountOk);
    UnmountEachNeverDeletes(files, h, ids, umountOk);
    if ids == [] {
      assert h'.trace[|h.trace|..] == [];
    } else {
      var n := |ids| - 1;
      var prev := UnmountEach(files, h, ids[..n], umountOk);
      UnmountEachNeverDeletes(files, h, ids[..n], umountOk);
      forall i | 0 <= i < n ensures FindDevice(ExternalDevices(h.lsblk).value, ids[..n][i]).Some? {
        assert ids[..n][i] == ids[i];
      }
      UnmountEachAnnounces(files, h, ids[..n], umountOk);
      SoftUnmountAnnounces(files, prev, ids[n], umountOk, true);
      TraceSplit(h.trace, prev.trace, h'.trace);
      FilterAppend(IsAnnouncement, prev.trace[|h.trace|..], h'.trace[|prev.trace|..]);
    }
  }

  /** The ids of the devices `#unmountAllMountedExternalDevices` unmounts, in listing order. */
  function MountedDeviceIds(files: Collaborators, h: HostState): seq<string>
    requires MountedExternalDevices(files, h.lsblk).Ok?
  {
    Map(DeviceId, MountedExternalDevices(files, h.lsblk).value)
  }

  /** Every device `#unmountAllMountedExternalDevices` lists is found again by `unmountExternalDevice`. */
  lemma MountedDevicesFound(files: Collaborators, h: HostState)
    requires MountedExternalDevices(files, h.lsblk).Ok?
    ensures ExternalDevices(h.lsblk).Ok?
    ensures var ids := MountedDeviceIds(files, h);
      forall i :: 0 <= i < |ids| ==> FindDevice(ExternalDevices(h.lsblk).value, ids[i]).Some?
  {
    var devices := ExternalDevices(h.lsblk).value;
    var mounted := MountedExternalDevices(files, h.lsblk).value;
    var ids := MountedDeviceIds(files, h);
    forall i | 0 <= i < |ids| ensures FindDevice(devices, ids[i]).Some? {
      assert mounted[i] in mounted;
      MountedViewSound(files, devices, mounted[i]);
      var orig :| orig in devices && mounted[i] == RestrictDevice(files)(orig);
    }
  }

  /** `#unmountAllMountedExternalDevices` unmounts every mounted USB device: the `umount` commands it
      issues are exactly, in order, one per partition with a mount point of each listed device. */
  lemma UnmountAllUmounts(files: Collaborators, h: HostState, umountOk: string -> bool)
    requires MountedExternalDevices(files, h.lsblk).Ok?
    ensures ExternalDevices(h.lsblk).Ok?
    ensures var h' := UnmountAllMounted(files, h, umountOk).0;
      && |h.trace| <= |h'.trace|
      && Filter(IsUmount, h'.trace[|h.trace|..]) == UmountsFor(ExternalDevices(h.lsblk).value, MountedDeviceIds(files, h))
  {
    assert UnmountAllMounted(files, h, umountOk).0 == UnmountEach(files, h, MountedDeviceIds(files, h), umountOk);
    UnmountEachUmounts(files, h, MountedDeviceIds(files, h), umountOk);
  }

  /** A partition is unmounted by `#unmountAllMountedExternalDevices` exactly when it has a mount
      point and belongs to one of the listed mounted USB devices. */
  lemma UnmountAllUnmountsEvery(files: Collaborators, h: HostState, umountOk: string -> bool, x: string)
    requires MountedExternalDevices(files, h.lsblk).Ok?
    ensures ExternalDevices(h.lsblk).Ok?
    ensures var h' := UnmountAllMounted(files, h, umountOk).0;
      && |h.trace| <= |h'.trace|
      && (Umount(x) in h'.trace[|h.trace|..] <==>
          exists id :: id in MountedDeviceIds(files, h) && HasMountedPartition(ExternalDevices(h.lsblk).value, id, x))
  {
    UnmountAllUmounts(files, h, umountOk);
    var h' := UnmountAllMounted(files, h, umountOk).0;
    var delta := h'.trace[|h.trace|..];
    FilterMembers(IsUmount, delta);
    assert Umount(x) in delta <==> Umount(x) in Filter(IsUmount, delta);
    UmountsForMembers(ExternalDevices(h.lsblk).value, MountedDeviceIds(files, h), x);
  }

  /** `#unmountAllMountedExternalDevices` announces the change once per mounted USB device when the
      base directory can be listed. */
  lemma UnmountAllAnnounces(files: Collaborators, h: HostState, umountOk: string -> bool)
    requires MountedExternalDevices(files, h.lsblk).Ok?
    ensures var h' := UnmountAllMounted(files, h, umountOk).0;
      && |h.trace| <= |h'.trace|
      && |Filter(IsAnnouncement, h'.trace[|h.trace|..])| == (if h.baseListable then |MountedDeviceIds(files, h)| else 0)
  {
    MountedDevicesFound(files, h);
    assert UnmountAllMounted(files, h, umountOk).0 == UnmountEach(files, h, MountedDeviceIds(files, h), umountOk);
    UnmountEachAnnounces(files, h, MountedDeviceIds(files, h), umountOk);
  }
}
