/** The `ExternalStorage` manager: its start/stop lifecycle with the disk-change subscription it
    keeps, and each queued operation as a method that changes the host in place. Every method is
    proved against the specification function of the same operation; the queue runs one task at a
    time, so each method runs to completion before the next starts. */
module ExternalStorageManager {
  import opened Wrappers
  import opened Seqs
  import opened BlockDevices
  import opened Host
  import opened Automount
  import opened Cleanup
  import opened Queries
  import opened Unmount

  /** Listener ids on the `system:disk:change` channel other than `id`. */
  function OtherListener(id: nat): nat -> bool {
    (l: nat) => l != id
  }

  /** The channel's listeners once `id` has been removed; removing one that is gone changes nothing. */
  function Unsubscribe(listeners: seq<nat>, id: nat): (r: seq<nat>)
    ensures id !in r
  {
    var r := Filter(OtherListener(id), listeners);
    if id in r then
      FilterMemberPasses(OtherListener(id), listeners, id);
      r
    else r
  }

  /** Subscribing a fresh listener and removing it again restores the channel, and removing it twice
      is the same as removing it once. */
  lemma UnsubscribeUndoesSubscribe(listeners: seq<nat>, id: nat)
    requires id !in listeners
    ensures Unsubscribe(listeners + [id], id) == listeners
    ensures Unsubscribe(Unsubscribe(listeners, id), id) == Unsubscribe(listeners, id)
  {
    var test := OtherListener(id);
    FilterAppend(test, listeners, [id]);
    FilterSingleton(test, id);
    forall i | 0 <= i < |listeners|
      ensures test(listeners[i])
    {
      assert listeners[i] in listeners;
    }
    FilterAllPass(test, listeners);
    FilterIdempotent(test, listeners);
  }

  /** `start()` on the host: nothing on unsupported hardware; otherwise the left-over clean-up, whose
      failure rejects `start`, then an automount pass whose failure is only logged. */
  function StartHost(files: Collaborators, h: HostState, polls: seq<Probe>, outcome: string -> MountOutcome)
    : Result<HostState, StorageError>
  {
    if !Supported(files) then Ok(h)
    else
      match Clean(files, h)
      case Err(e) => Err(e)
      case Ok(h1) => Ok(MountPass(files, h1, polls, outcome).0)
  }

  /** `stop()` on the host: nothing on unsupported hardware; otherwise a soft unmount of every mounted
      USB device. */
  function StopHost(files: Collaborators, h: HostState, umountOk: string -> bool): (HostState, Result<(), StorageError>) {
    if !Supported(files) then (h, Ok(())) else UnmountAllMounted(files, h, umountOk)
  }

  /** On a Raspberry Pi `start` and `stop` leave the host untouched. Elsewhere `start` rejects
      exactly when the base directory cannot be listed, so an automount failure never makes it
      reject. */
  lemma StartStopGate(files: Collaborators, h: HostState, polls: seq<Probe>, outcome: string -> MountOutcome,
                      umountOk: string -> bool)
    ensures !Supported(files) ==> StartHost(files, h, polls, outcome) == Ok(h) && StopHost(files, h, umountOk) == (h, Ok(()))
    ensures Supported(files) ==> (StartHost(files, h, polls, outcome).Ok? <==> h.baseListable)
  {
  }

  /** `start` removes every left-over mount point before it mounts anything: its effects are a run
      of removals followed by effects of the automount pass only. */
  lemma StartCleansBeforeMounting(files: Collaborators, h: HostState, polls: seq<Probe>, outcome: string -> MountOutcome)
    requires Supported(files) && h.baseListable
    ensures var h' := StartHost(files, h, polls, outcome).value;
      exists k ::
        (|h.trace| <= k <= |h'.trace| && h'.trace[..|h.trace|] == h.trace
         && (forall e :: e in h'.trace[|h.trace|..k] ==> e.RemoveDir?)
         && (forall e :: e in h'.trace[k..] ==> MountEffect(e)))
  {
    var h1 := Clean(files, h).value;
    var h' := StartHost(files, h, polls, outcome).value;
    CleanOnlyRemoves(files, h);
    assert h' == MountPass(files, h1, polls, outcome).0;
    if Settle(polls).Ok? {
      MountAllOnlyMounts(files, h1, Candidates(Settle(polls).value), outcome);
    }
    RemovalsThenMounts(h.trace, h1.trace, h'.trace);
  }

  /** A trace extended by removals only and then by automount effects only is the original, a run of
      removals, then a run of automount effects. */
  lemma RemovalsThenMounts(t0: seq<Effect>, t1: seq<Effect>, t2: seq<Effect>)
    requires |t0| <= |t1| && t1[..|t0|] == t0 && forall e :: e in t1[|t0|..] ==> e.RemoveDir?
    requires |t1| <= |t2| && t2[..|t1|] == t1 && forall e :: e in t2[|t1|..] ==> MountEffect(e)
    ensures exists k ::
      (|t0| <= k <= |t2| && t2[..|t0|] == t0
       && (forall e :: e in t2[|t0|..k] ==> e.RemoveDir?)
       && (forall e :: e in t2[k..] ==> MountEffect(e)))
  {
    var k := |t1|;
    assert t2[|t0|..k] == t1[|t0|..];
    assert t2[..|t0|] == t1[..|t0|];
  }

  /** `#getExternalDevices` for one lsblk answer. */
  method ExternalDevicesOf(probe: Probe) returns (r: Result<seq<BlockDevice>, StorageError>)
    ensures r == ExternalDevices(probe)
  {
    match probe
    case ProbeFailed =>
      r := Err(ProbeError);
    case Listed(listing) =>
      var devices := GetBlockDevices(listing);
      r := Ok(Filter(IsUsb, devices));
  }

  /** The `pWaitFor` loop: take each answer in turn while some USB partition still has type
      `unknown`; when the timeout passes, keep the last answer taken, or `[]` if there was none. */
  method WaitForPartitionTypes(polls: seq<Probe>) returns (r: Result<seq<BlockDevice>, StorageError>)
    ensures r == Settle(polls)
  {
    var devices: seq<BlockDevice> := [];
    var i := 0;
    while i < |polls|
      invariant 0 <= i <= |polls|
      invariant SettleFrom(devices, polls[i..]) == Settle(polls)
    {
      assert polls[i..][1..] == polls[i + 1..];
      var answer := ExternalDevicesOf(polls[i]);
      if answer.Err? {
        return answer;
      }
      devices := answer.value;
      if !HasMissingData(devices) {
        return Ok(devices);
      }
      i := i + 1;
    }
    r := Ok(devices);
  }

  /** Unmounting one more device after a list of them is one more soft unmount. */
  lemma UnmountEachSnoc(files: Collaborators, h: HostState, ids: seq<string>, i: nat, umountOk: string -> bool)
    requires i < |ids|
    ensures UnmountEach(files, h, ids[..i + 1], umountOk)
      == UnmountDevice(files, UnmountEach(files, h, ids[..i], umountOk), ids[i], false, umountOk, true).0
  {
    assert ids[..i + 1][..i] == ids[..i];
  }

  /** Attempting the partitions one more time after a list of them is one more attempt. */
  lemma MountAllSnoc(files: Collaborators, h: HostState, ps: seq<Partition>, p: Partition, outcome: string -> MountOutcome)
    ensures MountAll(files, h, ps + [p], outcome) == AttemptMount(files, MountAll(files, h, ps, outcome), p, outcome(p.id))
  {
    assert (ps + [p])[..|ps|] == ps;
  }

  /** Attempting two lists of partitions one after the other is attempting their concatenation. */
  lemma {:induction false} MountAllAppend(files: Collaborators, h: HostState, a: seq<Partition>, b: seq<Partition>,
                                          outcome: string -> MountOutcome)
    ensures MountAll(files, h, a + b, outcome) == MountAll(files, MountAll(files, h, a, outcome), b, outcome)
  {
    if b == [] {
      assert a + b == a;
    } else {
      var n := |b| - 1;
      var p := b[n];
      var mid := MountAll(files, h, a, outcome);
      calc {
        MountAll(files, h, a + b, outcome);
        { assert a + b == (a + b[..n]) + [p]; }
        MountAll(files, h, (a + b[..n]) + [p], outcome);
        { MountAllSnoc(files, h, a + b[..n], p, outcome); }
        AttemptMount(files, MountAll(files, h, a + b[..n], outcome), p, outcome(p.id));
        { MountAllAppend(files, h, a, b[..n], outcome); }
        AttemptMount(files, MountAll(files, mid, b[..n], outcome), p, outcome(p.id));
        { MountAllSnoc(files, mid, b[..n], p, outcome); }
        MountAll(files, mid, b[..n] + [p], outcome);
        { assert b == b[..n] + [p]; }
        MountAll(files, mid, b, outcome);
      }
    }
  }

  /** One more partition scanned by the inner automount loop: attempted when it should be mounted,
      skipped otherwise. */
  lemma MountStep(files: Collaborators, h: HostState, ps: seq<Partition>, p: Partition, outcome: string -> MountOutcome)
    ensures MountAll(files, h, Filter(ShouldMount, ps + [p]), outcome)
      == if ShouldMount(p) then AttemptMount(files, MountAll(files, h, Filter(ShouldMount, ps), outcome), p, outcome(p.id))
         else MountAll(files, h, Filter(ShouldMount, ps), outcome)
  {
    FilterAppend(ShouldMount, ps, [p]);
    FilterSingleton(ShouldMount, p);
    if ShouldMount(p) {
      MountAllSnoc(files, h, Filter(ShouldMount, ps), p, outcome);
    } else {
      assert Filter(ShouldMount, ps + [p]) == Filter(ShouldMount, ps);
    }
  }

  /** A partition the inner automount loop skips leaves the attempts as they were. */
  lemma PartitionSkipped(files: Collaborators, h: HostState, partitions: seq<Partition>, j: nat, outcome: string -> MountOutcome)
    requires j < |partitions| && !ShouldMount(partitions[j])
    ensures MountAll(files, h, Filter(ShouldMount, partitions[..j + 1]), outcome)
      == MountAll(files, h, Filter(ShouldMount, partitions[..j]), outcome)
  {
    assert partitions[..j + 1] == partitions[..j] + [partitions[j]];
    MountStep(files, h, partitions[..j], partitions[j], outcome);
  }

  /** A partition the inner automount loop does not skip is attempted once more. */
  lemma PartitionAttempted(files: Collaborators, h: HostState, partitions: seq<Partition>, j: nat, outcome: string -> MountOutcome)
    requires j < |partitions| && ShouldMount(partitions[j])
    ensures MountAll(files, h, Filter(ShouldMount, partitions[..j + 1]), outcome)
      == AttemptMount(files, MountAll(files, h, Filter(ShouldMount, partitions[..j]), outcome), partitions[j], outcome(partitions[j].id))
  {
    assert partitions[..j + 1] == partitions[..j] + [partitions[j]];
    MountStep(files, h, partitions[..j], partitions[j], outcome);
  }

  /** One more device scanned by the outer automount loop: its mountable partitions are attempted
      after the earlier devices'. */
  lemma DeviceStep(files: Collaborators, h: HostState, devices: seq<BlockDevice>, i: nat, outcome: string -> MountOutcome)
    requires i < |devices|
    ensures MountAll(files, h, Candidates(devices[..i + 1]), outcome)
      == MountAll(files, MountAll(files, h, Candidates(devices[..i]), outcome), Filter(ShouldMount, devices[i].partitions), outcome)
  {
    assert devices[..i + 1] == devices[..i] + [devices[i]];
    CandidatesAppend(devices[..i], devices[i]);
    MountAllAppend(files, h, Candidates(devices[..i]), MountablePartitions(devices[i]), outcome);
  }

  /** One more child scanned by the clean-up: kept, or removed with one more `RemoveDir`. */
  lemma CleanStep(base: string, mounted: set<string>, prefix: seq<Entry>, e: Entry)
    ensures Filter(KeptTest(base, mounted), prefix + [e])
      == Filter(KeptTest(base, mounted), prefix) + if Removable(base, mounted, e) then [] else [e]
    ensures Filter(RemovableTest(base, mounted), prefix + [e])
      == Filter(RemovableTest(base, mounted), prefix) + if Removable(base, mounted, e) then [e] else []
    ensures Map(RemovalOf(base), Filter(RemovableTest(base, mounted), prefix + [e]))
      == Map(RemovalOf(base), Filter(RemovableTest(base, mounted), prefix))
        + if Removable(base, mounted, e) then [RemoveDir(Join(base, e.name))] else []
  {
    FilterAppend(KeptTest(base, mounted), prefix, [e]);
    FilterSingleton(KeptTest(base, mounted), e);
    FilterAppend(RemovableTest(base, mounted), prefix, [e]);
    FilterSingleton(RemovableTest(base, mounted), e);
    MapAppend(RemovalOf(base), Filter(RemovableTest(base, mounted), prefix), Filter(RemovableTest(base, mounted), [e]));
  }

  class ExternalStorage {
    const files: Collaborators
    const host: Host
    /** The listener ids subscribed to `system:disk:change`, in subscription order. */
    var listeners: seq<nat>
    var nextListener: nat
    /** `#removeDeviceChangeListener`: the listener the stored remover unsubscribes. */
    var remover: Option<nat>

    /** The subscription bookkeeping is consistent: every id handed out is below `nextListener`. */
    predicate Valid()
      reads this
    {
      (forall i :: 0 <= i < |listeners| ==> listeners[i] < nextListener)
      && (remover.Some? ==> remover.value < nextListener)
    }

    constructor (files: Collaborators, host: Host)
      ensures this.files == files && this.host == host
      ensures listeners == [] && remover == None && Valid()
    {
      this.files := files;
      this.host := host;
      listeners := [];
      nextListener := 0;
      remover := None;
    }

    /** `start()`: on supported hardware, clean up, automount, then subscribe a fresh listener to disk
        changes and keep its remover. */
    method Start(polls: seq<Probe>, outcome: string -> MountOutcome) returns (r: Result<(), StorageError>)
      requires Valid()
      modifies this, host
      ensures Valid()
      ensures match StartHost(files, old(host.State()), polls, outcome)
        case Err(e) => r == Err(e) && host.State() == old(host.State())
        case Ok(h') => r == Ok(()) && host.State() == h'
      ensures Supported(files) && r.Ok? ==>
        listeners == old(listeners) + [old(nextListener)] && remover == Some(old(nextListener)) && old(nextListener) !in old(listeners)
      ensures !(Supported(files) && r.Ok?) ==>
        listeners == old(listeners) && remover == old(remover) && nextListener == old(nextListener)
    {
      if !Supported(files) {
        return Ok(());
      }
      var cleaned := CleanLeftOverMountPoints();
      if cleaned.Err? {
        return Err(cleaned.error);
      }
      var _ := MountExternalDevices(polls, outcome);
      var id := nextListener;
      listeners := listeners + [id];
      remover := Some(id);
      nextListener := nextListener + 1;
      r := Ok(());
    }

    /** `stop()`: on supported hardware, call the stored remover (if any) and soft-unmount every
        mounted USB device. The remover is kept, so calling it again changes nothing. */
    method Stop(umountOk: string -> bool) returns (r: Result<(), StorageError>)
      requires Valid()
      modifies this, host
      ensures Valid() && remover == old(remover) && nextListener == old(nextListener)
      ensures (host.State(), r) == StopHost(files, old(host.State()), umountOk)
      ensures listeners == if Supported(files) && old(remover).Some? then Unsubscribe(old(listeners), old(remover).value)
        else old(listeners)
    {
      if !Supported(files) {
        return Ok(());
      }
      if remover.Some? {
        listeners := Unsubscribe(listeners, remover.value);
        forall i | 0 <= i < |listeners|
          ensures listeners[i] < nextListener
        {
          assert listeners[i] in listeners;
          FilterMemberPasses(OtherListener(old(remover).value), old(listeners), listeners[i]);
        }
      }
      r := UnmountAllMountedExternalDevices(umountOk);
    }

    /** `#getExternalDevices()` against the current lsblk answer. */
    method GetExternalDevices() returns (r: Result<seq<BlockDevice>, StorageError>)
      ensures r == ExternalDevices(host.lsblk)
    {
      r := ExternalDevicesOf(host.lsblk);
    }

    /** One mount attempt: derive the directory, create it, hand it to the user, mount, announce. Each
        step's failure ends the attempt, and the failure is caught by the caller's loop. */
    method AttemptMountPartition(p: Partition, o: MountOutcome)
      modifies host
      ensures host.State() == AttemptMount(files, old(host.State()), p, o)
    {
      var target := files.uniqueName(Names(host.entries), Join(files.externalBase, SanitiseLabel(p.fsLabel)));
      if o == PrepareFailed {
        return;
      }
      host.entries := AddDir(files.externalBase, host.entries, target);
      host.trace := host.trace + [MakeDir(target), Chown(target)];
      if o == ChownFailed {
        return;
      }
      host.trace := host.trace + [Mount(p.id, target)];
      if o == MountFailed {
        return;
      }
      host.mounted := host.mounted + {target};
      host.trace := host.trace + [StorageChanged];
    }

    /** The outer loop of `#mountExternalDevices`: the devices in probe order. */
    method MountCandidates(devices: seq<BlockDevice>, outcome: string -> MountOutcome)
      modifies host
      ensures host.State() == MountAll(files, old(host.State()), Candidates(devices), outcome)
    {
      ghost var h0 := host.State();
      for i := 0 to |devices|
        invariant host.State() == MountAll(files, h0, Candidates(devices[..i]), outcome)
      {
        MountDevice(h0, devices, i, outcome);
      }
      assert devices[..|devices|] == devices;
    }

    /** The body of the outer automount loop for device `i`. */
    method MountDevice(ghost h0: HostState, devices: seq<BlockDevice>, i: nat, outcome: string -> MountOutcome)
      requires i < |devices|
      requires host.State() == MountAll(files, h0, Candidates(devices[..i]), outcome)
      modifies host
      ensures host.State() == MountAll(files, h0, Candidates(devices[..i + 1]), outcome)
    {
      DeviceStep(files, h0, devices, i, outcome);
      MountDevicePartitions(devices[i].partitions, outcome);
    }

    /** The inner loop of `#mountExternalDevices`: skip mounted and EFI system partitions and attempt
        the rest, each failure caught. */
    method MountDevicePartitions(partitions: seq<Partition>, outcome: string -> MountOutcome)
      modifies host
      ensures host.State() == MountAll(files, old(host.State()), Filter(ShouldMount, partitions), outcome)
    {
      ghost var h0 := host.State();
      for j := 0 to |partitions|
        invariant host.State() == MountAll(files, h0, Filter(ShouldMount, partitions[..j]), outcome)
      {
        MountPartitionIfNew(h0, partitions, j, outcome);
      }
      assert partitions[..|partitions|] == partitions;
    }

    /** The body of the inner automount loop for partition `j`. */
    method MountPartitionIfNew(ghost h0: HostState, partitions: seq<Partition>, j: nat, outcome: string -> MountOutcome)
      requires j < |partitions|
      requires host.State() == MountAll(files, h0, Filter(ShouldMount, partitions[..j]), outcome)
      modifies host
      ensures host.State() == MountAll(files, h0, Filter(ShouldMount, partitions[..j + 1]), outcome)
    {
      var p := partitions[j];
      if |p.mountpoints| > 0 {
        PartitionSkipped(files, h0, partitions, j, outcome);
        return;
      }
      if p.typeName == EfiSystem {
        PartitionSkipped(files, h0, partitions, j, outcome);
        return;
      }
      PartitionAttempted(files, h0, partitions, j, outcome);
      AttemptMountPartition(p, outcome(p.id));
    }

    /** `#mountExternalDevices()`: one queued automount pass over the successive lsblk answers. */
    method MountExternalDevices(polls: seq<Probe>, outcome: string -> MountOutcome) returns (r: Result<(), StorageError>)
      modifies host
      ensures (host.State(), r) == MountPass(files, old(host.State()), polls, outcome)
    {
      var settled := WaitForPartitionTypes(polls);
      if settled.Err? {
        return Err(settled.error);
      }
      MountCandidates(settled.value, outcome);
      r := Ok(());
    }

    /** `#cleanLeftOverMountPoints()`: remove each child of the base directory that is an empty,
        inactive directory, as soon as it is found. */
    method CleanLeftOverMountPoints() returns (r: Result<(), StorageError>)
      modifies host
      ensures match Clean(files, old(host.State()))
        case Err(e) => r == Err(e) && host.State() == old(host.State())
        case Ok(h') => r == Ok(()) && host.State() == h'
    {
      if !host.baseListable {
        return Err(ListingFailed);
      }
      var listing := host.entries;
      var mounted := host.mounted;
      ghost var trace0 := host.trace;
      var kept := [];
      assert listing[..0] == [] && listing[0..] == listing;
      for i := 0 to |listing|
        invariant ScannedUpTo(listing, i, mounted, trace0, kept)
        invariant host.lsblk == old(host.lsblk)
      {
        kept := ScanChild(listing, i, mounted, trace0, kept);
      }
      assert listing[..|listing|] == listing && listing[|listing|..] == [];
      r := Ok(());
    }

    /** The clean-up loop has scanned the first `i` children of `listing`: the non-removable ones are
        `kept`, still listed before the unscanned ones, and one removal was issued per removable one. */
    predicate ScannedUpTo(listing: seq<Entry>, i: nat, mounted: set<string>, trace0: seq<Effect>, kept: seq<Entry>)
      reads host
    {
      var base := files.externalBase;
      && i <= |listing|
      && kept == Filter(KeptTest(base, mounted), listing[..i])
      && host.entries == kept + listing[i..]
      && host.trace == trace0 + Map(RemovalOf(base), Filter(RemovableTest(base, mounted), listing[..i]))
      && host.mounted == mounted && host.baseListable
    }

    /** The body of the clean-up loop for one child: remove it when it is an empty directory that
        `mountpoint` does not report as active. */
    method ScanChild(listing: seq<Entry>, i: nat, mounted: set<string>, ghost trace0: seq<Effect>, kept: seq<Entry>)
      returns (kept': seq<Entry>)
      requires i < |listing| && ScannedUpTo(listing, i, mounted, trace0, kept)
      modifies host
      ensures ScannedUpTo(listing, i + 1, mounted, trace0, kept')
      ensures host.lsblk == old(host.lsblk)
    {
      var base := files.externalBase;
      var e := listing[i];
      assert listing[..i + 1] == listing[..i] + [e];
      assert listing[i..] == [e] + listing[i + 1..];
      CleanStep(base, mounted, listing[..i], e);
      var path := Join(base, e.name);
      if e.kind == EmptyDir && path !in host.mounted {
        host.entries := kept + listing[i + 1..];
        host.trace := host.trace + [RemoveDir(path)];
        kept' := kept;
      } else {
        kept' := kept + [e];
      }
    }

    /** The partition loop of `unmountExternalDevice`, with its failure flag. */
    method UmountDevicePartitions(partitions: seq<Partition>, umountOk: string -> bool) returns (failed: bool)
      modifies host
      ensures (host.State(), failed) == UmountPartitions(old(host.State()), partitions, umountOk)
    {
      ghost var h0 := host.State();
      failed := false;
      for j := 0 to |partitions|
        invariant (host.State(), failed) == UmountPartitions(h0, partitions[..j], umountOk)
      {
        var p := partitions[j];
        assert partitions[..j + 1][..j] == partitions[..j];
        if |p.mountpoints| == 0 {
          continue;
        }
        host.trace := host.trace + [Umount(p.id)];
        if umountOk(p.id) {
          host.mounted := host.mounted - set m | m in p.mountpoints;
        } else {
          failed := true;
        }
      }
      assert partitions[..|partitions|] == partitions;
    }

    /** `unmountExternalDevice(deviceId, {remove})` as one queued task. */
    method UnmountExternalDevice(id: string, umountOk: string -> bool, deleteOk: bool, remove: bool := true)
      returns (r: Result<bool, StorageError>)
      modifies host
      ensures (host.State(), r) == UnmountDevice(files, old(host.State()), id, remove, umountOk, deleteOk)
    {
      var devices := GetExternalDevices();
      if devices.Err? {
        return Err(devices.error);
      }
      var found := FindDevice(devices.value, id);
      if found.None? {
        return Err(InvalidDeviceId);
      }
      var failed := UmountDevicePartitions(found.value.partitions, umountOk);
      var cleaned := CleanLeftOverMountPoints();
      if cleaned.Err? {
        return Err(cleaned.error);
      }
      if remove {
        host.trace := host.trace + [DeleteDevice(id)];
        if !deleteOk {
          return Err(DeleteFailed);
        }
      }
      host.trace := host.trace + [StorageChanged];
      r := if failed then Err(FailedUnmounts) else Ok(true);
    }

    /** `getMountedExternalDevices()`: the partitions' mount points are narrowed and translated, then
        the partitions and devices left without any are dropped, all on the probed list in place. */
    method GetMountedExternalDevices() returns (r: Result<seq<BlockDevice>, StorageError>)
      ensures r == MountedExternalDevices(files, host.lsblk)
    {
      var probed := GetExternalDevices();
      if probed.Err? {
        return Err(probed.error);
      }
      var devices := probed.value;
      for i := 0 to |devices|
        invariant |devices| == |probed.value|
        invariant forall k :: 0 <= k < i ==> devices[k] == RestrictDevice(files)(probed.value[k])
        invariant forall k :: i <= k < |devices| ==> devices[k] == probed.value[k]
      {
        var device := devices[i];
        var partitions := RestrictMountpoints(device.partitions);
        devices := devices[i := device.(partitions := Filter(HasMountpoints, partitions))];
      }
      assert devices == Map(RestrictDevice(files), probed.value);
      r := Ok(Filter(HasPartitions, devices));
    }

    /** The inner loop of `getMountedExternalDevices`: each partition's mount points narrowed to the
        base directory and translated to virtual paths, in place. */
    method RestrictMountpoints(partitions: seq<Partition>) returns (r: seq<Partition>)
      ensures r == Map(RestrictPartition(files), partitions)
    {
      r := partitions;
      for j := 0 to |r|
        invariant |r| == |partitions|
        invariant forall k :: 0 <= k < j ==> r[k] == RestrictPartition(files)(partitions[k])
        invariant forall k :: j <= k < |r| ==> r[k] == partitions[k]
      {
        r := r[j := r[j].(mountpoints := Map(files.toVirtual, Filter(UnderBase(files.externalBase), r[j].mountpoints)))];
      }
    }

    /** `#unmountAllMountedExternalDevices()`: soft-unmount each mounted USB device, logging and
        skipping failures. */
    method UnmountAllMountedExternalDevices(umountOk: string -> bool) returns (r: Result<(), StorageError>)
      modifies host
      ensures (host.State(), r) == UnmountAllMounted(files, old(host.State()), umountOk)
    {
      var mounted := GetMountedExternalDevices();
      if mounted.Err? {
        return Err(mounted.error);
      }
      ghost var h0 := host.State();
      var devices := mounted.value;
      ghost var ids := Map(DeviceId, devices);
      for i := 0 to |devices|
        invariant host.State() == UnmountEach(files, h0, ids[..i], umountOk)
      {
        UnmountSoftly(h0, ids, devices, i, umountOk);
      }
      assert ids[..|devices|] == ids;
      r := Ok(());
    }

    /** The body of `#unmountAllMountedExternalDevices`'s loop: a soft unmount of device `i`. */
    method UnmountSoftly(ghost h0: HostState, ghost ids: seq<string>, devices: seq<BlockDevice>, i: nat,
                         umountOk: string -> bool)
      requires i < |devices| && ids == Map(DeviceId, devices)
      requires host.State() == UnmountEach(files, h0, ids[..i], umountOk)
      modifies host
      ensures host.State() == UnmountEach(files, h0, ids[..i + 1], umountOk)
    {
      UnmountEachSnoc(files, h0, ids, i, umountOk);
      assert ids[i] == devices[i].id;
      var _ := UnmountExternalDevice(devices[i].id, umountOk, true, remove := false);
    }

    /** `isExternalDeviceConnectedOnUnsupportedDevice()`; `df` is the output of
        `df <dataDirectory> --output=source`, or `None` when the command fails. */
    method IsExternalDeviceConnectedOnUnsupportedDevice(df: Option<string>) returns (r: Result<bool, StorageError>)
      ensures r == UnsupportedButConnected(files, host.lsblk, df)
    {
      var supported := Supported(files);
      var devices := GetExternalDevices();
      if devices.Err? {
        return Err(devices.error);
      }
      if df.None? {
        return Err(DfFailed);
      }
      var disk := DataDirDisk(df.value);
      var others := Filter(NotNamed(disk), devices.value);
      r := Ok(!supported && |others| > 0);
    }
  }
}
