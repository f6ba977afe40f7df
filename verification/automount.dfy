/** The automount pass (`#mountExternalDevices`): wait for partition types to settle, pick the
    partitions to mount, and mount each under a directory named after its sanitised label. */
module Automount {
  import opened Wrappers
  import opened Seqs
  import opened Strings
  import opened BlockDevices
  import opened Host

  const Usb := "usb"
  const EfiSystem := "EFI System"

  predicate IsUsb(device: BlockDevice) {
    device.transport == Usb
  }

  /** `#getExternalDevices` on one lsblk answer: the block devices on the USB transport. */
  function ExternalDevices(probe: Probe): (r: Result<seq<BlockDevice>, StorageError>)
    ensures probe.ProbeFailed? <==> r == Err(ProbeError)
  {
    match probe
    case Listed(listing) => Ok(Filter(IsUsb, BlockDevicesOf(listing)))
    case ProbeFailed => Err(ProbeError)
  }

  /** On a listing, the external devices are exactly the listed block devices on the USB transport,
      and when every listed device is on USB they are the whole listing, in order. */
  lemma ExternalDevicesAreUsb(probe: Probe)
    requires probe.Listed?
    ensures ExternalDevices(probe).Ok?
    ensures forall d :: d in ExternalDevices(probe).value <==> d in BlockDevicesOf(probe.listing) && d.transport == Usb
    ensures (forall i :: 0 <= i < |BlockDevicesOf(probe.listing)| ==> BlockDevicesOf(probe.listing)[i].transport == Usb) ==>
      ExternalDevices(probe).value == BlockDevicesOf(probe.listing)
  {
    var devices := BlockDevicesOf(probe.listing);
    FilterMembers(IsUsb, devices);
    if forall i :: 0 <= i < |devices| ==> devices[i].transport == Usb {
      FilterAllPass(IsUsb, devices);
    }
  }

  /** Some partition still reports the placeholder type `unknown`. */
  predicate HasMissingData(devices: seq<BlockDevice>) {
    exists i, j :: 0 <= i < |devices| && 0 <= j < |devices[i].partitions|
      && devices[i].partitions[j].typeName == Unknown
  }

  /** The `pWaitFor` poll over the lsblk answers that complete within the timeout, `devices` holding
      the last answer taken (initially `[]`): the first answer with no `unknown` type, or the last
      answer when none qualifies, or `devices` itself when no answer completes; a failed probe rejects
      the poll. */
  function SettleFrom(devices: seq<BlockDevice>, polls: seq<Probe>): Result<seq<BlockDevice>, StorageError>
    decreases polls
  {
    if polls == [] then Ok(devices)
    else
      match ExternalDevices(polls[0])
      case Err(e) => Err(e)
      case Ok(next) => if !HasMissingData(next) then Ok(next) else SettleFrom(next, polls[1..])
  }

  /** The poll as the pass starts it, with `externalStorageDevices` initially empty. */
  function Settle(polls: seq<Probe>): Result<seq<BlockDevice>, StorageError> {
    SettleFrom([], polls)
  }

  /** The poll settles on answer `k`: every earlier answer was a listing with an `unknown` type, and
      answer `k` either has none or is the last one. A probe failure before that rejects the poll.
      When no answer completes before the timeout the poll resolves with no devices. */
  lemma {:induction false} SettleChoice(polls: seq<Probe>) returns (k: nat)
    ensures polls == [] ==> Settle(polls) == Ok([])
    ensures polls != [] ==> k < |polls|
    ensures forall j :: 0 <= j < k < |polls| ==>
      ExternalDevices(polls[j]).Ok? && HasMissingData(ExternalDevices(polls[j]).value)
    ensures k < |polls| && polls[k].ProbeFailed? ==> Settle(polls) == Err(ProbeError)
    ensures k < |polls| && polls[k].Listed? ==>
      Settle(polls) == ExternalDevices(polls[k]) && (!HasMissingData(ExternalDevices(polls[k]).value) || k == |polls| - 1)
  {
    k := 0;
    if polls != [] {
      match ExternalDevices(polls[0])
      case Err(_) =>
      case Ok(devices) =>
        assert Settle(polls) == if !HasMissingData(devices) then Ok(devices) else SettleFrom(devices, polls[1..]);
        if HasMissingData(devices) && |polls| == 1 {
          assert polls[1..] == [];
        }
        if HasMissingData(devices) && |polls| > 1 {
          var rest := polls[1..];
          assert Settle(polls) == SettleFrom(devices, rest);
          SettleFromRestarts(devices, rest);
          var k' := SettleChoice(rest);
          k := k' + 1;
          forall j | 0 <= j < k
            ensures ExternalDevices(polls[j]).Ok? && HasMissingData(ExternalDevices(polls[j]).value)
          {
            if j > 0 { assert polls[j] == rest[j - 1]; }
          }
          assert polls[k] == rest[k'];
        }
    }
  }

  /** Once an answer completes, the value held before it no longer matters. */
  lemma SettleFromRestarts(devices: seq<BlockDevice>, polls: seq<Probe>)
    requires polls != []
    ensures SettleFrom(devices, polls) == Settle(polls)
  {
  }

  /** A partition the pass mounts: not mounted anywhere yet and not an EFI system partition. */
  predicate ShouldMount(p: Partition) {
    |p.mountpoints| == 0 && p.typeName != EfiSystem
  }

  function MountablePartitions(device: BlockDevice): seq<Partition> {
    Filter(ShouldMount, device.partitions)
  }

  /** The partitions the pass tries to mount, device by device, in probe order. */
  function Candidates(devices: seq<BlockDevice>): seq<Partition> {
    Flatten(Map(MountablePartitions, devices))
  }

  /** Every candidate is an unmounted, non-EFI partition of one of the devices. */
  lemma CandidatesAreMountable(devices: seq<BlockDevice>)
    ensures forall p :: p in Candidates(devices) ==>
      ShouldMount(p) && exists i :: 0 <= i < |devices| && p in devices[i].partitions
  {
    CandidatesSound(devices);
  }

  lemma {:induction false} CandidatesSound(devices: seq<BlockDevice>)
    ensures forall p :: p in Candidates(devices) ==>
      ShouldMount(p) && exists i :: 0 <= i < |devices| && p in devices[i].partitions
  {
    if devices != [] {
      CandidatesSound(devices[1..]);
      assert Map(MountablePartitions, devices)[1..] == Map(MountablePartitions, devices[1..]);
      assert Candidates(devices) == MountablePartitions(devices[0]) + Candidates(devices[1..]);
      forall p | p in Candidates(devices)
        ensures ShouldMount(p) && exists i :: 0 <= i < |devices| && p in devices[i].partitions
      {
        if p in MountablePartitions(devices[0]) {
          FilterMemberPasses(ShouldMount, devices[0].partitions, p);
          assert p in devices[0].partitions;
        } else {
          var i :| 0 <= i < |devices[1..]| && p in devices[1..][i].partitions;
          assert p in devices[i + 1].partitions;
        }
      }
    }
  }

  /** Every partition that is unmounted and not EFI, on any of the devices, is a candidate. */
  lemma CandidatesComplete(devices: seq<BlockDevice>, i: nat, p: Partition)
    requires i < |devices| && p in devices[i].partitions && ShouldMount(p)
    ensures p in Candidates(devices)
  {
    FilterKeeps(ShouldMount, devices[i].partitions, p);
    FlattenMember(Map(MountablePartitions, devices), i, p);
  }

  lemma CandidatesAppend(devices: seq<BlockDevice>, device: BlockDevice)
    ensures Candidates(devices + [device]) == Candidates(devices) + MountablePartitions(device)
  {
    MapAppend(MountablePartitions, devices, [device]);
    assert Map(MountablePartitions, [device]) == [MountablePartitions(device)];
    FlattenAppend(Map(MountablePartitions, devices), MountablePartitions(device));
  }

  /** A character kept by `label.replace(/[^a-zA-Z0-9 '\_\-]/g, '')`. */
  predicate IsLabelChar(ch: char) {
    ('a' <= ch <= 'z') || ('A' <= ch <= 'Z') || ('0' <= ch <= '9')
    || ch == ' ' || ch == '\'' || ch == '_' || ch == '-'
  }

  /** The directory name derived from a partition label. */
  function SanitiseLabel(text: string): string {
    Filter(IsLabelChar, text)
  }

  /** The sanitised label holds only allowed characters and keeps every allowed one, so it never
      holds a `/`. */
  lemma SanitiseLabelChars(text: string)
    ensures forall k :: 0 <= k < |SanitiseLabel(text)| ==> IsLabelChar(SanitiseLabel(text)[k])
    ensures forall k :: 0 <= k < |text| && IsLabelChar(text[k]) ==> text[k] in SanitiseLabel(text)
    ensures '/' !in SanitiseLabel(text)
  {
    var r := SanitiseLabel(text);
    forall k | 0 <= k < |r| ensures IsLabelChar(r[k]) {
      FilterMemberPasses(IsLabelChar, text, r[k]);
    }
    forall k | 0 <= k < |text| && IsLabelChar(text[k]) ensures text[k] in r {
      FilterKeeps(IsLabelChar, text, text[k]);
    }
  }

  /** Sanitising works character by character, in order: it distributes over concatenation. */
  lemma SanitiseLabelAppend(a: string, b: string)
    ensures SanitiseLabel(a + b) == SanitiseLabel(a) + SanitiseLabel(b)
  {
    FilterAppend(IsLabelChar, a, b);
  }

  /** Sanitising twice gives the same name as sanitising once. */
  lemma SanitiseLabelIdempotent(text: string)
    ensures SanitiseLabel(SanitiseLabel(text)) == SanitiseLabel(text)
  {
    FilterIdempotent(IsLabelChar, text);
  }

  /** A label with no allowed character sanitises to the empty name, whose mount directory is the
      base directory itself. */
  lemma SanitiseLabelEmpty(text: string, base: string)
    requires forall k :: 0 <= k < |text| ==> !IsLabelChar(text[k])
    ensures SanitiseLabel(text) == ""
    ensures Join(base, SanitiseLabel(text)) == base
  {
    FilterNonePass(IsLabelChar, text);
  }

  /** For example, `My Drive!@#` becomes `My Drive`. */
  lemma SanitiseExample()
    ensures SanitiseLabel("My Drive!@#") == "My Drive"
  {
    assert "My Drive!@#" == "My Drive" + "!@#";
    SanitiseLabelAppend("My Drive", "!@#");
    SanitiseKeepsWords();
    SanitiseDropsSymbols();
  }

  lemma SanitiseKeepsWords()
    ensures SanitiseLabel("My Drive") == "My Drive"
  {
    FilterAllPass(IsLabelChar, "My Drive");
  }

  lemma SanitiseDropsSymbols()
    ensures SanitiseLabel("!@#") == ""
  {
    FilterNonePass(IsLabelChar, "!@#");
  }

  /** How far one mount attempt got: resolving the unique name or creating the directory failed,
      changing its owner failed, the `mount` command failed, or the partition was mounted. */
  datatype MountOutcome = PrepareFailed | ChownFailed | MountFailed | Mounted

  /** The outcome reached the `mount` command. */
  predicate ReachesMount(o: MountOutcome) {
    o == MountFailed || o == Mounted
  }

  /** The directory a partition is mounted at: the unique name for its sanitised label under the base. */
  function MountTarget(files: Collaborators, entries: seq<Entry>, p: Partition): string {
    files.uniqueName(Names(entries), Join(files.externalBase, SanitiseLabel(p.fsLabel)))
  }

  /** One iteration of the pass's inner loop body, whose errors are caught and logged. */
  function AttemptMount(files: Collaborators, h: HostState, p: Partition, o: MountOutcome): HostState {
    var target := MountTarget(files, h.entries, p);
    var entries := AddDir(files.externalBase, h.entries, target);
    match o
    case PrepareFailed => h
    case ChownFailed => h.(entries := entries, trace := h.trace + [MakeDir(target), Chown(target)])
    case MountFailed =>
      h.(entries := entries, trace := h.trace + [MakeDir(target), Chown(target), Mount(p.id, target)])
    case Mounted =>
      h.(entries := entries, mounted := h.mounted + {target},
         trace := h.trace + [MakeDir(target), Chown(target), Mount(p.id, target), StorageChanged])
  }

  /** The host after attempting the candidates in order, whatever each attempt's outcome. */
  function MountAll(files: Collaborators, h: HostState, ps: seq<Partition>, outcome: string -> MountOutcome): HostState {
    if ps == [] then h
    else AttemptMount(files, MountAll(files, h, ps[..|ps| - 1], outcome), ps[|ps| - 1], outcome(ps[|ps| - 1].id))
  }

  /** The whole queued task: poll, then attempt every candidate of the settled answer. */
  function MountPass(files: Collaborators, h: HostState, polls: seq<Probe>, outcome: string -> MountOutcome)
    : (HostState, Result<(), StorageError>)
  {
    match Settle(polls)
    case Err(e) => (h, Err(e))
    case Ok(devices) => (MountAll(files, h, Candidates(devices), outcome), Ok(()))
  }

  /** The partitions named by the `mount` commands in a trace, in order. */
  function MountedIds(trace: seq<Effect>): seq<string> {
    if trace == [] then []
    else MountedIds(trace[..|trace| - 1]) + (if trace[|trace| - 1].Mount? then [trace[|trace| - 1].partition] else [])
  }

  lemma {:induction false} MountedIdsAppend(a: seq<Effect>, b: seq<Effect>)
    ensures MountedIds(a + b) == MountedIds(a) + MountedIds(b)
  {
    if b == [] {
      assert a + b == a;
    } else {
      assert (a + b)[..|a + b| - 1] == a + b[..|b| - 1];
      MountedIdsAppend(a, b[..|b| - 1]);
    }
  }

  /** The directories named by the `mount` commands in a trace, in order. */
  function MountPaths(trace: seq<Effect>): seq<string> {
    if trace == [] then []
    else MountPaths(trace[..|trace| - 1]) + (if trace[|trace| - 1].Mount? then [trace[|trace| - 1].path] else [])
  }

  lemma {:induction false} MountPathsAppend(a: seq<Effect>, b: seq<Effect>)
    ensures MountPaths(a + b) == MountPaths(a) + MountPaths(b)
  {
    if b == [] {
      assert a + b == a;
    } else {
      assert (a + b)[..|a + b| - 1] == a + b[..|b| - 1];
      MountPathsAppend(a, b[..|b| - 1]);
    }
  }

  function PartitionId(p: Partition): string {
    p.id
  }

  /** The test "this candidate's attempt reaches the mount command". */
  function ReachesMountTest(outcome: string -> MountOutcome): Partition -> bool {
    (p: Partition) => ReachesMount(outcome(p.id))
  }

  /** One attempt adds the partition to the `mount` commands exactly when it reaches the command. */
  lemma AttemptMountIds(files: Collaborators, h: HostState, p: Partition, o: MountOutcome)
    ensures MountedIds(AttemptMount(files, h, p, o).trace)
      == MountedIds(h.trace) + if ReachesMount(o) then [p.id] else []
  {
    var target := MountTarget(files, h.entries, p);
    var d1 := [MakeDir(target)];
    var d2 := d1 + [Chown(target)];
    var d3 := d2 + [Mount(p.id, target)];
    var d4 := d3 + [StorageChanged];
    assert d1[..0] == [] && d2[..1] == d1 && d3[..2] == d2 && d4[..3] == d3;
    assert MountedIds(d1) == [];
    assert MountedIds(d2) == [];
    assert MountedIds(d3) == [p.id];
    assert MountedIds(d4) == [p.id];
    match o
    case PrepareFailed =>
      assert h.trace + [] == h.trace;
    case ChownFailed =>
      assert AttemptMount(files, h, p, o).trace == h.trace + d2;
      MountedIdsAppend(h.trace, d2);
    case MountFailed =>
      assert AttemptMount(files, h, p, o).trace == h.trace + d3;
      MountedIdsAppend(h.trace, d3);
    case Mounted =>
      assert AttemptMount(files, h, p, o).trace == h.trace + d4;
      MountedIdsAppend(h.trace, d4);
  }

  /** One attempt adds its target to the `mount` commands' directories exactly when it reaches the command. */
  lemma AttemptMountPaths(files: Collaborators, h: HostState, p: Partition, o: MountOutcome)
    ensures MountPaths(AttemptMount(files, h, p, o).trace)
      == MountPaths(h.trace) + if ReachesMount(o) then [MountTarget(files, h.entries, p)] else []
  {
    var target := MountTarget(files, h.entries, p);
    var d1 := [MakeDir(target)];
    var d2 := d1 + [Chown(target)];
    var d3 := d2 + [Mount(p.id, target)];
    var d4 := d3 + [StorageChanged];
    assert d1[..0] == [] && d2[..1] == d1 && d3[..2] == d2 && d4[..3] == d3;
    assert MountPaths(d1) == [];
    assert MountPaths(d2) == [];
    assert MountPaths(d3) == [target];
    assert MountPaths(d4) == [target];
    match o
    case PrepareFailed =>
      assert h.trace + [] == h.trace;
    case ChownFailed =>
      assert AttemptMount(files, h, p, o).trace == h.trace + d2;
      MountPathsAppend(h.trace, d2);
    case MountFailed =>
      assert AttemptMount(files, h, p, o).trace == h.trace + d3;
      MountPathsAppend(h.trace, d3);
    case Mounted =>
      assert AttemptMount(files, h, p, o).trace == h.trace + d4;
      MountPathsAppend(h.trace, d4);
  }

  /** What the unique-name collaborator is relied on for: the path it resolves is a direct child of
      the base directory whose name is not among the names it was given. */
  predicate FreshChild(files: Collaborators, names: set<string>, path: string) {
    var r := ChildName(files.externalBase, files.uniqueName(names, path));
    r.Some? && r.value !in names
  }

  /** A collaborator that resolves a fresh child of the base directory whenever it is asked about
      a non-empty, slash-free name under the base. */
  ghost predicate UniqueNamesFresh(files: Collaborators) {
    forall names: set<string>, name: string :: name != "" && '/' !in name ==>
      FreshChild(files, names, Join(files.externalBase, name))
  }

  /** One attempt only adds names under the base; the target it resolves is a fresh child, whose
      name is listed once the attempt gets past directory creation. */
  lemma AttemptMountFresh(files: Collaborators, h: HostState, p: Partition, o: MountOutcome)
    requires UniqueNamesFresh(files) && SanitiseLabel(p.fsLabel) != ""
    ensures var h' := AttemptMount(files, h, p, o);
      var r := ChildName(files.externalBase, MountTarget(files, h.entries, p));
      && Names(h.entries) <= Names(h'.entries)
      && r.Some? && r.value !in Names(h.entries)
      && (o != PrepareFailed ==> r.value in Names(h'.entries))
  {
    SanitiseLabelChars(p.fsLabel);
    assert FreshChild(files, Names(h.entries), Join(files.externalBase, SanitiseLabel(p.fsLabel)));
  }

  /** `targets` are pairwise distinct children of `base`, each named in `after` and none in `before`. */
  predicate FreshTargets(base: string, before: set<string>, after: set<string>, targets: seq<string>) {
    && (forall i :: 0 <= i < |targets| ==>
          var r := ChildName(base, targets[i]);
          r.Some? && r.value in after && r.value !in before)
    && (forall i, j :: 0 <= i < j < |targets| ==> targets[i] != targets[j])
  }

  /** Fresh targets stay fresh as names are added, and a target whose name is new joins them. */
  lemma FreshTargetsExtend(base: string, before: set<string>, mid: set<string>, after: set<string>,
                           earlier: seq<string>, t: string, added: bool)
    requires FreshTargets(base, before, mid, earlier) && before <= mid <= after
    requires added ==> ChildName(base, t).Some? && ChildName(base, t).value !in mid && ChildName(base, t).value in after
    ensures FreshTargets(base, before, after, earlier + if added then [t] else [])
  {
    if added {
      forall i | 0 <= i < |earlier| ensures earlier[i] != t {
        assert ChildName(base, earlier[i]).value in mid;
      }
    } else {
      assert earlier + [] == earlier;
    }
  }

  /** Partitions whose labels sanitise to the same name never share a directory: if the unique-name
      collaborator resolves fresh children, the `mount` commands of one pass over partitions whose
      labels keep at least one character target pairwise distinct new children of the base
      directory, none of which existed before the pass. */
  lemma {:induction false} MountAllTargetsFresh(files: Collaborators, h: HostState, ps: seq<Partition>, outcome: string -> MountOutcome)
    returns (targets: seq<string>)
    requires UniqueNamesFresh(files)
    requires forall i :: 0 <= i < |ps| ==> SanitiseLabel(ps[i].fsLabel) != ""
    ensures var h' := MountAll(files, h, ps, outcome);
      && MountPaths(h'.trace) == MountPaths(h.trace) + targets
      && Names(h.entries) <= Names(h'.entries)
      && FreshTargets(files.externalBase, Names(h.entries), Names(h'.entries), targets)
  {
    if ps == [] {
      targets := [];
      assert MountPaths(h.trace) + [] == MountPaths(h.trace);
    } else {
      var n := |ps| - 1;
      var p := ps[n];
      var prev := MountAll(files, h, ps[..n], outcome);
      forall i | 0 <= i < n ensures SanitiseLabel(ps[..n][i].fsLabel) != "" {
        assert ps[..n][i] == ps[i];
      }
      var earlier := MountAllTargetsFresh(files, h, ps[..n], outcome);
      var reaches := ReachesMount(outcome(p.id));
      var t := MountTarget(files, prev.entries, p);
      AttemptMountPaths(files, prev, p, outcome(p.id));
      AttemptMountFresh(files, prev, p, outcome(p.id));
      var h' := AttemptMount(files, prev, p, outcome(p.id));
      FreshTargetsExtend(files.externalBase, Names(h.entries), Names(prev.entries), Names(h'.entries), earlier, t, reaches);
      var added: seq<string> := if reaches then [t] else [];
      targets := earlier + added;
      assert MountAll(files, h, ps, outcome) == h';
      calc {
        MountPaths(h'.trace);
        MountPaths(prev.trace) + added;
        (MountPaths(h.trace) + earlier) + added;
        MountPaths(h.trace) + targets;
      }
    }
  }

  /** The pass only appends to the trace, only adds mount points, and leaves lsblk's answer and the
      base directory's readability alone. */
  lemma {:induction false} MountAllGrows(files: Collaborators, h: HostState, ps: seq<Partition>, outcome: string -> MountOutcome)
    ensures var h' := MountAll(files, h, ps, outcome);
      && |h.trace| <= |h'.trace| && h'.trace[..|h.trace|] == h.trace
      && h.mounted <= h'.mounted
      && h'.lsblk == h.lsblk && h'.baseListable == h.baseListable
  {
    if ps != [] {
      MountAllGrows(files, h, ps[..|ps| - 1], outcome);
    }
  }

  predicate MountEffect(e: Effect) {
    e.MakeDir? || e.Chown? || e.Mount? || e.StorageChanged?
  }

  /** One attempt appends only mount-side effects. */
  lemma AttemptMountEffects(files: Collaborators, h: HostState, p: Partition, o: MountOutcome)
    ensures var h' := AttemptMount(files, h, p, o);
      |h.trace| <= |h'.trace| && h'.trace[..|h.trace|] == h.trace
      && forall e :: e in h'.trace[|h.trace|..] ==> MountEffect(e)
  {
    var h' := AttemptMount(files, h, p, o);
    var target := MountTarget(files, h.entries, p);
    var delta := match o
      case PrepareFailed => []
      case ChownFailed => [MakeDir(target), Chown(target)]
      case MountFailed => [MakeDir(target), Chown(target), Mount(p.id, target)]
      case Mounted => [MakeDir(target), Chown(target), Mount(p.id, target), StorageChanged];
    assert h'.trace == h.trace + delta;
    assert h'.trace[|h.trace|..] == delta;
  }

  /** The pass never removes a directory or deletes a device: it only creates directories, changes
      their owner, mounts and announces. */
  lemma {:induction false} MountAllOnlyMounts(files: Collaborators, h: HostState, ps: seq<Partition>, outcome: string -> MountOutcome)
    ensures var h' := MountAll(files, h, ps, outcome);
      |h.trace| <= |h'.trace| && h'.trace[..|h.trace|] == h.trace
      && forall e :: e in h'.trace[|h.trace|..] ==> MountEffect(e)
  {
    if ps != [] {
      var n := |ps| - 1;
      var prev := MountAll(files, h, ps[..n], outcome);
      var h' := MountAll(files, h, ps, outcome);
      MountAllOnlyMounts(files, h, ps[..n], outcome);
      AttemptMountEffects(files, prev, ps[n], outcome(ps[n].id));
      assert h'.trace[|h.trace|..] == prev.trace[|h.trace|..] + h'.trace[|prev.trace|..];
    }
  }

  /** The candidates whose attempt reaches `mount`, as partition ids, for a list grown by one. */
  lemma PickedAppend(outcome: string -> MountOutcome, ps: seq<Partition>, p: Partition)
    ensures Map(PartitionId, Filter(ReachesMountTest(outcome), ps + [p]))
      == Map(PartitionId, Filter(ReachesMountTest(outcome), ps)) + if ReachesMount(outcome(p.id)) then [p.id] else []
  {
    var test := ReachesMountTest(outcome);
    FilterAppend(test, ps, [p]);
    FilterSingleton(test, p);
    MapAppend(PartitionId, Filter(test, ps), Filter(test, [p]));
  }

  /** Failure isolation: the pass issues `mount` for exactly the candidates whose attempt reaches the
      command, in order, whatever happened to the candidates before them, and for nothing else. */
  lemma {:induction false} MountAllIds(files: Collaborators, h: HostState, ps: seq<Partition>, outcome: string -> MountOutcome)
    ensures MountedIds(MountAll(files, h, ps, outcome).trace)
      == MountedIds(h.trace) + Map(PartitionId, Filter(ReachesMountTest(outcome), ps))
  {
    if ps == [] {
      assert MountedIds(h.trace) + [] == MountedIds(h.trace);
    } else {
      var n := |ps| - 1;
      var p := ps[n];
      var prev := MountAll(files, h, ps[..n], outcome);
      var test := ReachesMountTest(outcome);
      var added := if ReachesMount(outcome(p.id)) then [p.id] else [];
      calc {
        MountedIds(MountAll(files, h, ps, outcome).trace);
        MountedIds(AttemptMount(files, prev, p, outcome(p.id)).trace);
        { AttemptMountIds(files, prev, p, outcome(p.id)); }
        MountedIds(prev.trace) + added;
        { MountAllIds(files, h, ps[..n], outcome); }
        (MountedIds(h.trace) + Map(PartitionId, Filter(test, ps[..n]))) + added;
        MountedIds(h.trace) + (Map(PartitionId, Filter(test, ps[..n])) + added);
        { PickedAppend(outcome, ps[..n], p); }
        MountedIds(h.trace) + Map(PartitionId, Filter(test, ps[..n] + [p]));
        { assert ps == ps[..n] + [p]; }
        MountedIds(h.trace) + Map(PartitionId, Filter(test, ps));
      }
    }
  }

  /** Every `mount` an automount pass issues, including one for a partition an earlier pass had
      mounted, is for a partition of a USB device in the settled answer that has no mount point
      and is not an EFI system partition. */
  lemma MountPassSafety(files: Collaborators, h: HostState, polls: seq<Probe>, outcome: string -> MountOutcome, id: string)
    requires var ids := MountedIds(MountPass(files, h, polls, outcome).0.trace);
      |MountedIds(h.trace)| <= |ids| && id in ids[|MountedIds(h.trace)|..]
    ensures Settle(polls).Ok?
    ensures exists d, p ::
      d in Settle(polls).value && p in d.partitions && p.id == id && IsUsb(d) && ShouldMount(p) && ReachesMount(outcome(id))
  {
    match Settle(polls)
    case Err(_) =>
    case Ok(devices) =>
      var ps := Candidates(devices);
      var picked := Filter(ReachesMountTest(outcome), ps);
      MountAllIds(files, h, ps, outcome);
      assert MountedIds(MountPass(files, h, polls, outcome).0.trace)[|MountedIds(h.trace)|..] == Map(PartitionId, picked);
      assert id in Map(PartitionId, picked);
      var k :| 0 <= k < |picked| && Map(PartitionId, picked)[k] == id;
      var p := picked[k];
      FilterMemberPasses(ReachesMountTest(outcome), ps, p);
      assert p in ps && ReachesMount(outcome(p.id));
      CandidatesAreMountable(devices);
      var i :| 0 <= i < |devices| && p in devices[i].partitions;
      var chosen := SettleChoice(polls);
      if polls == [] {
        assert false;
      }
      assert devices[i] in devices;
      FilterMemberPasses(IsUsb, BlockDevicesOf(polls[chosen].listing), devices[i]);
  }

  /** Conversely, a pass issues `mount` for every unmounted, non-EFI partition of every device in the
      settled answer whose attempt reaches the command. */
  lemma MountPassCompleteness(files: Collaborators, h: HostState, polls: seq<Probe>, outcome: string -> MountOutcome,
                              i: nat, p: Partition)
    requires Settle(polls).Ok? && i < |Settle(polls).value|
    requires p in Settle(polls).value[i].partitions && ShouldMount(p) && ReachesMount(outcome(p.id))
    ensures var ids := MountedIds(MountPass(files, h, polls, outcome).0.trace);
      |MountedIds(h.trace)| <= |ids| && p.id in ids[|MountedIds(h.trace)|..]
  {
    var devices := Settle(polls).value;
    var ps := Candidates(devices);
    var picked := Filter(ReachesMountTest(outcome), ps);
    MountAllIds(files, h, ps, outcome);
    CandidatesComplete(devices, i, p);
    FilterKeeps(ReachesMountTest(outcome), ps, p);
    var k :| 0 <= k < |picked| && picked[k] == p;
    assert Map(PartitionId, picked)[k] == p.id;
    var ids := MountedIds(MountPass(files, h, polls, outcome).0.trace);
    assert ids[|MountedIds(h.trace)|..] == Map(PartitionId, picked);
  }
}
