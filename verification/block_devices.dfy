/** Probing block devices: `getBlockDevices` turns the records printed by
    `lsblk --output-all --json --bytes` into devices with their partitions. */
module BlockDevices {
  import opened Wrappers
  import opened Seqs
  import opened Strings

  /** One record of lsblk's JSON output, as far as the core reads it; a field lsblk leaves out or
      prints as `null` is `None`. `kind` is lsblk's `type` column. */
  datatype LsBlkDevice = LsBlkDevice(
    name: string,
    fsLabel: Option<string>,
    kind: Option<string>,
    mountpoints: Option<seq<Option<string>>>,
    tran: Option<string>,
    model: Option<string>,
    size: Option<nat>,
    children: Option<seq<LsBlkDevice>>,
    parttypename: Option<string>)

  /** A partition of a block device. `typeName` is the partition type (for example `EFI System`),
      or `unknown` while the kernel has not reported it yet. */
  datatype Partition = Partition(
    id: string,
    typeName: string,
    size: nat,
    mountpoints: seq<string>,
    fsLabel: string)

  /** A whole disk. `transport` is the bus (`usb`, `nvme`, ...) or `unknown`. */
  datatype BlockDevice = BlockDevice(
    id: string,
    name: string,
    transport: string,
    size: nat,
    partitions: seq<Partition>)

  const Untitled := "Untitled"
  const Unknown := "unknown"

  predicate IsDisk(entry: LsBlkDevice) {
    entry.kind == Some("disk")
  }

  predicate IsPart(entry: LsBlkDevice) {
    entry.kind == Some("part")
  }

  /** JavaScript truthiness of a mountpoint entry: present and not the empty string. */
  predicate IsTruthy(m: Option<string>) {
    m.Some? && m.value != ""
  }

  /** `mountpoints.filter(Boolean)`: the non-null, non-empty entries, in order. */
  function TruthyMountpoints(ms: seq<Option<string>>): (r: seq<string>)
    ensures forall m :: m in r <==> m != "" && Some(m) in ms
  {
    var kept := Filter(IsTruthy, ms);
    var r := Map((m: Option<string>) => m.GetOr(""), kept);
    assert forall m :: m in r <==> m != "" && Some(m) in ms by {
      forall m ensures m in r <==> m != "" && Some(m) in ms {
        if m in r {
          var i :| 0 <= i < |r| && r[i] == m;
          FilterMemberPasses(IsTruthy, ms, kept[i]);
        }
        if m != "" && Some(m) in ms {
          FilterKeeps(IsTruthy, ms, Some(m));
          var i :| 0 <= i < |kept| && kept[i] == Some(m);
          assert r[i] == m;
        }
      }
    }
    r
  }

  /** The partition record built from one `part` child. */
  function NormalizePartition(child: LsBlkDevice): Partition {
    Partition(
      id := child.name,
      typeName := child.parttypename.GetOr(Unknown),
      size := child.size.GetOr(0),
      mountpoints := TruthyMountpoints(child.mountpoints.GetOr([])),
      fsLabel := match child.fsLabel
        case Some(l) => Trim(l)
        case None => Untitled)
  }

  /** The device record built from one `disk` entry: its partitions are its `part` children. */
  function NormalizeDevice(entry: LsBlkDevice): BlockDevice {
    BlockDevice(
      id := entry.name,
      name := entry.model.GetOr(Untitled),
      transport := entry.tran.GetOr(Unknown),
      size := entry.size.GetOr(0),
      partitions := Map(NormalizePartition, Filter(IsPart, entry.children.GetOr([]))))
  }

  /** What `getBlockDevices` returns for a parsed lsblk listing. */
  function BlockDevicesOf(listing: seq<LsBlkDevice>): seq<BlockDevice> {
    Map(NormalizeDevice, Filter(IsDisk, listing))
  }

  /** `getBlockDevices` after lsblk has run and its JSON has been parsed. */
  method GetBlockDevices(listing: seq<LsBlkDevice>) returns (devices: seq<BlockDevice>)
    ensures devices == BlockDevicesOf(listing)
  {
    devices := [];
    for i := 0 to |listing|
      invariant devices == BlockDevicesOf(listing[..i])
    {
      var entry := listing[i];
      assert listing[..i + 1] == listing[..i] + [entry];
      BlockDevicesOfAppend(listing[..i], [entry]);
      BlockDevicesOfEntry(entry);
      if entry.kind != Some("disk") {
        continue;
      }
      var partitions := CollectPartitions(entry.children.GetOr([]));
      devices := devices + [BlockDevice(
        id := entry.name,
        name := entry.model.GetOr(Untitled),
        transport := entry.tran.GetOr(Unknown),
        size := entry.size.GetOr(0),
        partitions := partitions)];
    }
    assert listing[..|listing|] == listing;
  }

  /** The inner loop of `getBlockDevices`: the partitions of one disk entry. */
  method CollectPartitions(children: seq<LsBlkDevice>) returns (partitions: seq<Partition>)
    ensures partitions == Map(NormalizePartition, Filter(IsPart, children))
  {
    partitions := [];
    for j := 0 to |children|
      invariant partitions == Map(NormalizePartition, Filter(IsPart, children[..j]))
    {
      var child := children[j];
      assert children[..j + 1] == children[..j] + [child];
      FilterAppend(IsPart, children[..j], [child]);
      FilterSingleton(IsPart, child);
      if child.kind != Some("part") {
        continue;
      }
      partitions := partitions + [NormalizePartition(child)];
    }
    assert children[..|children|] == children;
  }

  /** The devices of a concatenated listing are those of each part, in order. */
  lemma {:induction false} BlockDevicesOfAppend(a: seq<LsBlkDevice>, b: seq<LsBlkDevice>)
    ensures BlockDevicesOf(a + b) == BlockDevicesOf(a) + BlockDevicesOf(b)
  {
    FilterAppend(IsDisk, a, b);
  }

  /** A single listing entry contributes one device if it is a `disk` and none otherwise; the device
      carries the entry's name as id, defaults for missing fields, and exactly the `part` children. */
  lemma BlockDevicesOfEntry(entry: LsBlkDevice)
    ensures BlockDevicesOf([entry]) == if IsDisk(entry) then [NormalizeDevice(entry)] else []
    ensures IsDisk(entry) ==> var d := NormalizeDevice(entry);
      && d.id == entry.name
      && (entry.model == None ==> d.name == Untitled)
      && (entry.tran == None ==> d.transport == Unknown)
      && (entry.size == None ==> d.size == 0)
      && d.partitions == Map(NormalizePartition, Filter(IsPart, entry.children.GetOr([])))
  {
    FilterSingleton(IsDisk, entry);
  }

  /** Partition fields: the id is lsblk's name; a missing type is `unknown`; the label is `Untitled`
      only when absent, and a present label is trimmed, so a blank one becomes empty; the
      mountpoints are exactly the non-null, non-empty entries. */
  lemma PartitionFields(child: LsBlkDevice)
    ensures var p := NormalizePartition(child);
      && p.id == child.name
      && (child.parttypename == None ==> p.typeName == Unknown)
      && (child.parttypename.Some? ==> p.typeName == child.parttypename.value)
      && (child.fsLabel == None ==> p.fsLabel == Untitled)
      && (child.fsLabel.Some? ==>
            p.fsLabel == Trim(child.fsLabel.value) && (p.fsLabel == "" <==> AllSpace(child.fsLabel.value)))
      && (forall m :: m in p.mountpoints <==> m != "" && Some(m) in child.mountpoints.GetOr([]))
  {
    if child.fsLabel.Some? {
      TrimEmptyIffBlank(child.fsLabel.value);
    }
  }
}
