/** The two read-only queries: `getMountedExternalDevices` and
    `isExternalDeviceConnectedOnUnsupportedDevice`. */
module Queries {
  import opened Wrappers
  import opened Seqs
  import opened Strings
  import opened BlockDevices
  import opened Host
  import opened Automount

  predicate HasMountpoints(p: Partition) {
    |p.mountpoints| > 0
  }

  predicate HasPartitions(d: BlockDevice) {
    |d.partitions| > 0
  }

  function UnderBase(base: string): string -> bool {
    m => StartsWith(m, base)
  }

  /** A partition reduced to its mount points under the base, translated to virtual paths. */
  function RestrictPartition(files: Collaborators): Partition -> Partition {
    (p: Partition) => p.(mountpoints := Map(files.toVirtual, Filter(UnderBase(files.externalBase), p.mountpoints)))
  }

  /** A device reduced to its partitions that keep a mount point. */
  function RestrictDevice(files: Collaborators): BlockDevice -> BlockDevice {
    (d: BlockDevice) => d.(partitions := Filter(HasMountpoints, Map(RestrictPartition(files), d.partitions)))
  }

  /** The mounted view of a list of external devices. */
  function MountedView(files: Collaborators, devices: seq<BlockDevice>): seq<BlockDevice> {
    Filter(HasPartitions, Map(RestrictDevice(files), devices))
  }

  /** `getMountedExternalDevices` on one lsblk answer. */
  function MountedExternalDevices(files: Collaborators, probe: Probe): Result<seq<BlockDevice>, StorageError> {
    match ExternalDevices(probe)
    case Err(e) => Err(e)
    case Ok(devices) => Ok(MountedView(files, devices))
  }

  /** Every returned device is one of the probed devices (same id, name, transport and size) and has a
      partition; every returned partition is one of that device's partitions and has a mount point;
      every returned mount point is the virtual translation of one of that partition's mount points
      that starts with the base path. */
  lemma MountedViewSound(files: Collaborators, devices: seq<BlockDevice>, d: BlockDevice)
    requires d in MountedView(files, devices)
    ensures HasPartitions(d)
    ensures exists orig :: orig in devices && d == RestrictDevice(files)(orig)
    ensures forall p :: p in d.partitions ==>
      (HasMountpoints(p) && forall m :: m in p.mountpoints ==> exists s :: StartsWith(s, files.externalBase) && m == files.toVirtual(s))
  {
    FilterMemberPasses(HasPartitions, Map(RestrictDevice(files), devices), d);
    var i :| 0 <= i < |devices| && Map(RestrictDevice(files), devices)[i] == d;
    assert devices[i] in devices;
    forall p | p in d.partitions
      ensures HasMountpoints(p)
      ensures forall m :: m in p.mountpoints ==> exists s :: StartsWith(s, files.externalBase) && m == files.toVirtual(s)
    {
      RestrictDeviceSound(files, devices[i], p);
    }
  }

  /** A partition of a reduced device keeps a mount point, and each of its mount points translates
      one under the base. */
  lemma RestrictDeviceSound(files: Collaborators, orig: BlockDevice, p: Partition)
    requires p in RestrictDevice(files)(orig).partitions
    ensures HasMountpoints(p)
    ensures forall m :: m in p.mountpoints ==> exists s :: StartsWith(s, files.externalBase) && m == files.toVirtual(s)
  {
    var restricted := Map(RestrictPartition(files), orig.partitions);
    FilterMemberPasses(HasMountpoints, restricted, p);
    var j :| 0 <= j < |restricted| && restricted[j] == p;
    forall m | m in p.mountpoints
      ensures exists s :: StartsWith(s, files.externalBase) && m == files.toVirtual(s)
    {
      RestrictPartitionSound(files, orig.partitions[j], m);
    }
  }

  /** A mount point of a reduced partition is the translation of one of its mount points under the base. */
  lemma RestrictPartitionSound(files: Collaborators, q: Partition, m: string)
    requires m in RestrictPartition(files)(q).mountpoints
    ensures exists s :: s in q.mountpoints && StartsWith(s, files.externalBase) && m == files.toVirtual(s)
  {
    var kept := Filter(UnderBase(files.externalBase), q.mountpoints);
    var k :| 0 <= k < |kept| && files.toVirtual(kept[k]) == m;
    assert kept[k] in kept;
    FilterMemberPasses(UnderBase(files.externalBase), q.mountpoints, kept[k]);
  }

  /** Conversely, a probed device with a partition mounted under the base is returned, with that
      partition and the translated mount point. */
  lemma MountedViewComplete(files: Collaborators, devices: seq<BlockDevice>, i: nat, j: nat, s: string)
    requires i < |devices| && j < |devices[i].partitions|
    requires s in devices[i].partitions[j].mountpoints && StartsWith(s, files.externalBase)
    ensures exists d, p ::
      (d in MountedView(files, devices) && d.id == devices[i].id
       && p in d.partitions && p.id == devices[i].partitions[j].id && files.toVirtual(s) in p.mountpoints)
  {
    var orig := devices[i];
    var part := orig.partitions[j];
    var kept := Filter(UnderBase(files.externalBase), part.mountpoints);
    FilterKeeps(UnderBase(files.externalBase), part.mountpoints, s);
    var k :| 0 <= k < |kept| && kept[k] == s;
    var p := RestrictPartition(files)(part);
    assert p.mountpoints[k] == files.toVirtual(s);
    var restricted := Map(RestrictPartition(files), orig.partitions);
    assert restricted[j] == p;
    FilterKeeps(HasMountpoints, restricted, p);
    var d := RestrictDevice(files)(orig);
    assert Map(RestrictDevice(files), devices)[i] == d;
    FilterKeeps(HasPartitions, Map(RestrictDevice(files), devices), d);
  }

  /** The disk holding the data directory, from `df <dataDirectory> --output=source`: the last line,
      then its last `/`-separated segment, then that segment without its trailing digits. */
  function DataDirDisk(stdout: string): string {
    StripTrailingDigits(Last(Split(Last(Split(stdout, '\n')), '/')))
  }

  /** The piece `pop()` takes after `split(sep)` is the suffix of `s` after its last separator. */
  lemma {:induction false} SplitLastIsSuffix(s: string, sep: char)
    ensures var l := Last(Split(s, sep));
      && sep !in l && |l| <= |s| && s[|s| - |l|..] == l
      && (|l| < |s| ==> s[|s| - |l| - 1] == sep)
  {
    if s != [] {
      var n := |s| - 1;
      var prefix := s[..n];
      assert s == prefix + [s[n]];
      if s[n] == sep {
        SplitSnocSep(prefix, sep);
      } else {
        SplitLastIsSuffix(prefix, sep);
        SplitSnocOther(prefix, s[n], sep);
        var li := Last(Split(prefix, sep));
        assert Last(Split(s, sep)) == li + [s[n]];
        assert s[n - |li|..] == prefix[n - |li|..] + [s[n]];
        if |li| < n {
          assert s[n - |li| - 1] == prefix[n - |li| - 1];
        }
      }
    }
  }

  /** A character absent from a string is absent from every slice of it. */
  lemma AbsentFromSlice(s: string, c: char, i: nat, j: nat)
    requires c !in s && i <= j <= |s|
    ensures c !in s[i..j]
  {
  }

  /** The data-directory disk name holds no `/` and no line break and does not end in a digit; it is
      the start of the last path segment of the last line of the output, the rest of which is digits. */
  lemma DataDirDiskShape(stdout: string) returns (line: string, segment: string)
    ensures line == Last(Split(stdout, '\n')) && segment == Last(Split(line, '/'))
    ensures |line| <= |stdout| && stdout[|stdout| - |line|..] == line
    ensures |segment| <= |line| && line[|line| - |segment|..] == segment
    ensures var disk := DataDirDisk(stdout);
      && |disk| <= |segment| && segment[..|disk|] == disk
      && (forall k :: |disk| <= k < |segment| ==> IsDigit(segment[k]))
      && '/' !in disk && '\n' !in disk
      && (disk == [] || !IsDigit(disk[|disk| - 1]))
  {
    line := Last(Split(stdout, '\n'));
    segment := Last(Split(line, '/'));
    assert '\n' !in line && |line| <= |stdout| && stdout[|stdout| - |line|..] == line by {
      SplitLastIsSuffix(stdout, '\n');
    }
    assert '/' !in segment && |segment| <= |line| && line[|line| - |segment|..] == segment by {
      SplitLastIsSuffix(line, '/');
    }
    assert '\n' !in segment by {
      AbsentFromSlice(line, '\n', |line| - |segment|, |line|);
    }
    var disk := StripTrailingDigits(segment);
    assert disk == DataDirDisk(stdout);
    assert '/' !in disk && '\n' !in disk by {
      AbsentFromSlice(segment, '\n', 0, |disk|);
      AbsentFromSlice(segment, '/', 0, |disk|);
    }
  }

  /** The last piece of `a`, a separator, then a piece without the separator, is that piece. */
  lemma LastPieceAfter(a: string, b: string, sep: char)
    requires sep !in b
    ensures Last(Split(a + [sep] + b, sep)) == b
  {
    SplitTail(a, b, sep);
  }

  /** When the last line of the output is a device path whose last segment is a disk name followed
      by a partition number, the disk is that name. */
  lemma DataDirDiskOfPartition(stdout: string, header: string, directory: string, name: string, number: string)
    requires stdout == header + ['\n'] + directory + ['/'] + name + number
    requires '\n' !in directory && '/' !in name + number && '\n' !in name + number
    requires name == [] || !IsDigit(name[|name| - 1])
    requires forall k :: 0 <= k < |number| ==> IsDigit(number[k])
    ensures DataDirDisk(stdout) == name
  {
    var line := directory + ['/'] + (name + number);
    assert Last(Split(stdout, '\n')) == line by {
      assert stdout == header + ['\n'] + line;
      LastPieceAfter(header, line, '\n');
    }
    assert Last(Split(line, '/')) == name + number by {
      LastPieceAfter(directory, name + number, '/');
    }
    StripTrailingDigitsOf(name, number);
  }

  /** The usual `df` output, a header line and then the partition `/dev/sda1`, names the disk `sda`. */
  lemma DataDirDiskExample()
    ensures DataDirDisk("Filesystem\n/dev/sda1") == "sda"
  {
    assert "Filesystem\n/dev/sda1" == "Filesystem" + ['\n'] + "/dev" + ['/'] + "sda" + "1";
    DataDirDiskOfPartition("Filesystem\n/dev/sda1", "Filesystem", "/dev", "sda", "1");
  }

  function NotNamed(name: string): BlockDevice -> bool {
    (d: BlockDevice) => d.id != name
  }

  /** `isExternalDeviceConnectedOnUnsupportedDevice`: `df` yields `None` when it cannot be run. */
  function UnsupportedButConnected(files: Collaborators, probe: Probe, df: Option<string>): Result<bool, StorageError> {
    match ExternalDevices(probe)
    case Err(e) => Err(e)
    case Ok(devices) =>
      match df
      case None => Err(DfFailed)
      case Some(stdout) => Ok(!Supported(files) && |Filter(NotNamed(DataDirDisk(stdout)), devices)| > 0)
  }

  /** The answer is true exactly on unsupported hardware with a USB device other than the disk
      holding the data directory; on supported hardware it is never true; a failing probe or `df`
      rejects even on supported hardware. */
  lemma UnsupportedButConnectedIff(files: Collaborators, probe: Probe, df: Option<string>)
    ensures var r := UnsupportedButConnected(files, probe, df);
      && (r.Ok? <==> probe.Listed? && df.Some?)
      && (Supported(files) ==> r != Ok(true))
      && (r == Ok(true) <==>
           (probe.Listed? && df.Some? && !Supported(files)
            && exists d :: d in ExternalDevices(probe).value && d.id != DataDirDisk(df.value)))
  {
    if probe.Listed? && df.Some? {
      var devices := ExternalDevices(probe).value;
      var others := Filter(NotNamed(DataDirDisk(df.value)), devices);
      if |others| > 0 {
        assert others[0] in others;
        FilterMemberPasses(NotNamed(DataDirDisk(df.value)), devices, others[0]);
      }
      if d :| d in devices && d.id != DataDirDisk(df.value) {
        FilterKeeps(NotNamed(DataDirDisk(df.value)), devices, d);
      }
    }
  }
}
