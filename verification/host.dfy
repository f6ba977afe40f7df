/** The host the storage manager acts on, seen only through what the manager asks of it and
    what it does to it: lsblk's answer, the active mount points, the children of the `/External`
    base directory, and the trace of commands and notifications issued. */
module Host {
  import opened Wrappers
  import opened Strings
  import opened BlockDevices

  /** What one run of lsblk yields: a parsed listing, or `ProbeFailed` when lsblk cannot be run or
      its output cannot be parsed. */
  datatype Probe = Listed(listing: seq<LsBlkDevice>) | ProbeFailed

  /** What `readdir` finds at a child of the base directory: an empty directory, a non-empty one,
      or something it cannot list (a plain file, a permission error). */
  datatype EntryKind = EmptyDir | NonEmptyDir | Unreadable

  datatype Entry = Entry(name: string, kind: EntryKind)

  /** A command issued against the host or a notification published, in the order issued. */
  datatype Effect =
    | MakeDir(path: string)                   // fse.ensureDir
    | Chown(path: string)                     // files.chownSystemPath
    | Mount(partition: string, path: string)  // mount /dev/<partition> <path>
    | Umount(partition: string)               // umount --all-targets /dev/<partition>
    | RemoveDir(path: string)                 // fse.remove of a left-over mount point
    | DeleteDevice(device: string)            // write '1' to /sys/block/<device>/device/delete
    | StorageChanged                          // emit 'files:external-storage:change'

  /** The errors the manager's operations reject with. */
  datatype StorageError =
    | ProbeError       // lsblk failed or printed something unparsable
    | InvalidDeviceId  // '[invalid-device-id]'
    | FailedUnmounts   // '[failed-unmounts]'
    | ListingFailed    // readdir of the base directory failed
    | DeleteFailed     // the /sys delete write failed
    | DfFailed         // df could not be run

  /** A snapshot of the host. `mounted` is what the `mountpoint` command reports as active;
      `entries` is the listing of the `/External` base directory; `baseListable` says whether that
      listing can be read at all. */
  datatype HostState = HostState(
    lsblk: Probe,
    mounted: set<string>,
    baseListable: bool,
    entries: seq<Entry>,
    trace: seq<Effect>)

  /** The host as mutable state, changed in place by the manager's operations. */
  class Host {
    var lsblk: Probe
    var mounted: set<string>
    var baseListable: bool
    var entries: seq<Entry>
    var trace: seq<Effect>

    function State(): HostState
      reads this
    {
      HostState(lsblk, mounted, baseListable, entries, trace)
    }

    constructor (initial: HostState)
      ensures State() == initial
    {
      lsblk, mounted, baseListable := initial.lsblk, initial.mounted, initial.baseListable;
      entries, trace := initial.entries, initial.trace;
    }
  }

  /** The collaborators the manager consults and whose behaviour is not part of this model:
      `externalBase` is `files.getBaseDirectory('/External')`, `uniqueName` is
      `files.getUniqueName` (given the names already under the base directory), `toVirtual` is
      `files.systemToVirtualPath` and `raspberryPi` is `isRaspberryPi()`. */
  datatype Collaborators = Collaborators(
    externalBase: string,
    uniqueName: (set<string>, string) -> string,
    toVirtual: string -> string,
    raspberryPi: bool)

  /** `supported()`: the feature is off on a Raspberry Pi. */
  predicate Supported(files: Collaborators) {
    !files.raspberryPi
  }

  function Names(entries: seq<Entry>): set<string> {
    set e | e in entries :: e.name
  }

  /** `nodePath.join(base, name)` for a normalised base and a name holding no `/` or dot segment:
      an empty name yields the base itself. */
  function Join(base: string, name: string): (path: string)
    ensures name == "" ==> path == base
    ensures name != "" ==> StartsWith(path, base + "/") && path[|base| + 1..] == name
  {
    if name == "" then base else base + "/" + name
  }

  /** The name of `path` as a direct child of `base`, if it is one. */
  function ChildName(base: string, path: string): (r: Option<string>)
    ensures r.Some? ==> r.value != "" && '/' !in r.value && path == base + "/" + r.value
  {
    if StartsWith(path, base + "/") && |path| > |base| + 1 && '/' !in path[|base| + 1..] then
      assert path == path[..|base| + 1] + path[|base| + 1..];
      Some(path[|base| + 1..])
    else None
  }

  /** The listing after `fse.ensureDir(path)`: a new empty child when `path` is a direct child of the
      base that does not exist yet; unchanged otherwise. */
  function AddDir(base: string, entries: seq<Entry>, path: string): (r: seq<Entry>)
    ensures Names(r) == Names(entries) + (match ChildName(base, path) case Some(n) => {n} case None => {})
    ensures forall i :: 0 <= i < |entries| ==> i < |r| && r[i] == entries[i]
  {
    match ChildName(base, path)
    case Some(n) => if n in Names(entries) then entries else entries + [Entry(n, EmptyDir)]
    case None => entries
  }
}
