# External storage manager and backups island, modelled in Dafny

This project models umbrel's external storage manager. The manager finds the USB disks attached
to the host through `lsblk`, mounts their partitions under the `/External` base directory, and
unmounts and ejects them on request. It also removes left-over mount directories and answers
two read-only queries. The project also models the helpers of the backups floating island in the
web UI: the device name shown for a backup repository's path, the list of named progress
entries, their count and their rounded mean percent.

The host is seen only through what the manager asks of it and what it does to it. A
`Host.HostState` holds:

- lsblk's parsed answer, or a failure;
- the set of mount points `mountpoint` reports as active;
- whether the base directory can be listed, and its children;
- the ordered trace of commands issued and notifications published: `MakeDir`, `Chown`,
  `Mount`, `Umount`, `RemoveDir`, `DeleteDevice` and `StorageChanged`. A failed `chown`, `mount`
  or `umount` is recorded; a failed unique-name resolution or `ensureDir` leaves no entry, as the
  directory was not created.

Each queued operation of the `ExternalStorage` class is a method of
`ExternalStorageManager.ExternalStorage`. The method changes a `Host.Host` object in place and
is proved equal to a specification function on `HostState`. The properties the manager promises
are lemmas about those functions:

- it never mounts an already-mounted or EFI partition, and failures stay isolated;
- mount directories are distinct;
- left-over directories are removed exactly when they are empty and inactive;
- the verdicts and effects of an unmount are fixed;
- `stop` never deletes a device;
- the gating on unsupported hardware holds.

Commands whose outcome the model cannot compute are parameters that say how each one ends:

- `outcome` for a mount attempt;
- `umountOk` for `umount`;
- `deleteOk` for the `/sys` delete write;
- `df` for the `df` output;
- `polls` for the successive lsblk answers during the wait for partition types.

Modules:

- `Wrappers`: `Option` and `Result`.
- `Seqs`: `Filter`, `Map`, `Flatten`.
- `Strings`: JavaScript's `startsWith`, `split`, `trim` and the trailing-digit `replace`.
- `BlockDevices`: `getBlockDevices`.
- `Host`: the host state and the collaborators.
- `Automount`: `#mountExternalDevices`.
- `Cleanup`: `#cleanLeftOverMountPoints`.
- `Queries`: `getMountedExternalDevices` and `isExternalDeviceConnectedOnUnsupportedDevice`.
- `Unmount`: `unmountExternalDevice` and `#unmountAllMountedExternalDevices`.
- `ExternalStorageManager`: the class, `start`, `stop` and the loops as methods.
- `BackupsIsland`: the floating island helpers.

## Model

| member | source | states |
|---|---|---|
| BlockDevices.TruthyMountpoints | packages/umbreld/source/modules/files/external-storage.ts:70 | `mountpoints.filter(Boolean)`: a string is kept exactly when it is a present, non-empty entry |
| BlockDevices.GetBlockDevices | packages/umbreld/source/modules/files/external-storage.ts:29-79 | the loop over lsblk's records returns exactly `BlockDevicesOf(listing)`: one device per `disk` record, in order |
| BlockDevices.CollectPartitions | packages/umbreld/source/modules/files/external-storage.ts:60-72 | the partition loop keeps exactly the `part` children, in order, each normalised |
| BlockDevices.BlockDevicesOf | packages/umbreld/source/modules/files/external-storage.ts:29-79 | `getBlockDevices` on one parsed lsblk listing; characterised by `BlockDevicesOfEntry`, `BlockDevicesOfAppend` and `PartitionFields` |
| BlockDevices.BlockDevicesOfAppend | packages/umbreld/source/modules/files/external-storage.ts:46-76 | the devices of a concatenated listing are those of each part in order (records are independent) |
| BlockDevices.BlockDevicesOfEntry | packages/umbreld/source/modules/files/external-storage.ts:48-57 | a non-disk record contributes nothing; a disk gives a device with id = lsblk name, defaults `Untitled`/`unknown`/0 for missing model/tran/size, and exactly its `part` children |
| BlockDevices.PartitionFields | packages/umbreld/source/modules/files/external-storage.ts:65-71 | partition id = lsblk name; a missing type is `unknown`; a missing label is `Untitled`, a present one is trimmed and is empty exactly when blank; mountpoints are the truthy entries |
| Automount.ExternalDevices | packages/umbreld/source/modules/files/external-storage.ts:244-250 | `#getExternalDevices` on one lsblk answer rejects exactly when lsblk fails |
| Automount.ExternalDevicesAreUsb | packages/umbreld/source/modules/files/external-storage.ts:244-250 | on a listing, the result holds exactly the listed block devices whose transport is `usb`; when all are on USB it is the whole listing, in order |
| Automount.Settle | packages/umbreld/source/modules/files/external-storage.ts:148-158 | the `pWaitFor` poll started from the empty list; characterised by `SettleChoice` |
| Automount.SettleChoice | packages/umbreld/source/modules/files/external-storage.ts:148-158 | the wait settles on the first lsblk answer without an `unknown` partition type, or on the last answer within the timeout; every earlier answer had one; a failing probe rejects; with no answer before the timeout it resolves with no devices |
| Automount.Candidates | packages/umbreld/source/modules/files/external-storage.ts:161-168 | the partitions the pass tries, device by device; characterised by `CandidatesAreMountable` and `CandidatesComplete` |
| Automount.CandidatesAreMountable | packages/umbreld/source/modules/files/external-storage.ts:161-168 | every partition the pass tries is unmounted, not `EFI System`, and belongs to one of the devices |
| Automount.CandidatesComplete | packages/umbreld/source/modules/files/external-storage.ts:161-168 | every unmounted non-EFI partition of every device is tried |
| Automount.SanitiseLabel | packages/umbreld/source/modules/files/external-storage.ts:175 | the label `replace`; characterised by `SanitiseLabelChars`, `SanitiseLabelIdempotent` and `SanitiseLabelEmpty` |
| Automount.SanitiseLabelChars | packages/umbreld/source/modules/files/external-storage.ts:175 | the sanitised label holds only `[a-zA-Z0-9 '_-]`, keeps every such character, and never holds `/` |
| Automount.SanitiseLabelIdempotent | packages/umbreld/source/modules/files/external-storage.ts:175 | sanitising twice is sanitising once |
| Automount.SanitiseLabelEmpty | packages/umbreld/source/modules/files/external-storage.ts:175-176 | a label with no allowed character gives the empty name, whose joined path is the base directory itself |
| Automount.SanitiseExample | packages/umbreld/source/modules/files/external-storage.ts:175 | `My Drive!@#` sanitises to `My Drive` |
| Automount.AttemptMount | packages/umbreld/source/modules/files/external-storage.ts:172-193 | one caught attempt of the inner loop; characterised by `AttemptMountIds`, `AttemptMountPaths` and `AttemptMountEffects` |
| Automount.MountAll | packages/umbreld/source/modules/files/external-storage.ts:161-195 | the attempts of the candidates in order; characterised by `MountAllIds`, `MountAllGrows`, `MountAllOnlyMounts` and `MountAllTargetsFresh` |
| Automount.AttemptMountIds | packages/umbreld/source/modules/files/external-storage.ts:172-193 | one attempt issues `mount` for its partition exactly when it gets past directory creation and chown |
| Automount.AttemptMountPaths | packages/umbreld/source/modules/files/external-storage.ts:176-182 | the `mount` an attempt issues targets the unique name resolved for its sanitised label |
| Automount.MountAllTargetsFresh | packages/umbreld/source/modules/files/external-storage.ts:174-182 | if the unique-name collaborator resolves a fresh child of the base for every non-empty name, the `mount` commands of one pass over partitions whose labels keep a character target pairwise distinct new children, none existing before the pass, even for equal labels |
| Automount.MountAllGrows | packages/umbreld/source/modules/files/external-storage.ts:161-195 | the pass only appends to the trace and adds active mount points; lsblk's answer and the base's readability are unchanged |
| Automount.AttemptMountEffects | packages/umbreld/source/modules/files/external-storage.ts:180-185 | one attempt appends only directory creation, chown, mount and the change event |
| Automount.MountAllOnlyMounts | packages/umbreld/source/modules/files/external-storage.ts:161-195 | the pass never removes a directory, unmounts or deletes a device |
| Automount.MountAllIds | packages/umbreld/source/modules/files/external-storage.ts:161-195 | failure isolation: `mount` is issued for exactly the candidates whose attempt reaches it, in order, whatever happened to earlier ones |
| Automount.MountPass | packages/umbreld/source/modules/files/external-storage.ts:138-197 | the queued automount task: the poll, then every candidate of the settled answer; characterised by `MountPassSafety` and `MountPassCompleteness` |
| Automount.MountPassSafety | packages/umbreld/source/modules/files/external-storage.ts:138-197 | every `mount` a pass issues, including a re-mount of a partition an earlier pass had mounted, is for an unmounted, non-EFI partition of a USB device in the settled answer whose attempt reached the command |
| Automount.MountPassCompleteness | packages/umbreld/source/modules/files/external-storage.ts:161-193 | conversely, every unmounted non-EFI partition of every device in the settled answer whose attempt reaches the `mount` command is newly mounted by the pass |
| Cleanup.Clean | packages/umbreld/source/modules/files/external-storage.ts:296-318 | `#cleanLeftOverMountPoints` on the host; characterised by the three `Clean…` lemmas below |
| Cleanup.CleanRemovesExactly | packages/umbreld/source/modules/files/external-storage.ts:296-318 | a child survives exactly when it is not an empty inactive directory; each removable child gets a `RemoveDir`; active mounts and lsblk are untouched |
| Cleanup.CleanRemovesOnlySafe | packages/umbreld/source/modules/files/external-storage.ts:303-312 | every `RemoveDir` is for a child that was an empty directory not reported active by `mountpoint` |
| Cleanup.CleanOnlyRemoves | packages/umbreld/source/modules/files/external-storage.ts:296-318 | the scan only appends `RemoveDir` effects |
| Queries.MountedExternalDevices | packages/umbreld/source/modules/files/external-storage.ts:256-279 | `getMountedExternalDevices`; characterised by `MountedViewSound` and `MountedViewComplete` |
| Queries.MountedViewSound | packages/umbreld/source/modules/files/external-storage.ts:256-279 | every returned device is a probed device reduced to its partitions with mount points under the base, each translated to a virtual path; none is empty |
| Queries.MountedViewComplete | packages/umbreld/source/modules/files/external-storage.ts:256-279 | a probed partition mounted under the base is returned within its device, with that mount point translated |
| Queries.DataDirDisk | packages/umbreld/source/modules/files/external-storage.ts:329-330 | the disk name taken from `df`'s output; characterised by `DataDirDiskShape` and `DataDirDiskOfPartition` |
| Queries.DataDirDiskShape | packages/umbreld/source/modules/files/external-storage.ts:329-330 | the data-directory disk name is a prefix of the last `/`-separated segment of `df`'s last line, followed there only by digits; it holds no `/` and does not end in a digit |
| Queries.DataDirDiskOfPartition | packages/umbreld/source/modules/files/external-storage.ts:329-330 | when `df`'s last line is `<dir>/<name><digits>`, the disk name is `<name>` |
| Queries.DataDirDiskExample | packages/umbreld/source/modules/files/external-storage.ts:329-330 | `Filesystem\n/dev/sda1` names the disk `sda` |
| Queries.UnsupportedButConnected | packages/umbreld/source/modules/files/external-storage.ts:322-334 | `isExternalDeviceConnectedOnUnsupportedDevice`; characterised by `UnsupportedButConnectedIff` |
| Queries.UnsupportedButConnectedIff | packages/umbreld/source/modules/files/external-storage.ts:322-334 | the answer is true exactly on unsupported hardware with a USB device other than the data-directory disk; never true on supported hardware; a failing lsblk or `df` rejects |
| Unmount.FindDevice | packages/umbreld/source/modules/files/external-storage.ts:206-207 | `find`: none exactly when no device has the id; otherwise the first one that has it |
| Unmount.UmountPartitions | packages/umbreld/source/modules/files/external-storage.ts:212-224 | the partition loop leaves lsblk, the base listing and its readability alone and only releases mount points |
| Unmount.UmountPartitionsTrace | packages/umbreld/source/modules/files/external-storage.ts:212-224 | `umount` is issued exactly for the partitions with a mount point, in order |
| Unmount.UmountPartitionsFailed | packages/umbreld/source/modules/files/external-storage.ts:218-222 | the failure flag is set exactly when some partition with a mount point failed to unmount |
| Unmount.UmountPartitionsMounted | packages/umbreld/source/modules/files/external-storage.ts:212-224 | a mount point stays active exactly when no partition listing it was unmounted successfully |
| Unmount.UnmountRejectsUnknown | packages/umbreld/source/modules/files/external-storage.ts:206-208 | an unknown id rejects with `[invalid-device-id]` and a failing lsblk rejects, both before anything is done |
| Unmount.UnmountDevice | packages/umbreld/source/modules/files/external-storage.ts:200-241 | `unmountExternalDevice`; characterised by `UnmountRejectsUnknown`, `UnmountDeviceTrace`, `UnmountDeviceVerdict` and `UnmountDeviceEffects` |
| Unmount.UnmountDeviceTrace | packages/umbreld/source/modules/files/external-storage.ts:200-241 | the effects are the `umount`s, then the clean-up removals, then the delete write if asked for and the change event, as far as the task gets |
| Unmount.UnmountDeviceVerdict | packages/umbreld/source/modules/files/external-storage.ts:227-239 | result is `true` exactly when clean-up and delete succeed and every umount did; `[failed-unmounts]` exactly when only umounts failed; clean-up or delete failures reject first |
| Unmount.UnmountDeviceEffects | packages/umbreld/source/modules/files/external-storage.ts:227-234 | the delete write is issued exactly on a hard eject whose clean-up succeeded, even if an umount failed; the change is announced exactly when the delete step is passed |
| Unmount.SoftUnmountNeverDeletes | packages/umbreld/source/modules/files/external-storage.ts:231 | with `remove: false` no device is deleted |
| Unmount.UnmountEachNeverDeletes | packages/umbreld/source/modules/files/external-storage.ts:284-291 | unmounting a list of devices softly deletes none, whatever each outcome |
| Unmount.UnmountDeviceUmounts | packages/umbreld/source/modules/files/external-storage.ts:205-224 | one unmount issues exactly, in order, a `umount` for each partition of the device that has a mount point, and none for an unknown id, whatever else it does |
| Unmount.UnmountEachUmounts | packages/umbreld/source/modules/files/external-storage.ts:282-293 | unmounting a list of devices in turn issues exactly the `umount`s of each device, device by device, in order |
| Unmount.UmountsForMembers | packages/umbreld/source/modules/files/external-storage.ts:211-224 | a `umount` of `x` is among a list's commands exactly when one of the listed devices has a partition `x` with a mount point |
| Unmount.MountedDevicesFound | packages/umbreld/source/modules/files/external-storage.ts:256-279 | every device `getMountedExternalDevices` lists is found again by `unmountExternalDevice`, so none is rejected as an invalid id |
| Unmount.UnmountAllMounted | packages/umbreld/source/modules/files/external-storage.ts:282-293 | `#unmountAllMountedExternalDevices`; characterised by `UnmountAllUmounts`, `UnmountAllUnmountsEvery`, `UnmountAllAnnounces` and `UnmountAllNeverDeletes` |
| Unmount.UnmountAllUmounts | packages/umbreld/source/modules/files/external-storage.ts:282-293 | the `umount`s issued are exactly, in order, those of each mounted USB device: one per partition with any mount point (not only those under `/External`) |
| Unmount.UnmountAllUnmountsEvery | packages/umbreld/source/modules/files/external-storage.ts:282-293 | a partition is unmounted exactly when it has a mount point and belongs to one of the mounted USB devices |
| Unmount.SoftUnmountAnnounces | packages/umbreld/source/modules/files/external-storage.ts:226-234 | a soft unmount of a listed device announces the change once when the base directory can be listed, and not at all otherwise |
| Unmount.UnmountEachAnnounces | packages/umbreld/source/modules/files/external-storage.ts:282-293 | soft-unmounting listed devices in turn announces the change once per device when the base directory can be listed |
| Unmount.UnmountAllAnnounces | packages/umbreld/source/modules/files/external-storage.ts:282-293 | `#unmountAllMountedExternalDevices` announces the change exactly once per mounted USB device when the base directory can be listed, and never otherwise |
| Unmount.UnmountAllNeverDeletes | packages/umbreld/source/modules/files/external-storage.ts:282-293 | `#unmountAllMountedExternalDevices` never deletes a device and only appends to the trace; it rejects only when lsblk fails, leaving the host unchanged |
| ExternalStorageManager.Unsubscribe | packages/umbreld/source/modules/files/external-storage.ts:131 | after removal the listener is not subscribed |
| ExternalStorageManager.UnsubscribeUndoesSubscribe | packages/umbreld/source/modules/files/external-storage.ts:118-131 | subscribing a fresh listener then calling its remover restores the channel; calling the remover twice is calling it once |
| ExternalStorageManager.StartHost | packages/umbreld/source/modules/files/external-storage.ts:102-122 | `start` on the host; characterised by `StartStopGate` and `StartCleansBeforeMounting` |
| ExternalStorageManager.StopHost | packages/umbreld/source/modules/files/external-storage.ts:125-135 | `stop` on the host; characterised by `StartStopGate`, `UnmountAllUnmountsEvery`, `UnmountAllAnnounces` and `UnmountAllNeverDeletes` |
| ExternalStorageManager.StartStopGate | packages/umbreld/source/modules/files/external-storage.ts:96-135 | on a Raspberry Pi `start` and `stop` leave the host untouched; elsewhere `start` rejects exactly when the base cannot be listed, never because automount failed |
| ExternalStorageManager.StartCleansBeforeMounting | packages/umbreld/source/modules/files/external-storage.ts:109-115 | `start`'s effects are removals followed by automount effects only |
| ExternalStorageManager.ExternalDevicesOf | packages/umbreld/source/modules/files/external-storage.ts:244-250 | the method computes `#getExternalDevices` for one lsblk answer |
| ExternalStorageManager.WaitForPartitionTypes | packages/umbreld/source/modules/files/external-storage.ts:148-158 | the polling loop, starting from `[]`, returns the settled answer (see `SettleChoice`) |
| ExternalStorageManager.MountAllAppend | packages/umbreld/source/modules/files/external-storage.ts:161-195 | attempting two lists of candidates in turn is attempting their concatenation |
| ExternalStorageManager.ExternalStorage.constructor | packages/umbreld/source/modules/files/external-storage.ts:81-91 | a fresh manager has no listener and no remover |
| ExternalStorageManager.ExternalStorage.Start | packages/umbreld/source/modules/files/external-storage.ts:102-122 | host ends in `StartHost`'s state; on success on supported hardware exactly one fresh listener is subscribed and its remover kept; otherwise the subscriptions, the remover and the next listener id are unchanged |
| ExternalStorageManager.ExternalStorage.Stop | packages/umbreld/source/modules/files/external-storage.ts:125-135 | host ends in `StopHost`'s state; the stored remover's listener is unsubscribed on supported hardware; the remover and the next listener id are unchanged |
| ExternalStorageManager.ExternalStorage.GetExternalDevices | packages/umbreld/source/modules/files/external-storage.ts:244-250 | returns the USB devices of the current lsblk answer, or its failure |
| ExternalStorageManager.ExternalStorage.AttemptMountPartition | packages/umbreld/source/modules/files/external-storage.ts:172-193 | one attempt changes the host as `AttemptMount` |
| ExternalStorageManager.ExternalStorage.MountCandidates | packages/umbreld/source/modules/files/external-storage.ts:161-195 | the device loop attempts exactly `Candidates(devices)`, in order |
| ExternalStorageManager.ExternalStorage.MountDevicePartitions | packages/umbreld/source/modules/files/external-storage.ts:163-194 | the partition loop attempts exactly the unmounted non-EFI partitions, in order |
| ExternalStorageManager.ExternalStorage.MountExternalDevices | packages/umbreld/source/modules/files/external-storage.ts:138-197 | host and result are those of `MountPass` |
| ExternalStorageManager.ExternalStorage.CleanLeftOverMountPoints | packages/umbreld/source/modules/files/external-storage.ts:296-318 | host and result are those of `Clean`: unchanged with `ListingFailed` if the base cannot be listed |
| ExternalStorageManager.ExternalStorage.ScanChild | packages/umbreld/source/modules/files/external-storage.ts:303-315 | one more child is scanned: it stays listed exactly when it is not an empty inactive directory, otherwise one `RemoveDir` for it is issued, in listing order |
| ExternalStorageManager.ExternalStorage.UmountDevicePartitions | packages/umbreld/source/modules/files/external-storage.ts:212-224 | host and failure flag are those of `UmountPartitions` |
| ExternalStorageManager.ExternalStorage.UnmountExternalDevice | packages/umbreld/source/modules/files/external-storage.ts:200-241 | host and result are those of `UnmountDevice`; `remove` defaults to `true`, a hard eject |
| ExternalStorageManager.ExternalStorage.GetMountedExternalDevices | packages/umbreld/source/modules/files/external-storage.ts:256-279 | the in-place narrowing returns exactly `MountedExternalDevices` (see `MountedViewSound`/`Complete`) |
| ExternalStorageManager.ExternalStorage.RestrictMountpoints | packages/umbreld/source/modules/files/external-storage.ts:264-269 | every partition's mount points are narrowed to the base and translated, in place |
| ExternalStorageManager.ExternalStorage.UnmountAllMountedExternalDevices | packages/umbreld/source/modules/files/external-storage.ts:282-293 | host and result are those of `UnmountAllMounted`, so every mounted partition of every mounted USB device is unmounted (`UnmountAllUnmountsEvery`) |
| ExternalStorageManager.ExternalStorage.IsExternalDeviceConnectedOnUnsupportedDevice | packages/umbreld/source/modules/files/external-storage.ts:322-334 | the answer is `UnsupportedButConnected` (see `UnsupportedButConnectedIff`) |
| BackupsIsland.DeviceNameFromPath | packages/ui/src/features/backups/components/floating-island/index.tsx:8-13 | `deviceNameFromPath`; characterised by `DeviceNameShape`, `DeviceNameFallbacks`, `DeviceNameOfTopLevel`, `DeviceNameOfOther`, `DeviceNameOfMount` and `DeviceNameSkipsEmptySegments` |
| BackupsIsland.Segments | packages/ui/src/features/backups/components/floating-island/index.tsx:9 | `split('/').filter(Boolean)`: every segment is non-empty and holds no `/` |
| BackupsIsland.DeviceNameShape | packages/ui/src/features/backups/components/floating-island/index.tsx:8-13 | the name is one non-empty segment of the path, or one of the three fallbacks |
| BackupsIsland.DeviceNameFallbacks | packages/ui/src/features/backups/components/floating-island/index.tsx:8-13 | a path made only of `/` (or empty) shows the backup-location fallback; `/Network/` or `/External/` followed only by `/` shows the NAS or the external-drive fallback |
| BackupsIsland.DeviceNameOfTopLevel | packages/ui/src/features/backups/components/floating-island/index.tsx:8-13 | a top-level path `/<name>` shows `<name>`; so `/Network` and `/External` without a trailing `/` show `Network` and `External`, not a fallback |
| BackupsIsland.DeviceNameOfOther | packages/ui/src/features/backups/components/floating-island/index.tsx:8-13 | a path `/<name>/<rest>` whose first segment is neither `Network` nor `External` shows `<name>`, whatever follows |
| BackupsIsland.DeviceNameSkipsEmptySegments | packages/ui/src/features/backups/components/floating-island/index.tsx:8-13 | empty segments are skipped: `/Network//share`, and any number of extra slashes after `/Network/` or `/External/`, shows the next segment |
| BackupsIsland.DeviceNameOfMount | packages/ui/src/features/backups/components/floating-island/index.tsx:8-13 | a repository at `/External/<drive>` or `/Network/<share>`, or anywhere below it, is shown under `<drive>` / `<share>` |
| BackupsIsland.RepoMap | packages/ui/src/features/backups/components/floating-island/index.tsx:24 | `new Map(repos.map(r => [r.id, r]))`; characterised by `RepoMapDomain` and `RepoMapLastWins` |
| BackupsIsland.RepoMapDomain | packages/ui/src/features/backups/components/floating-island/index.tsx:24 | the map's keys are exactly the repositories' ids, and each maps to a repository with that id |
| BackupsIsland.RepoMapLastWins | packages/ui/src/features/backups/components/floating-island/index.tsx:24 | for a repeated id the last repository listed wins |
| BackupsIsland.WithNames | packages/ui/src/features/backups/components/floating-island/index.tsx:26-37 | `withNames`; characterised by `WithNamesIsFilterMap`, `WithNamesEntries` and `WithNamesDropsUnresolved` |
| BackupsIsland.WithNamesIsFilterMap | packages/ui/src/features/backups/components/floating-island/index.tsx:26-37 | `withNames` is the resolvable progresses, in order, each turned into its entry |
| BackupsIsland.WithNamesCount | packages/ui/src/features/backups/components/floating-island/index.tsx:39 | `count` is the number of resolvable progresses, at most the number of progresses, and equal to it when all resolve |
| BackupsIsland.WithNamesEntries | packages/ui/src/features/backups/components/floating-island/index.tsx:27-35 | each entry comes from a progress whose repository has that non-empty path; the percent defaults to 0; the name is non-empty when the fallback is |
| BackupsIsland.WithNamesDropsUnresolved | packages/ui/src/features/backups/components/floating-island/index.tsx:28-29 | a progress is dropped exactly when its repository is unknown or has no path; otherwise its entry is listed |
| BackupsIsland.TotalPercent | packages/ui/src/features/backups/components/floating-island/index.tsx:39-40 | `totalPercent` over the entries; bounded by `TotalPercentBounds` |
| BackupsIsland.TotalPercentBounds | packages/ui/src/features/backups/components/floating-island/index.tsx:40 | with no entry the total is 0; when every percent lies in [0, 100], so does the rounded mean |

## Left out

- Running commands is left out: `lsblk`, `mount`, `umount`, `mountpoint`, `df`, `fse` and the
  `/sys` write. Their results are inputs: lsblk's parsed answer, the outcome functions, the
  active mount set, the base listing and the `df` output. JSON parsing of lsblk's output is not
  modelled; a failed parse is the same as `ProbeFailed`.
- The host is not recomputed after a command. lsblk's answer does not change after `mount`,
  `umount` or the delete write. A failed `umount` releases nothing, and a successful one
  releases exactly the mount points lsblk listed for the partition.
- `fse.remove` of a left-over directory is modelled as always succeeding. Its failure is caught
  in the source and would only keep the child.
- `pWaitFor`'s 100 ms interval and 2 s timeout are modelled as the finite sequence `polls` of
  lsblk answers that complete within the timeout, possibly none (the pass then mounts nothing).
  Time itself is not modelled.
- The `PQueue` of concurrency one is left out. Every queued task runs as one atomic method call,
  so interleaving with other tasks is not modelled.
- The event bus is modelled only as the list of listener ids on `system:disk:change` and the
  emitted `StorageChanged` effect. The listener callback, which starts another automount pass,
  is not invoked by the model. Delivery to subscribers is not modelled.
- The collaborators are abstract fields of `Host.Collaborators`: `getBaseDirectory`,
  `getUniqueName`, `systemToVirtualPath` and `isRaspberryPi`. `chownSystemPath` is modelled only
  as an effect and its outcome. `Automount.MountAllTargetsFresh` assumes the unique-name
  collaborator returns a fresh child of the base when asked about a non-empty name under it; that
  collaborator's source is not part of this model.
- Automount.MountAllTargetsFresh: says nothing about a partition whose label sanitises to the
  empty name. Such an attempt hands the base directory itself to `getUniqueName`, and where that
  partition is then mounted depends on the collaborator, which is not part of this model.
- `nodePath.join` is modelled for a base joined with one segment that holds no `/` or `.`.
  Sanitised labels always have that form. Normalising the base path itself is not modelled.
- Logging is left out. Caught errors are visible only through the effects that did not happen.
- The backups island's React rendering, tRPC queries and i18n lookups are left out. The three
  translated fallbacks are parameters (`Fallbacks`).
- BackupsIsland.TotalPercentBounds: the mean uses exact real arithmetic, not IEEE-754 doubles.
  `Math.round` is `floor(x + 0.5)` on reals.
- `BlockDevice.transport` is a free string. The source's type annotation lists
  `unknown | usb | nvme`, but the code passes lsblk's `tran` column through unchecked (for
  example `sata`). Only the comparison with `usb` matters.
- Sizes are unbounded naturals; JavaScript numbers are not modelled.
- Partition ids and device ids are not assumed unique within a probe. `find` returns the first
  match, and the model follows it.
