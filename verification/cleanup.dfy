/** `#cleanLeftOverMountPoints`: remove the children of the `/External` base directory that are
    empty directories and not active mount points. */
module Cleanup {
  import opened Wrappers
  import opened Seqs
  import opened Host

  /** A child is safe to remove when `readdir` finds it empty and `mountpoint` says it is not
      mounted; a child `readdir` cannot list is an error that is logged and skipped. */
  predicate Removable(base: string, mounted: set<string>, e: Entry) {
    e.kind == EmptyDir && Join(base, e.name) !in mounted
  }

  function RemovableTest(base: string, mounted: set<string>): Entry -> bool {
    (e: Entry) => Removable(base, mounted, e)
  }

  function KeptTest(base: string, mounted: set<string>): Entry -> bool {
    (e: Entry) => !Removable(base, mounted, e)
  }

  function RemovalOf(base: string): Entry -> Effect {
    (e: Entry) => RemoveDir(Join(base, e.name))
  }

  /** The host after the scan: the listing keeps the children that are not removable, in order, and
      the trace gains one removal per removable child, in listing order. Reading the base directory
      itself failing rejects the scan before anything is removed. */
  function Clean(files: Collaborators, h: HostState): Result<HostState, StorageError> {
    var base := files.externalBase;
    if !h.baseListable then Err(ListingFailed)
    else Ok(h.(entries := Filter(KeptTest(base, h.mounted), h.entries),
               trace := h.trace + Map(RemovalOf(base), Filter(RemovableTest(base, h.mounted), h.entries))))
  }

  /** A child survives the scan exactly when it is not both an empty directory and inactive; a
      `RemoveDir` is issued exactly for each such child, and nothing else about the host changes. */
  lemma CleanRemovesExactly(files: Collaborators, h: HostState, e: Entry)
    requires h.baseListable
    ensures Clean(files, h).Ok?
    ensures var h' := Clean(files, h).value;
      && (e in h'.entries <==> e in h.entries && !(e.kind == EmptyDir && Join(files.externalBase, e.name) !in h.mounted))
      && (e in h.entries && Removable(files.externalBase, h.mounted, e) ==>
            RemoveDir(Join(files.externalBase, e.name)) in h'.trace[|h.trace|..])
      && h'.mounted == h.mounted && h'.lsblk == h.lsblk && h'.baseListable
      && |h.trace| <= |h'.trace| && h'.trace[..|h.trace|] == h.trace
  {
    var base := files.externalBase;
    var h' := Clean(files, h).value;
    if e in h'.entries {
      FilterMemberPasses(KeptTest(base, h.mounted), h.entries, e);
    }
    if e in h.entries && !Removable(base, h.mounted, e) {
      FilterKeeps(KeptTest(base, h.mounted), h.entries, e);
    }
    if e in h.entries && Removable(base, h.mounted, e) {
      var removed := Filter(RemovableTest(base, h.mounted), h.entries);
      FilterKeeps(RemovableTest(base, h.mounted), h.entries, e);
      var i :| 0 <= i < |removed| && removed[i] == e;
      assert h'.trace[|h.trace|..] == Map(RemovalOf(base), removed);
      assert Map(RemovalOf(base), removed)[i] == RemoveDir(Join(base, e.name));
    }
  }

  /** Every `RemoveDir` the scan issues is for a child that was an empty, inactive directory. */
  lemma CleanRemovesOnlySafe(files: Collaborators, h: HostState, path: string)
    requires h.baseListable
    requires RemoveDir(path) in Clean(files, h).value.trace[|h.trace|..]
    ensures exists e ::
      e in h.entries && e.kind == EmptyDir && path == Join(files.externalBase, e.name) && path !in h.mounted
  {
    var base := files.externalBase;
    var removed := Filter(RemovableTest(base, h.mounted), h.entries);
    var delta := Map(RemovalOf(base), removed);
    assert Clean(files, h).value.trace[|h.trace|..] == delta;
    var i :| 0 <= i < |delta| && delta[i] == RemoveDir(path);
    assert removed[i] in removed;
    FilterMemberPasses(RemovableTest(base, h.mounted), h.entries, removed[i]);
  }

  /** The scan only appends to the trace, and only `RemoveDir` effects. */
  lemma CleanOnlyRemoves(files: Collaborators, h: HostState)
    requires h.baseListable
    ensures var h' := Clean(files, h).value;
      |h.trace| <= |h'.trace| && h'.trace[..|h.trace|] == h.trace
      && forall e :: e in h'.trace[|h.trace|..] ==> e.RemoveDir?
  {
    var base := files.externalBase;
    var delta := Map(RemovalOf(base), Filter(RemovableTest(base, h.mounted), h.entries));
    assert Clean(files, h).value.trace == h.trace + delta;
    assert Clean(files, h).value.trace[|h.trace|..] == delta;
  }
}
