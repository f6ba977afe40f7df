/** The backups floating island: the device name shown for a backup repository's path, and the
    join of running backup progresses with the repositories that gives the island its entries, its
    count and its overall percentage. */
module BackupsIsland {
  import opened Wrappers
  import opened Seqs
  import opened Strings

  /** The translated fallback names: `t('nas')`, `t('external-drive')` and
      `t('backups.backup-location')`. Translations are not part of this model, so any strings. */
  datatype Fallbacks = Fallbacks(nas: string, externalDrive: string, backupLocation: string)

  predicate NonEmpty(s: string) {
    s != ""
  }

  /** `path.split('/').filter(Boolean)`: the non-empty `/`-separated segments. */
  function Segments(path: string): (parts: seq<string>)
    ensures forall i :: 0 <= i < |parts| ==> parts[i] != "" && '/' !in parts[i]
  {
    var parts := Filter(NonEmpty, Split(path, '/'));
    forall i | 0 <= i < |parts|
      ensures parts[i] != "" && '/' !in parts[i]
    {
      assert parts[i] in parts;
      FilterMemberPasses(NonEmpty, Split(path, '/'), parts[i]);
    }
    parts
  }

  /** `deviceNameFromPath`: the share under `/Network/`, the drive under `/External/`, otherwise the
      first segment, each with its own fallback when the segment is missing. */
  function DeviceNameFromPath(fb: Fallbacks, path: string): string {
    var parts := Segments(path);
    if StartsWith(path, "/Network/") then (if |parts| > 1 then parts[1] else fb.nas)
    else if StartsWith(path, "/External/") then (if |parts| > 1 then parts[1] else fb.externalDrive)
    else if |parts| > 0 then parts[0] else fb.backupLocation
  }

  /** The name is a single non-empty path segment, or one of the three fallbacks. */
  lemma DeviceNameShape(fb: Fallbacks, path: string)
    ensures var name := DeviceNameFromPath(fb, path);
      (name != "" && '/' !in name && name in Segments(path))
      || name == fb.nas || name == fb.externalDrive || name == fb.backupLocation
  {
  }

  /** A path with no segment shows the backup-location fallback, and a `/Network/` or `/External/`
      path with no segment after the root shows the NAS or the external-drive fallback. */
  lemma DeviceNameFallbacks(fb: Fallbacks, slashes: string)
    requires forall i :: 0 <= i < |slashes| ==> slashes[i] == '/'
    ensures DeviceNameFromPath(fb, slashes) == fb.backupLocation
    ensures DeviceNameFromPath(fb, "/Network/" + slashes) == fb.nas
    ensures DeviceNameFromPath(fb, "/External/" + slashes) == fb.externalDrive
  {
    NoSegmentName(fb, slashes);
    NetworkRootName(fb, slashes);
    ExternalRootName(fb, slashes);
  }

  lemma NoSegmentName(fb: Fallbacks, slashes: string)
    requires forall i :: 0 <= i < |slashes| ==> slashes[i] == '/'
    ensures DeviceNameFromPath(fb, slashes) == fb.backupLocation
  {
    SegmentsOfSlashes(slashes);
    if |slashes| >= 9 {
      assert slashes[..9][1] == '/';
    }
  }

  lemma NetworkRootName(fb: Fallbacks, slashes: string)
    requires forall i :: 0 <= i < |slashes| ==> slashes[i] == '/'
    ensures DeviceNameFromPath(fb, "/Network/" + slashes) == fb.nas
  {
    var path := "/Network/" + slashes;
    assert path == "/" + "Network" + "/" + slashes && path[..9] == "/Network/";
    RootSegments("Network", slashes);
  }

  lemma ExternalRootName(fb: Fallbacks, slashes: string)
    requires forall i :: 0 <= i < |slashes| ==> slashes[i] == '/'
    ensures DeviceNameFromPath(fb, "/External/" + slashes) == fb.externalDrive
  {
    var path := "/External/" + slashes;
    assert path == "/" + "External" + "/" + slashes && path[..10] == "/External/";
    assert path[..9][1] == 'E';
    RootSegments("External", slashes);
  }

  /** A top-level path `/<name>` shows `<name>`; in particular `/Network` and `/External` without a
      trailing `/` are not treated as roots. */
  lemma DeviceNameOfTopLevel(fb: Fallbacks, name: string)
    requires name != "" && '/' !in name
    ensures DeviceNameFromPath(fb, "/" + name) == name
  {
    var path := "/" + name;
    assert path == "" + ['/'] + name;
    SegmentsConcat("", name);
    SegmentsOfName("");
    SegmentsOfName(name);
    if |path| >= 9 {
      assert path[..9][8] == name[7];
    }
    if |path| >= 10 {
      assert path[..10][9] == name[8];
    }
  }

  /** A string made only of `/` has no segment. */
  lemma {:induction false} SegmentsOfSlashes(slashes: string)
    requires forall i :: 0 <= i < |slashes| ==> slashes[i] == '/'
    ensures Segments(slashes) == []
  {
    if slashes == [] {
      SegmentsOfName("");
    } else {
      var n := |slashes| - 1;
      SegmentsOfSlashes(slashes[..n]);
      assert slashes == slashes[..n] + ['/'] + "";
      SegmentsConcat(slashes[..n], "");
      SegmentsOfName("");
    }
  }

  /** `/<root>/` followed by slashes has the root as its only segment. */
  lemma RootSegments(root: string, slashes: string)
    requires root != "" && '/' !in root
    requires forall i :: 0 <= i < |slashes| ==> slashes[i] == '/'
    ensures Segments("/" + root + "/" + slashes) == [root]
  {
    var top := "/" + root;
    assert top == "" + ['/'] + root;
    SegmentsConcat("", root);
    SegmentsOfName("");
    SegmentsOfName(root);
    assert "/" + root + "/" + slashes == top + ['/'] + slashes;
    SegmentsConcat(top, slashes);
    SegmentsOfSlashes(slashes);
  }

  /** The segments of a path joined at a `/` are those of each side. */
  lemma SegmentsConcat(a: string, b: string)
    ensures Segments(a + ['/'] + b) == Segments(a) + Segments(b)
  {
    SplitConcat(a, b, '/');
    FilterAppend(NonEmpty, Split(a, '/'), Split(b, '/'));
  }

  /** A name without `/` is one segment, or none when it is empty. */
  lemma SegmentsOfName(name: string)
    requires '/' !in name
    ensures Segments(name) == if name == "" then [] else [name]
  {
    SplitNoSeparator(name, '/');
    FilterSingleton(NonEmpty, name);
  }

  /** The segments of `/<root>/<drive>` are the root and the drive. */
  lemma MountSegments(root: string, drive: string)
    requires root != "" && '/' !in root && drive != "" && '/' !in drive
    ensures Segments("/" + root + "/" + drive) == [root, drive]
  {
    var top := "/" + root;
    assert Segments(top) == [root] by {
      assert top == "" + ['/'] + root;
      SegmentsConcat("", root);
      SegmentsOfName("");
      SegmentsOfName(root);
    }
    assert "/" + root + "/" + drive == top + ['/'] + drive;
    SegmentsConcat(top, drive);
    SegmentsOfName(drive);
  }

  /** Anything below a path keeps that path's segments in front. */
  lemma SegmentsBelow(path: string, rest: string)
    ensures |Segments(path)| <= |Segments(path + "/" + rest)|
    ensures Segments(path + "/" + rest)[..|Segments(path)|] == Segments(path)
  {
    assert path + "/" + rest == path + ['/'] + rest;
    SegmentsConcat(path, rest);
  }

  /** `/<root>/<drive>` and anything below it start with `/<root>/`, and not with the other root. */
  lemma MountPrefix(root: string, drive: string, rest: string)
    requires root == "Network" || root == "External"
    ensures var mount := "/" + root + "/" + drive;
      && StartsWith(mount, "/" + root + "/") && StartsWith(mount + "/" + rest, "/" + root + "/")
      && (root == "External" ==> !StartsWith(mount, "/Network/") && !StartsWith(mount + "/" + rest, "/Network/"))
  {
    var mount := "/" + root + "/" + drive;
    var deeper := mount + "/" + rest;
    assert mount[..|root| + 2] == "/" + root + "/";
    assert deeper[..|root| + 2] == mount[..|root| + 2];
    if root == "External" {
      assert mount[1] == 'E' && deeper[1] == 'E';
    }
  }

  /** A repository on a drive mounted at `/External/<drive>` is shown under the drive's directory
      name, whatever lies below it; likewise a share at `/Network/<host>` under the host's name. */
  lemma DeviceNameOfMount(fb: Fallbacks, root: string, drive: string, rest: string)
    requires root == "Network" || root == "External"
    requires drive != "" && '/' !in drive
    ensures DeviceNameFromPath(fb, "/" + root + "/" + drive) == drive
    ensures DeviceNameFromPath(fb, "/" + root + "/" + drive + "/" + rest) == drive
  {
    var mount := "/" + root + "/" + drive;
    var deeper := mount + "/" + rest;
    MountSegments(root, drive);
    SegmentsBelow(mount, rest);
    MountPrefix(root, drive, rest);
    DeviceNameUnderRoot(fb, root, mount);
    assert Segments(deeper)[1] == Segments(deeper)[..2][1];
    DeviceNameUnderRoot(fb, root, deeper);
  }

  lemma DeviceNameUnderRoot(fb: Fallbacks, root: string, path: string)
    requires root == "Network" || root == "External"
    requires StartsWith(path, "/" + root + "/")
    requires root == "External" ==> !StartsWith(path, "/Network/")
    requires |Segments(path)| > 1
    ensures DeviceNameFromPath(fb, path) == Segments(path)[1]
  {
  }

  /** Any other first segment is shown as it is, whatever lies below it: `/Backups/2024` shows
      `Backups`, and so does `/Backups/` and `/Networking/x`. */
  lemma DeviceNameOfOther(fb: Fallbacks, name: string, rest: string)
    requires name != "" && '/' !in name && name != "Network" && name != "External"
    ensures DeviceNameFromPath(fb, "/" + name + "/" + rest) == name
  {
    var top := "/" + name;
    var path := top + "/" + rest;
    assert |Segments(path)| > 0 && Segments(path)[0] == name by {
      assert Segments(top) == [name] by {
        assert top == "" + ['/'] + name;
        SegmentsConcat("", name);
        SegmentsOfName("");
        SegmentsOfName(name);
      }
      SegmentsBelow(top, rest);
      assert Segments(path)[0] == Segments(path)[..1][0];
    }
    assert !StartsWith(path, "/Network/") by {
      NotUnderRoot(name, rest, "Network");
    }
    assert !StartsWith(path, "/External/") by {
      NotUnderRoot(name, rest, "External");
    }
    DeviceNameOutsideRoots(fb, path);
  }

  lemma DeviceNameOutsideRoots(fb: Fallbacks, path: string)
    requires !StartsWith(path, "/Network/") && !StartsWith(path, "/External/")
    requires |Segments(path)| > 0
    ensures DeviceNameFromPath(fb, path) == Segments(path)[0]
  {
  }

  /** `/<name>/…` does not start with `/<root>/` for a different slash-free name. */
  lemma NotUnderRoot(name: string, rest: string, root: string)
    requires name != "" && '/' !in name && root != "" && '/' !in root && name != root
    ensures !StartsWith("/" + name + "/" + rest, "/" + root + "/")
  {
    var path := "/" + name + "/" + rest;
    var prefix := "/" + root + "/";
    if |name| < |root| {
      assert path[|name| + 1] == '/' && prefix[|name| + 1] == root[|name|];
      assert root[|name|] in root;
    } else if |name| > |root| {
      assert path[|root| + 1] == name[|root|] && prefix[|root| + 1] == '/';
      assert name[|root|] in name;
    } else {
      assert path[..|prefix|][1..|root| + 1] == name;
      assert prefix[1..|root| + 1] == root;
    }
  }

  /** Empty segments are skipped: `/Network//share` shows `share`, and likewise for any number of
      extra slashes after `/Network/` or `/External/`. */
  lemma DeviceNameSkipsEmptySegments(fb: Fallbacks, root: string, slashes: string, drive: string)
    requires root == "Network" || root == "External"
    requires forall i :: 0 <= i < |slashes| ==> slashes[i] == '/'
    requires drive != "" && '/' !in drive
    ensures DeviceNameFromPath(fb, "/" + root + "/" + slashes + drive) == drive
  {
    var path := "/" + root + "/" + slashes + drive;
    if slashes == [] {
      assert path == "/" + root + "/" + drive;
      DeviceNameOfMount(fb, root, drive, "");
    } else {
      var n := |slashes| - 1;
      var front := "/" + root + "/" + slashes[..n];
      assert slashes == slashes[..n] + ['/'];
      assert path == front + ['/'] + drive;
      RootSegments(root, slashes[..n]);
      SegmentsConcat(front, drive);
      SegmentsOfName(drive);
      assert path == "/" + root + "/" + (slashes + drive);
      MountPrefix(root, slashes + drive, "");
      DeviceNameUnderRoot(fb, root, path);
    }
  }

  /** One backup in progress as the backend reports it; `percent` may be missing. */
  datatype Progress = Progress(repositoryId: string, percent: Option<real>)

  /** A configured repository; its path may be missing. */
  datatype Repository = Repository(id: string, path: Option<string>)

  /** One island entry. */
  datatype NamedProgress = NamedProgress(name: string, percent: real, path: string)

  /** `new Map(repos.map((r) => [r.id, r]))`: a later repository with the same id replaces an
      earlier one. */
  function RepoMap(repos: seq<Repository>): map<string, Repository> {
    if repos == [] then map[]
    else RepoMap(repos[..|repos| - 1])[repos[|repos| - 1].id := repos[|repos| - 1]]
  }

  /** The map's keys are exactly the repositories' ids, and each key maps to a listed repository
      carrying that id. */
  lemma {:induction false} RepoMapDomain(repos: seq<Repository>)
    ensures forall id :: id in RepoMap(repos) <==> exists i :: 0 <= i < |repos| && repos[i].id == id
    ensures forall id :: id in RepoMap(repos) ==> RepoMap(repos)[id].id == id && RepoMap(repos)[id] in repos
  {
    if repos != [] {
      var n := |repos| - 1;
      var prefix := repos[..n];
      RepoMapDomain(prefix);
      RepoMapSnoc(repos);
      assert forall i :: 0 <= i < n ==> prefix[i] == repos[i];
      assert forall r :: r in prefix ==> r in repos;
    }
  }

  /** The map holds, for each id, the last repository listed with it. */
  lemma {:induction false} RepoMapLastWins(repos: seq<Repository>, i: nat)
    requires i < |repos|
    requires forall j :: i < j < |repos| ==> repos[j].id != repos[i].id
    ensures repos[i].id in RepoMap(repos) && RepoMap(repos)[repos[i].id] == repos[i]
  {
    var n := |repos| - 1;
    var prefix := repos[..n];
    RepoMapSnoc(repos);
    if i < n {
      assert prefix[i] == repos[i];
      assert forall j :: i < j < |prefix| ==> prefix[j].id != prefix[i].id by {
        forall j | i < j < |prefix| ensures prefix[j].id != prefix[i].id {
          assert prefix[j] == repos[j];
        }
      }
      RepoMapLastWins(prefix, i);
      assert repos[n].id != repos[i].id;
    }
  }

  lemma RepoMapSnoc(repos: seq<Repository>)
    requires repos != []
    ensures RepoMap(repos) == RepoMap(repos[..|repos| - 1])[repos[|repos| - 1].id := repos[|repos| - 1]]
  {
  }

  /** The repository path a progress resolves to, if it names a repository with a non-empty path
      (`if (!repoPath) return null`). */
  function RepoPath(repoMap: map<string, Repository>, p: Progress): Option<string> {
    if p.repositoryId in repoMap && repoMap[p.repositoryId].path.Some? && repoMap[p.repositoryId].path.value != ""
    then Some(repoMap[p.repositoryId].path.value)
    else None
  }

  /** The mapping callback: the entry for a progress, or `null`. */
  function Describe(fb: Fallbacks, repoMap: map<string, Repository>, p: Progress): Option<NamedProgress> {
    match RepoPath(repoMap, p)
    case None => None
    case Some(path) =>
      var name := DeviceNameFromPath(fb, path);
      Some(NamedProgress(
        name := if name == "" then fb.backupLocation else name,
        percent := p.percent.GetOr(0.0),
        path := path))
  }

  function DescribeWith(fb: Fallbacks, repoMap: map<string, Repository>): Progress -> Option<NamedProgress> {
    (p: Progress) => Describe(fb, repoMap, p)
  }

  /** `.filter((item) => item !== null)` over the mapped entries. */
  function Present<T>(s: seq<Option<T>>): seq<T> {
    if s == [] then []
    else Present(s[..|s| - 1]) + (match s[|s| - 1] case Some(x) => [x] case None => [])
  }

  /** `withNames`: map every progress to its entry or `null`, then drop the `null`s. */
  function WithNames(fb: Fallbacks, repos: seq<Repository>, progresses: seq<Progress>): seq<NamedProgress> {
    Present(Map(DescribeWith(fb, RepoMap(repos)), progresses))
  }

  function Resolvable(repoMap: map<string, Repository>): Progress -> bool {
    (p: Progress) => RepoPath(repoMap, p).Some?
  }

  function Entry(fb: Fallbacks, repoMap: map<string, Repository>): Progress -> NamedProgress {
    (p: Progress) => if RepoPath(repoMap, p).Some? then Describe(fb, repoMap, p).value else NamedProgress("", 0.0, "")
  }

  /** The entries are exactly the resolvable progresses, in their order, each turned into its entry:
      map-then-drop-nulls is filter-then-map. */
  lemma {:induction false} WithNamesIsFilterMap(fb: Fallbacks, repos: seq<Repository>, progresses: seq<Progress>)
    ensures WithNames(fb, repos, progresses)
      == Map(Entry(fb, RepoMap(repos)), Filter(Resolvable(RepoMap(repos)), progresses))
  {
    var repoMap := RepoMap(repos);
    forall p ensures DescribeWith(fb, repoMap)(p) ==
      if Resolvable(repoMap)(p) then Some(Entry(fb, repoMap)(p)) else None
    {
    }
    PresentOfMap(DescribeWith(fb, repoMap), Resolvable(repoMap), Entry(fb, repoMap), progresses);
  }

  /** Mapping to optional values and dropping the missing ones is filtering by "present" and then
      mapping to the value. */
  lemma {:induction false} PresentOfMap<T, U>(f: T -> Option<U>, test: T -> bool, g: T -> U, s: seq<T>)
    requires forall x :: f(x) == if test(x) then Some(g(x)) else None
    ensures Present(Map(f, s)) == Map(g, Filter(test, s))
  {
    if s != [] {
      var n := |s| - 1;
      var mapped := Map(f, s);
      assert mapped[..n] == Map(f, s[..n]);
      assert s == s[..n] + [s[n]];
      calc {
        Present(mapped);
        Present(Map(f, s[..n])) + (match f(s[n]) case Some(x) => [x] case None => []);
        { PresentOfMap(f, test, g, s[..n]); FilterSingleton(test, s[n]); }
        Map(g, Filter(test, s[..n])) + Map(g, Filter(test, [s[n]]));
        { MapAppend(g, Filter(test, s[..n]), Filter(test, [s[n]])); }
        Map(g, Filter(test, s[..n]) + Filter(test, [s[n]]));
        { FilterAppend(test, s[..n], [s[n]]); }
        Map(g, Filter(test, s));
      }
    }
  }

  /** `count`: the number of progresses that resolve to a repository path; it never exceeds the
      number of progresses and equals it when all of them resolve. */
  lemma WithNamesCount(fb: Fallbacks, repos: seq<Repository>, progresses: seq<Progress>)
    ensures |WithNames(fb, repos, progresses)| == |Filter(Resolvable(RepoMap(repos)), progresses)|
    ensures |WithNames(fb, repos, progresses)| <= |progresses|
    ensures (forall i :: 0 <= i < |progresses| ==> RepoPath(RepoMap(repos), progresses[i]).Some?) ==>
      |WithNames(fb, repos, progresses)| == |progresses|
  {
    WithNamesIsFilterMap(fb, repos, progresses);
    if forall i :: 0 <= i < |progresses| ==> RepoPath(RepoMap(repos), progresses[i]).Some? {
      FilterAllPass(Resolvable(RepoMap(repos)), progresses);
    }
  }

  /** Each entry comes from a progress whose repository exists with a non-empty path: the entry
      carries that path, the progress's percent or 0 when it is missing, and a non-empty name when
      the fallback is non-empty. */
  lemma WithNamesEntries(fb: Fallbacks, repos: seq<Repository>, progresses: seq<Progress>, k: nat)
    requires k < |WithNames(fb, repos, progresses)|
    ensures var e := WithNames(fb, repos, progresses)[k];
      exists p ::
        (p in progresses && p.repositoryId in RepoMap(repos)
         && RepoMap(repos)[p.repositoryId].path == Some(e.path) && e.path != ""
         && e.percent == p.percent.GetOr(0.0)
         && (fb.backupLocation != "" ==> e.name != ""))
  {
    var repoMap := RepoMap(repos);
    WithNamesIsFilterMap(fb, repos, progresses);
    var kept := Filter(Resolvable(repoMap), progresses);
    var p := kept[k];
    assert p in kept;
    FilterMemberPasses(Resolvable(repoMap), progresses, p);
  }

  /** A progress is left out exactly when its repository is unknown or has no path. */
  lemma WithNamesDropsUnresolved(fb: Fallbacks, repos: seq<Repository>, progresses: seq<Progress>, p: Progress)
    requires p in progresses
    ensures RepoPath(RepoMap(repos), p).Some? ==> Describe(fb, RepoMap(repos), p).value in WithNames(fb, repos, progresses)
    ensures RepoPath(RepoMap(repos), p).None? <==>
      !(p.repositoryId in RepoMap(repos)) || RepoMap(repos)[p.repositoryId].path in {None, Some("")}
  {
    var repoMap := RepoMap(repos);
    if RepoPath(repoMap, p).Some? {
      WithNamesIsFilterMap(fb, repos, progresses);
      FilterKeeps(Resolvable(repoMap), progresses, p);
      var kept := Filter(Resolvable(repoMap), progresses);
      var i :| 0 <= i < |kept| && kept[i] == p;
      assert Map(Entry(fb, repoMap), kept)[i] == Describe(fb, repoMap, p).value;
    }
  }

  function Sum(entries: seq<NamedProgress>): real {
    if entries == [] then 0.0 else Sum(entries[..|entries| - 1]) + entries[|entries| - 1].percent
  }

  /** `Math.round(x)`: the nearest integer, halves rounded towards positive infinity. */
  function Round(x: real): int {
    (x + 0.5).Floor
  }

  /** `totalPercent`: the rounded mean percent, or 0 when there is no entry. */
  function TotalPercent(entries: seq<NamedProgress>): real {
    if |entries| > 0 then Round(Sum(entries) / (|entries| as real)) as real else 0.0
  }

  predicate PercentsInRange(entries: seq<NamedProgress>) {
    forall i :: 0 <= i < |entries| ==> 0.0 <= entries[i].percent <= 100.0
  }

  lemma {:induction false} SumBounds(entries: seq<NamedProgress>)
    requires PercentsInRange(entries)
    ensures 0.0 <= Sum(entries) <= 100.0 * (|entries| as real)
  {
    if entries != [] {
      var n := |entries| - 1;
      assert PercentsInRange(entries[..n]) by {
        forall i | 0 <= i < n ensures 0.0 <= entries[..n][i].percent <= 100.0 {
          assert entries[..n][i] == entries[i];
        }
      }
      SumBounds(entries[..n]);
    }
  }

  /** With no entry the island shows 0; when every percent is between 0 and 100, so is the total. */
  lemma TotalPercentBounds(entries: seq<NamedProgress>)
    ensures entries == [] ==> TotalPercent(entries) == 0.0
    ensures PercentsInRange(entries) ==> 0.0 <= TotalPercent(entries) <= 100.0
  {
    if entries != [] && PercentsInRange(entries) {
      SumBounds(entries);
      var c := |entries| as real;
      var mean := Sum(entries) / c;
      assert 0.0 <= mean <= 100.0;
    }
  }
}
