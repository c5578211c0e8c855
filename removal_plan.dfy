/**
 * The removal plan as functions of the package cache: which kernel images are installed, which
 * one is the latest, which images may go, and which header packages are kept or removed. The
 * scanning methods of `Uninstaller` are proved to compute exactly these.
 */
module RemovalPlan {
  import opened Text
  import opened Seqs
  import opened VersionOrder
  import opened KernelNames

  /** What the planner reads of one cache entry: its name, whether it is installed, and the installed size of its first version. */
  datatype Package = Package(name: string, installed: bool, installedSize: int)

  /** Header packages smaller than this are dependency-tracking meta-packages. */
  const HeaderSizeThreshold: int := 1000000

  /** The cache's keys in iteration order. */
  function Names(cache: seq<Package>): seq<string> {
    seq(|cache|, i requires 0 <= i < |cache| => cache[i].name)
  }

  /** The cache is keyed by package name, so no name occurs twice. */
  predicate DistinctNames(cache: seq<Package>) {
    forall i, j :: 0 <= i < j < |cache| ==> cache[i].name != cache[j].name
  }

  lemma NamesSnoc(cache: seq<Package>, p: Package)
    ensures Names(cache + [p]) == Names(cache) + [p.name]
  {
  }

  /** A name is selected from the cache exactly when some entry with that name passes `keep`. */
  lemma SelectedNameIff(cache: seq<Package>, keep: Package -> bool, x: string)
    ensures x in Names(Filter(cache, keep)) <==> exists i :: 0 <= i < |cache| && cache[i].name == x && keep(cache[i])
  {
    var sel := Filter(cache, keep);
    if x in Names(sel) {
      var k :| 0 <= k < |sel| && Names(sel)[k] == x;
      FilterMembership(cache, keep, sel[k]);
      var i :| 0 <= i < |cache| && cache[i] == sel[k];
    }
    if exists i :: 0 <= i < |cache| && cache[i].name == x && keep(cache[i]) {
      var i :| 0 <= i < |cache| && cache[i].name == x && keep(cache[i]);
      FilterMembership(cache, keep, cache[i]);
      var k :| 0 <= k < |sel| && sel[k] == cache[i];
      assert Names(sel)[k] == x;
    }
  }

  /** Taking names keeps a subsequence a subsequence. */
  lemma {:induction false} NamesOfSubsequence(r: seq<Package>, s: seq<Package>)
    requires IsSubsequence(r, s)
    ensures IsSubsequence(Names(r), Names(s))
    decreases |s|
  {
    if r != [] {
      var init := s[..|s| - 1];
      assert Names(init) == Names(s)[..|s| - 1];
      assert Names(r[..|r| - 1]) == Names(r)[..|r| - 1];
      if r[|r| - 1] == s[|s| - 1] && IsSubsequence(r[..|r| - 1], init) {
        NamesOfSubsequence(r[..|r| - 1], init);
      } else {
        NamesOfSubsequence(r, init);
      }
    }
  }

  /** The names selected from a cache are in cache order and, the keys being distinct, never repeat. */
  lemma SelectedNamesInCacheOrder(cache: seq<Package>, keep: Package -> bool)
    ensures IsSubsequence(Names(Filter(cache, keep)), Names(cache))
    ensures DistinctNames(cache) ==> NoDuplicates(Names(Filter(cache, keep)))
  {
    FilterIsSubsequence(cache, keep);
    NamesOfSubsequence(Filter(cache, keep), cache);
    if DistinctNames(cache) {
      SubsequenceNoDuplicates(Names(Filter(cache, keep)), Names(cache));
    }
  }

  // ---------------------------------------------------------------------------------------------
  // Kernel images

  /** An entry the kernel scan considers, installed or not. */
  predicate IsKernelEntry(p: Package) {
    IsKernelCandidate(p.name)
  }

  /** An entry the kernel scan records as an installed kernel. */
  predicate IsInstalledKernel(p: Package) {
    p.installed && IsKernelCandidate(p.name)
  }

  /** `installed_kernels`. */
  function InstalledKernels(cache: seq<Package>): seq<string> {
    Names(Filter(cache, IsInstalledKernel))
  }

  /** `latest_kernel`: the running maximum over every considered name, installed or not, from `""`. */
  function LatestKernel(cache: seq<Package>, cmp: (string, string) -> int): string {
    MaxName(Names(Filter(cache, IsKernelEntry)), cmp)
  }

  /** An installed kernel that may be removed: older than the latest, and not matching the running release. */
  predicate IsRemovableKernel(x: string, latest: string, running: string, cmp: (string, string) -> int) {
    cmp(x, latest) < 0 && !Contains(x, running)
  }

  /** `remove_kernel_list`, the comprehension over `installed_kernels`. */
  function RemoveKernels(installed: seq<string>, latest: string, running: string, cmp: (string, string) -> int): seq<string> {
    Filter(installed, x => IsRemovableKernel(x, latest, running, cmp))
  }

  /** Scanning one more entry appends its name to `installed_kernels` exactly when it is an installed kernel. */
  lemma InstalledKernelsSnoc(cache: seq<Package>, p: Package)
    ensures InstalledKernels(cache + [p]) == InstalledKernels(cache) + (if IsInstalledKernel(p) then [p.name] else [])
  {
    FilterSnoc(cache, p, IsInstalledKernel);
    NamesSnoc(Filter(cache, IsInstalledKernel), p);
  }

  /** Scanning one more entry moves the latest name to it exactly when it is considered and compares strictly greater. */
  lemma LatestKernelSnoc(cache: seq<Package>, p: Package, cmp: (string, string) -> int)
    ensures LatestKernel(cache + [p], cmp) ==
              if IsKernelEntry(p) && cmp(p.name, LatestKernel(cache, cmp)) > 0 then p.name else LatestKernel(cache, cmp)
  {
    FilterSnoc(cache, p, IsKernelEntry);
    if IsKernelEntry(p) {
      NamesSnoc(Filter(cache, IsKernelEntry), p);
      MaxNameSnoc(Names(Filter(cache, IsKernelEntry)), p.name, cmp);
    } else {
      assert Filter(cache + [p], IsKernelEntry) == Filter(cache, IsKernelEntry);
    }
  }

  /** An entry the scan skips leaves the kernel lists and the latest name as they were. */
  lemma KernelScanSkips(cache: seq<Package>, p: Package, cmp: (string, string) -> int)
    requires !IsKernelCandidate(p.name)
    ensures InstalledKernels(cache + [p]) == InstalledKernels(cache)
    ensures LatestKernel(cache + [p], cmp) == LatestKernel(cache, cmp)
  {
    InstalledKernelsSnoc(cache, p);
    LatestKernelSnoc(cache, p, cmp);
  }

  /** A considered entry is appended when installed and becomes the latest name when it compares strictly greater. */
  lemma KernelScanConsiders(cache: seq<Package>, p: Package, cmp: (string, string) -> int)
    requires IsKernelCandidate(p.name)
    ensures InstalledKernels(cache + [p]) == InstalledKernels(cache) + (if p.installed then [p.name] else [])
    ensures LatestKernel(cache + [p], cmp) == if cmp(p.name, LatestKernel(cache, cmp)) > 0 then p.name else LatestKernel(cache, cmp)
  {
    InstalledKernelsSnoc(cache, p);
    LatestKernelSnoc(cache, p, cmp);
  }

  /** `installed_kernels` holds exactly the installed entries the scan considers, in cache order, once each. */
  lemma InstalledKernelsExactly(cache: seq<Package>, x: string)
    ensures x in InstalledKernels(cache) <==>
              exists i :: 0 <= i < |cache| && cache[i].name == x && cache[i].installed
                && Contains(x, "linux-image") && x != "linux-image" && !IsArchMetaName(x) && !Contains(x, "lustre")
    ensures IsSubsequence(InstalledKernels(cache), Names(cache))
    ensures DistinctNames(cache) ==> NoDuplicates(InstalledKernels(cache))
  {
    SelectedNameIff(cache, IsInstalledKernel, x);
    SelectedNamesInCacheOrder(cache, IsInstalledKernel);
  }

  /**
   * `latest_kernel` is `""` or a considered name of the cache (installed or not), and compares
   * greater than or equal to every considered name.
   */
  lemma LatestKernelIsMaximum(cache: seq<Package>, cmp: (string, string) -> int)
    requires IsComparator(cmp)
    ensures var latest := LatestKernel(cache, cmp);
      && (latest == "" || exists i :: 0 <= i < |cache| && cache[i].name == latest && IsKernelCandidate(latest))
      && forall i :: 0 <= i < |cache| && IsKernelCandidate(cache[i].name) ==> cmp(cache[i].name, latest) <= 0
  {
    var names := Names(Filter(cache, IsKernelEntry));
    var latest := LatestKernel(cache, cmp);
    MaxNameIsStartOrMember(names, cmp);
    SelectedNameIff(cache, IsKernelEntry, latest);
    forall i | 0 <= i < |cache| && IsKernelCandidate(cache[i].name)
      ensures cmp(cache[i].name, latest) <= 0
    {
      SelectedNameIff(cache, IsKernelEntry, cache[i].name);
      MaxNameIsUpperBound(names, cmp, cache[i].name);
    }
  }

  /**
   * If the comparator puts every considered name above the empty string (as Debian version order
   * does for non-empty strings), `latest_kernel` is `""` exactly when the scan considered no name.
   */
  lemma LatestKernelEmptyIff(cache: seq<Package>, cmp: (string, string) -> int)
    requires IsComparator(cmp)
    requires forall i :: 0 <= i < |cache| && IsKernelCandidate(cache[i].name) ==> cmp(cache[i].name, "") > 0
    ensures LatestKernel(cache, cmp) == "" <==> forall i :: 0 <= i < |cache| ==> !IsKernelCandidate(cache[i].name)
  {
    var names := Names(Filter(cache, IsKernelEntry));
    forall x | x in names
      ensures cmp(x, "") > 0
    {
      SelectedNameIff(cache, IsKernelEntry, x);
    }
    MaxNameEmptyIff(names, cmp);
    if names != [] {
      SelectedNameIff(cache, IsKernelEntry, names[0]);
    }
    if exists i :: 0 <= i < |cache| && IsKernelCandidate(cache[i].name) {
      var i :| 0 <= i < |cache| && IsKernelCandidate(cache[i].name);
      SelectedNameIff(cache, IsKernelEntry, cache[i].name);
    }
  }

  /**
   * `remove_kernel_list` is the order-preserving subsequence of the installed kernels that compare
   * below the latest and do not contain the running release.
   */
  lemma RemoveKernelsExactly(installed: seq<string>, latest: string, running: string, cmp: (string, string) -> int, x: string)
    ensures x in RemoveKernels(installed, latest, running, cmp) <==>
              x in installed && cmp(x, latest) < 0 && !Contains(x, running)
    ensures IsSubsequence(RemoveKernels(installed, latest, running, cmp), installed)
  {
    FilterMembership(installed, x => IsRemovableKernel(x, latest, running, cmp), x);
    FilterIsSubsequence(installed, x => IsRemovableKernel(x, latest, running, cmp));
  }

  /**
   * Neither the latest kernel nor any name containing the running release (in particular the
   * running kernel's own image package) is planned for removal.
   */
  lemma RemoveKernelsSparesLatestAndRunning(installed: seq<string>, latest: string, running: string, cmp: (string, string) -> int)
    requires IsComparator(cmp)
    ensures latest !in RemoveKernels(installed, latest, running, cmp)
    ensures forall x :: x in RemoveKernels(installed, latest, running, cmp) ==> !Contains(x, running)
    ensures ImagePrefix + running !in RemoveKernels(installed, latest, running, cmp)
  {
    RemoveKernelsExactly(installed, latest, running, cmp, latest);
    forall x | x in RemoveKernels(installed, latest, running, cmp)
      ensures !Contains(x, running)
    {
      RemoveKernelsExactly(installed, latest, running, cmp, x);
    }
    ContainsSuffix(ImagePrefix, running);
  }

  /** When no installed kernel is removable, the removal list is empty. */
  lemma NothingRemovableNothingRemoved(installed: seq<string>, latest: string, running: string, cmp: (string, string) -> int)
    requires forall x :: x in installed ==> !IsRemovableKernel(x, latest, running, cmp)
    ensures RemoveKernels(installed, latest, running, cmp) == []
  {
    var r := RemoveKernels(installed, latest, running, cmp);
    if r != [] {
      RemoveKernelsExactly(installed, latest, running, cmp, r[0]);
    }
  }

  /** When every installed kernel ranks at least as high as the latest (for one, when the latest is the only one installed), nothing is removed. */
  lemma NothingOlderNothingRemoved(installed: seq<string>, latest: string, running: string, cmp: (string, string) -> int)
    requires forall x :: x in installed ==> cmp(x, latest) >= 0
    ensures RemoveKernels(installed, latest, running, cmp) == []
  {
    NothingRemovableNothingRemoved(installed, latest, running, cmp);
  }

  /** The case of a single installed kernel that is itself the latest. */
  lemma OnlyLatestInstalledNothingRemoved(latest: string, running: string, cmp: (string, string) -> int)
    requires IsComparator(cmp)
    ensures RemoveKernels([latest], latest, running, cmp) == []
  {
    NothingOlderNothingRemoved([latest], latest, running, cmp);
  }

  /**
   * The latest kernel is taken over installed and not-installed names alike, so a sole installed
   * kernel that ranks below an available newer one is removed unless it matches the running release.
   */
  lemma SoleOlderInstalledKernelRemoved(k: string, latest: string, running: string, cmp: (string, string) -> int)
    requires cmp(k, latest) < 0 && !Contains(k, running)
    ensures RemoveKernels([k], latest, running, cmp) == [k]
  {
    FilterSnoc([], k, x => IsRemovableKernel(x, latest, running, cmp));
    assert [] + [k] == [k];
  }

  // ---------------------------------------------------------------------------------------------
  // Kernel headers

  /** `latest_headers`: the latest image name with every `image` replaced by `headers`. */
  function LatestHeaders(latest: string): string {
    ReplaceAll(latest, "image", "headers")
  }

  /** `running_headers`. */
  function RunningHeaders(running: string): string {
    HeadersPrefix + running
  }

  /** An installed, versioned, full-size, non-Lustre header package: one the header scan sorts into a list. */
  predicate IsQualifyingHeader(p: Package) {
    && p.installed
    && IsVersionedHeaderName(p.name)
    && p.installedSize >= HeaderSizeThreshold
    && !Contains(p.name, "lustre")
  }

  /** The loose keep test: the header name occurs inside the latest or the running header name. */
  predicate MatchesKeptKernel(name: string, latest: string, running: string) {
    Contains(LatestHeaders(latest), name) || Contains(RunningHeaders(running), name)
  }

  predicate IsKeptHeader(p: Package, latest: string, running: string) {
    IsQualifyingHeader(p) && MatchesKeptKernel(p.name, latest, running)
  }

  predicate IsRemovedHeader(p: Package, latest: string, running: string) {
    IsQualifyingHeader(p) && !MatchesKeptKernel(p.name, latest, running)
  }

  /** `keep_header_list`, as one scan appends to it. */
  function KeepHeaders(cache: seq<Package>, latest: string, running: string): seq<string> {
    Names(Filter(cache, p => IsKeptHeader(p, latest, running)))
  }

  /** `remove_header_list`, as one scan appends to it. */
  function RemoveHeaders(cache: seq<Package>, latest: string, running: string): seq<string> {
    Names(Filter(cache, p => IsRemovedHeader(p, latest, running)))
  }

  /** Scanning one more entry appends its name to exactly the list its classification selects, if any. */
  lemma HeaderListsSnoc(cache: seq<Package>, p: Package, latest: string, running: string)
    ensures KeepHeaders(cache + [p], latest, running) ==
              KeepHeaders(cache, latest, running) + (if IsKeptHeader(p, latest, running) then [p.name] else [])
    ensures RemoveHeaders(cache + [p], latest, running) ==
              RemoveHeaders(cache, latest, running) + (if IsRemovedHeader(p, latest, running) then [p.name] else [])
  {
    FilterSnoc(cache, p, q => IsKeptHeader(q, latest, running));
    NamesSnoc(Filter(cache, q => IsKeptHeader(q, latest, running)), p);
    FilterSnoc(cache, p, q => IsRemovedHeader(q, latest, running));
    NamesSnoc(Filter(cache, q => IsRemovedHeader(q, latest, running)), p);
  }

  lemma KeepHeadersIff(cache: seq<Package>, latest: string, running: string, x: string)
    ensures x in KeepHeaders(cache, latest, running) <==>
              exists i :: 0 <= i < |cache| && cache[i].name == x && IsKeptHeader(cache[i], latest, running)
  {
    SelectedNameIff(cache, p => IsKeptHeader(p, latest, running), x);
  }

  lemma RemoveHeadersIff(cache: seq<Package>, latest: string, running: string, x: string)
    ensures x in RemoveHeaders(cache, latest, running) <==>
              exists i :: 0 <= i < |cache| && cache[i].name == x && IsRemovedHeader(cache[i], latest, running)
  {
    SelectedNameIff(cache, p => IsRemovedHeader(p, latest, running), x);
  }

  /**
   * The two header lists have no name in common, neither repeats a name, both are in cache order,
   * and together they hold exactly the names of the qualifying header packages.
   */
  lemma HeaderListsPartition(cache: seq<Package>, latest: string, running: string)
    requires DistinctNames(cache)
    ensures NoDuplicates(KeepHeaders(cache, latest, running))
    ensures NoDuplicates(RemoveHeaders(cache, latest, running))
    ensures IsSubsequence(KeepHeaders(cache, latest, running), Names(cache))
    ensures IsSubsequence(RemoveHeaders(cache, latest, running), Names(cache))
    ensures forall x :: x in KeepHeaders(cache, latest, running) ==> x !in RemoveHeaders(cache, latest, running)
    ensures forall x :: x in KeepHeaders(cache, latest, running) || x in RemoveHeaders(cache, latest, running) <==>
              exists i :: 0 <= i < |cache| && cache[i].name == x && IsQualifyingHeader(cache[i])
  {
    SelectedNamesInCacheOrder(cache, p => IsKeptHeader(p, latest, running));
    SelectedNamesInCacheOrder(cache, p => IsRemovedHeader(p, latest, running));
    forall x
      ensures x in KeepHeaders(cache, latest, running) ==> x !in RemoveHeaders(cache, latest, running)
      ensures x in KeepHeaders(cache, latest, running) || x in RemoveHeaders(cache, latest, running) <==>
                exists i :: 0 <= i < |cache| && cache[i].name == x && IsQualifyingHeader(cache[i])
    {
      KeepHeadersIff(cache, latest, running, x);
      RemoveHeadersIff(cache, latest, running, x);
    }
  }

  /** A qualifying header is kept exactly when its name matches the latest or running header name, and removed otherwise. */
  lemma QualifyingHeaderPlacement(cache: seq<Package>, latest: string, running: string, i: int)
    requires DistinctNames(cache)
    requires 0 <= i < |cache| && IsQualifyingHeader(cache[i])
    ensures cache[i].name in KeepHeaders(cache, latest, running) <==> MatchesKeptKernel(cache[i].name, latest, running)
    ensures cache[i].name in RemoveHeaders(cache, latest, running) <==> !MatchesKeptKernel(cache[i].name, latest, running)
  {
    KeepHeadersIff(cache, latest, running, cache[i].name);
    RemoveHeadersIff(cache, latest, running, cache[i].name);
  }

  /** A header package below the size threshold or naming Lustre is in neither list, whatever its name matches. */
  lemma SkippedHeaderInNeitherList(cache: seq<Package>, latest: string, running: string, i: int)
    requires DistinctNames(cache)
    requires 0 <= i < |cache|
    requires cache[i].installedSize < HeaderSizeThreshold || Contains(cache[i].name, "lustre")
    ensures cache[i].name !in KeepHeaders(cache, latest, running)
    ensures cache[i].name !in RemoveHeaders(cache, latest, running)
  {
    KeepHeadersIff(cache, latest, running, cache[i].name);
    RemoveHeadersIff(cache, latest, running, cache[i].name);
  }

  /** The headers of a plainly named latest kernel, `linux-image-V`, are `linux-headers-V` and are kept. */
  lemma LatestKernelHeadersKept(cache: seq<Package>, v: string, running: string, i: int)
    requires !Contains(v, "image")
    requires 0 <= i < |cache| && IsQualifyingHeader(cache[i]) && cache[i].name == HeadersPrefix + v
    ensures cache[i].name in KeepHeaders(cache, ImagePrefix + v, running)
  {
    PlainImageNameToHeadersName(v);
    ContainsSuffix([], cache[i].name);
    assert [] + cache[i].name == cache[i].name;
    KeepHeadersIff(cache, ImagePrefix + v, running, cache[i].name);
  }

  /** The headers of the running kernel, `linux-headers-R`, are kept. */
  lemma RunningKernelHeadersKept(cache: seq<Package>, latest: string, running: string, i: int)
    requires 0 <= i < |cache| && IsQualifyingHeader(cache[i]) && cache[i].name == HeadersPrefix + running
    ensures cache[i].name in KeepHeaders(cache, latest, running)
  {
    ContainsSuffix([], cache[i].name);
    assert [] + cache[i].name == cache[i].name;
    KeepHeadersIff(cache, latest, running, cache[i].name);
  }

  /**
   * The keep test is containment, not equality: a qualifying header whose name is only the start
   * of the latest header name (say `linux-headers-6.1` against `linux-headers-6.1.0-11-amd64`) is kept too.
   */
  lemma HeaderPrefixOfLatestKept(cache: seq<Package>, latest: string, running: string, i: int)
    requires 0 <= i < |cache| && IsQualifyingHeader(cache[i]) && IsPrefix(cache[i].name, LatestHeaders(latest))
    ensures cache[i].name in KeepHeaders(cache, latest, running)
  {
    KeepHeadersIff(cache, latest, running, cache[i].name);
  }

  // ---------------------------------------------------------------------------------------------
  // Two worked examples

  /**
   * Images `linux-image-6.1.0-9` (running) and `linux-image-6.1.0-11` (latest): the older one is
   * kept because it is running, so nothing is removed.
   */
  lemma RunningOlderKernelKept(cmp: (string, string) -> int)
    requires IsComparator(cmp)
    ensures RemoveKernels(["linux-image-6.1.0-9", "linux-image-6.1.0-11"], "linux-image-6.1.0-11", "6.1.0-9", cmp) == []
  {
    var installed := ["linux-image-6.1.0-9", "linux-image-6.1.0-11"];
    assert installed[0] == ImagePrefix + "6.1.0-9";
    ContainsSuffix(ImagePrefix, "6.1.0-9");
    NothingRemovableNothingRemoved(installed, "linux-image-6.1.0-11", "6.1.0-9", cmp);
  }

  /**
   * Installed `a`, `b` and `latest`, the last being latest and running, where the two older names
   * are too short to contain it (as with `5.10-a`, `5.10-b` and `6.1-latest`): the two older ones are
   * removed, in order.
   */
  lemma OlderKernelsRemovedInOrder(a: string, b: string, latest: string, cmp: (string, string) -> int)
    requires IsComparator(cmp)
    requires cmp(a, latest) < 0 && cmp(b, latest) < 0
    requires |a| < |latest| && |b| < |latest|
    ensures RemoveKernels([a, b, latest], latest, latest, cmp) == [a, b]
  {
    var keep := x => IsRemovableKernel(x, latest, latest, cmp);
    ContainsNeedsRoom(a, latest);
    ContainsNeedsRoom(b, latest);
    FilterSnoc([], a, keep);
    FilterSnoc([a], b, keep);
    FilterSnoc([a, b], latest, keep);
    assert [] + [a] == [a];
    assert [a] + [b] == [a, b];
    assert [a, b] + [latest] == [a, b, latest];
  }
}
