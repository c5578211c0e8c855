/**
 * `KernelPackageUninstaller`: the object that scans the package cache once and keeps the removal
 * plan in its fields. The cache, the running release and the version comparator are inputs.
 */
module Uninstaller {
  import opened Text
  import opened KernelNames
  import opened RemovalPlan

  class KernelPackageUninstaller {
    /** The package cache, in key order. */
    const cache: seq<Package>
    /** The running kernel's release string (`platform.uname()[2]`). */
    const runningKernel: string
    /** `apt_pkg.version_compare`. */
    const versionCompare: (string, string) -> int

    var installedKernels: seq<string>
    var latestKernel: string
    var removeKernelList: seq<string>
    var keepHeaderList: seq<string>
    var removeHeaderList: seq<string>
    /** Set to the empty list on construction and never used afterwards. */
    var installedHeaderList: seq<string>

    /** The plan a fresh object holds: the kernel scan followed by one header scan. */
    ghost predicate HoldsPlan()
      reads this
    {
      && installedKernels == InstalledKernels(cache)
      && latestKernel == LatestKernel(cache, versionCompare)
      && removeKernelList == RemoveKernels(installedKernels, latestKernel, runningKernel, versionCompare)
      && keepHeaderList == KeepHeaders(cache, latestKernel, runningKernel)
      && removeHeaderList == RemoveHeaders(cache, latestKernel, runningKernel)
    }

    constructor (cache: seq<Package>, runningKernel: string, versionCompare: (string, string) -> int)
      ensures this.cache == cache && this.runningKernel == runningKernel && this.versionCompare == versionCompare
      ensures HoldsPlan()
      ensures installedHeaderList == []
    {
      this.cache := cache;
      this.runningKernel := runningKernel;
      this.versionCompare := versionCompare;
      removeHeaderList := [];
      removeKernelList := [];
      keepHeaderList := [];
      installedHeaderList := [];
      installedKernels := [];
      latestKernel := "";
      new;
      GetInstalledKernels();
      GetHeaderPackageLists();
    }

    /**
     * The kernel scan: records the installed kernels in cache order, takes the latest name over all
     * considered entries, and plans the removal of installed kernels older than it that do not
     * match the running release.
     */
    method GetInstalledKernels()
      modifies this`installedKernels, this`latestKernel, this`removeKernelList
      ensures installedKernels == InstalledKernels(cache)
      ensures latestKernel == LatestKernel(cache, versionCompare)
      ensures removeKernelList == RemoveKernels(installedKernels, latestKernel, runningKernel, versionCompare)
    {
      var latest := "";
      installedKernels := [];
      for i := 0 to |cache|
        invariant installedKernels == InstalledKernels(cache[..i])
        invariant latest == LatestKernel(cache[..i], versionCompare)
      {
        var pkg := cache[i];
        assert cache[..i + 1] == cache[..i] + [pkg];
        if pkg.name == "linux-image" {
          KernelScanSkips(cache[..i], pkg, versionCompare);
          continue;
        }
        if IsArchMetaName(pkg.name) {
          KernelScanSkips(cache[..i], pkg, versionCompare);
          continue;
        }
        if Contains(pkg.name, "lustre") {
          KernelScanSkips(cache[..i], pkg, versionCompare);
          continue;
        }
        if Contains(pkg.name, "linux-image") {
          KernelScanConsiders(cache[..i], pkg, versionCompare);
          if pkg.installed {
            installedKernels := installedKernels + [pkg.name];
          }
          if versionCompare(pkg.name, latest) > 0 {
            latest := pkg.name;
          }
        } else {
          KernelScanSkips(cache[..i], pkg, versionCompare);
        }
      }
      assert cache[..|cache|] == cache;
      latestKernel := latest;
      removeKernelList := RemoveKernels(installedKernels, latestKernel, runningKernel, versionCompare);
    }

    /**
     * The header scan: appends each qualifying header package to the keep list when its name
     * occurs in the latest or running header name, and to the remove list otherwise.
     */
    method GetHeaderPackageLists()
      modifies this`keepHeaderList, this`removeHeaderList
      ensures keepHeaderList == old(keepHeaderList) + KeepHeaders(cache, latestKernel, runningKernel)
      ensures removeHeaderList == old(removeHeaderList) + RemoveHeaders(cache, latestKernel, runningKernel)
    {
      var latestHeaders := LatestHeaders(latestKernel);
      var runningHeaders := RunningHeaders(runningKernel);
      for i := 0 to |cache|
        invariant keepHeaderList == old(keepHeaderList) + KeepHeaders(cache[..i], latestKernel, runningKernel)
        invariant removeHeaderList == old(removeHeaderList) + RemoveHeaders(cache[..i], latestKernel, runningKernel)
      {
        var pkg := cache[i];
        assert cache[..i + 1] == cache[..i] + [pkg];
        HeaderListsSnoc(cache[..i], pkg, latestKernel, runningKernel);
        if pkg.installed && IsVersionedHeaderName(pkg.name) {
          if pkg.installedSize < HeaderSizeThreshold {
            continue;
          }
          if Contains(pkg.name, "lustre") {
            continue;
          }
          if Contains(latestHeaders, pkg.name) || Contains(runningHeaders, pkg.name) {
            keepHeaderList := keepHeaderList + [pkg.name];
            continue;
          }
          removeHeaderList := removeHeaderList + [pkg.name];
        }
      }
      assert cache[..|cache|] == cache;
    }
  }

  /**
   * The guarantees of the plan an object holds after construction: the latest kernel and every
   * name matching the running release stay installed, only installed kernels are removed, and no
   * header package is both kept and removed.
   */
  lemma PlanIsSafe(u: KernelPackageUninstaller)
    requires u.HoldsPlan()
    requires VersionOrder.IsComparator(u.versionCompare) && DistinctNames(u.cache)
    ensures u.latestKernel !in u.removeKernelList
    ensures forall x :: x in u.removeKernelList ==> x in u.installedKernels && !Contains(x, u.runningKernel)
    ensures forall x :: x in u.keepHeaderList ==> x !in u.removeHeaderList
  {
    RemoveKernelsSparesLatestAndRunning(u.installedKernels, u.latestKernel, u.runningKernel, u.versionCompare);
    forall x | x in u.removeKernelList
      ensures x in u.installedKernels
    {
      RemoveKernelsExactly(u.installedKernels, u.latestKernel, u.runningKernel, u.versionCompare, x);
    }
    HeaderListsPartition(u.cache, u.latestKernel, u.runningKernel);
  }
}
