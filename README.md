# tidy-old-kernel-packages: the removal planner

`tidy-old-kernel-packages.py` finds the kernel-image and kernel-header packages on a Debian-family
host that can be removed. This project models the part that decides which ones: the
`KernelPackageUninstaller` object, its kernel scan `get_installed_kernels` and its header scan
`get_header_package_lists`. Around them the model includes the name tests the scans use and the
string operations they borrow from Python. It then proves what the resulting plan guarantees.

Inputs the program gets from its environment are parameters here:

- `KernelPackageUninstaller.cache`: the package cache as a sequence of `Package(name, installed,
  installedSize)` records in key order. `installedSize` is the installed size of the package's
  first version.
- `runningKernel`: the running kernel's release string (`platform.uname()[2]`).
- `versionCompare`: the comparator `apt_pkg.version_compare`. It is kept abstract. Lemmas that
  need its order laws require `IsComparator`: `cmp(x, x) == 0`, the sign of `cmp(x, y)` is the
  opposite of the sign of `cmp(y, x)`, and `<= 0` is transitive. As in the code, it is applied to
  whole package names, not to version fields.

Layout, one module per file:

- `text.dfy`, module `Text`: `sub in s` (`Contains`), `str.startswith` (`IsPrefix`) and
  `str.replace` (`ReplaceAll`, including Python's empty-pattern case).
- `seqs.dfy`, module `Seqs`: order-preserving `Filter`, subsequences, duplicate-freedom.
- `version_order.dfy`, module `VersionOrder`: the comparator laws. `MaxName` is the running
  maximum the kernel scan keeps. It starts from `""` and moves only on a strictly greater name.
- `kernel_names.dfy`, module `KernelNames`: the two regular expressions written as character
  predicates, plus the name filter of the kernel scan.
- `removal_plan.dfy`, module `RemovalPlan`: the plan as functions of the cache, and the lemmas
  about it.
- `uninstaller.dfy`, module `Uninstaller`: the class. Its fields are the ones the source
  assigns. Its two scanning methods are loops with `continue`, in the source's order of tests.
  Each method's `ensures` says its fields equal the plan functions.

Some behaviours of the code are kept on purpose:

- The header keep test is substring containment (Python `in`), not equality. A qualifying header is
  kept when its name occurs inside `latest_kernel` with every `image` replaced by `headers`, or
  inside `"linux-headers-" + running_kernel` (`HeaderPrefixOfLatestKept`).
- The running-kernel guard on removal is also containment. Every installed kernel whose name
  contains the release string stays.
- `latest_kernel` is a maximum over every considered `linux-image` name, installed or not.
- The meta-package pattern `linux-image-[a-z]+(-pae)?$` only matches flavours made of letters.
  `linux-image-amd64` is therefore not skipped and is scanned like a versioned kernel
  (`FlavourWithDigitIsNotMeta`). Python's `$` also matches just before a final newline, and the
  model keeps that.
- `get_header_package_lists` appends to the lists already in the object. The method's contract
  reflects this, so a second call would add every entry again.

Two consequences of the code are worth stating:

- A header below the size threshold, or one whose name contains `lustre`, goes into neither list
  (`SkippedHeaderInNeitherList`).
- The latest name is taken over not-installed images too. So a sole installed kernel that ranks
  below an available, not-installed newer image is removed, unless its name contains the running
  release (`SoleOlderInstalledKernelRemoved`). When the latest is itself the one installed kernel,
  nothing is removed (`OnlyLatestInstalledNothingRemoved`).

## Model

| member | source | states |
|---|---|---|
| `Text.Contains` | tidy-old-kernel-packages.py:78-80 | Python's `sub in s` on strings; characterized by `ContainsIffOccurs` |
| `Text.ReplaceAll` | tidy-old-kernel-packages.py:70 | `str.replace`, every occurrence from the left; characterized by `ReplaceAllAbsent`, `ReplaceAllAtMatch` and `ImageNameToHeadersName` |
| `Text.ContainsIffOccurs` | tidy-old-kernel-packages.py:93-95 | Python's `sub in s`, as modelled, holds exactly when `sub` occurs in `s` at some offset |
| `Text.ContainsSuffix` | tidy-old-kernel-packages.py:102 | a string contains every suffix of itself, so `linux-image-R` contains the running release `R` |
| `Text.ReplaceAllAbsent` | tidy-old-kernel-packages.py:70 | `str.replace` leaves a string without an occurrence of the pattern unchanged |
| `Text.ImageNameToHeadersName` | tidy-old-kernel-packages.py:70 | replacing `image` by `headers` turns `linux-image-V` into `linux-headers-` followed by V with the same replacement |
| `Text.PlainImageNameToHeadersName` | tidy-old-kernel-packages.py:70 | when V does not mention `image`, the latest header name of `linux-image-V` is exactly `linux-headers-V` |
| `Seqs.Filter` | tidy-old-kernel-packages.py:101-102 | a comprehension's result is never longer than its input |
| `Seqs.FilterMembership` | tidy-old-kernel-packages.py:101-102 | an element is in a filtered sequence exactly when it is in the input and passes the test |
| `Seqs.FilterIsSubsequence` | tidy-old-kernel-packages.py:96-97 | a scan that appends the elements passing a test produces a subsequence of its input, in input order |
| `Seqs.SubsequenceNoDuplicates` | tidy-old-kernel-packages.py:73 | a subsequence of a duplicate-free key sequence is duplicate-free |
| `VersionOrder.MaxNameIsStartOrMember` | tidy-old-kernel-packages.py:86-99 | the running maximum is the start value `""` or one of the scanned names |
| `VersionOrder.MaxNameIsUpperBound` | tidy-old-kernel-packages.py:98-99 | under the comparator laws, every scanned name compares less than or equal to the running maximum |
| `VersionOrder.MaxNameEmptyIff` | tidy-old-kernel-packages.py:86 | if every name compares above `""`, the maximum stays `""` exactly when nothing was scanned |
| `VersionOrder.MaxName` | tidy-old-kernel-packages.py:86-99 | the running maximum from `""`; characterized by `MaxNameIsStartOrMember`, `MaxNameIsUpperBound` and `MaxNameEmptyIff` |
| `KernelNames.LeadingLetters` | tidy-old-kernel-packages.py:91 | the greedy `[a-z]+` run: all leading characters counted are lower-case letters and the next one is not |
| `KernelNames.ArchMetaNameIff` | tidy-old-kernel-packages.py:91 | the hand-written matcher accepts exactly `linux-image-`, one or more lower-case letters, then nothing, `-pae`, or either followed by a final newline |
| `KernelNames.IsArchMetaName` | tidy-old-kernel-packages.py:91 | the meta-package pattern; characterized by `ArchMetaNameIff` |
| `KernelNames.FlavourWithDigitIsNotMeta` | tidy-old-kernel-packages.py:91 | a meta-package name whose flavour has a digit, such as `linux-image-amd64`, is not matched by the pattern |
| `KernelNames.VersionedHeaderNameIff` | tidy-old-kernel-packages.py:74 | the header test accepts exactly `linux-headers-`, a digit, then anything |
| `KernelNames.IsVersionedHeaderName` | tidy-old-kernel-packages.py:74 | the pattern `linux-headers-\d`; characterized by `VersionedHeaderNameIff` |
| `KernelNames.IsKernelCandidate` | tidy-old-kernel-packages.py:89-95 | the four tests of the kernel scan; characterized by `VersionedImageIsCandidate`, `KernelScanSkips` and `KernelScanConsiders` |
| `KernelNames.VersionedImageIsCandidate` | tidy-old-kernel-packages.py:88-95 | `linux-image-` followed by a digit passes every skip test of the kernel scan unless the name contains `lustre` |
| `RemovalPlan.InstalledKernels` | tidy-old-kernel-packages.py:96-97 | `installed_kernels` after the scan; characterized by `InstalledKernelsExactly` |
| `RemovalPlan.LatestKernel` | tidy-old-kernel-packages.py:86-100 | `latest_kernel` after the scan; characterized by `LatestKernelIsMaximum` and `LatestKernelEmptyIff` |
| `RemovalPlan.RemoveKernels` | tidy-old-kernel-packages.py:101-102 | `remove_kernel_list`; characterized by `RemoveKernelsExactly` and `RemoveKernelsSparesLatestAndRunning` |
| `RemovalPlan.InstalledKernelsSnoc` | tidy-old-kernel-packages.py:96-97 | `installed_kernels` only grows by appending the name of an installed considered entry |
| `RemovalPlan.LatestKernelSnoc` | tidy-old-kernel-packages.py:98-99 | the latest name moves to a considered entry exactly when that entry compares strictly greater |
| `RemovalPlan.KernelScanSkips` | tidy-old-kernel-packages.py:88-95 | an entry the scan skips (the bare virtual package, a meta-package, a Lustre kernel, or a name without `linux-image`) changes neither the installed list nor the latest name |
| `RemovalPlan.KernelScanConsiders` | tidy-old-kernel-packages.py:88-99 | a considered entry appends its name to the installed list when installed, and becomes the latest name when it compares strictly greater |
| `RemovalPlan.InstalledKernelsExactly` | tidy-old-kernel-packages.py:88-97 | `installed_kernels` holds exactly the installed cache names containing `linux-image`, not equal to it, not meta names and not containing `lustre`. They are in cache order, each once |
| `RemovalPlan.LatestKernelIsMaximum` | tidy-old-kernel-packages.py:86-100 | `latest_kernel` is `""` or a considered cache name, installed or not, and ranks at least as high as every considered name |
| `RemovalPlan.LatestKernelEmptyIff` | tidy-old-kernel-packages.py:86-99 | assuming every considered name ranks above `""`, `latest_kernel` is `""` exactly when no cache name is considered |
| `RemovalPlan.RemoveKernelsExactly` | tidy-old-kernel-packages.py:101-102 | `remove_kernel_list` is the sublist, in order, of installed kernels ranking strictly below the latest and not containing the running release |
| `RemovalPlan.RemoveKernelsSparesLatestAndRunning` | tidy-old-kernel-packages.py:101-102 | the latest kernel, every name containing the running release, and `linux-image-` plus the release are never planned for removal |
| `RemovalPlan.NothingRemovableNothingRemoved` | tidy-old-kernel-packages.py:101-102 | when no installed kernel is both older than the latest and apart from the running release, the removal list is empty |
| `RemovalPlan.NothingOlderNothingRemoved` | tidy-old-kernel-packages.py:101-102 | when no installed kernel ranks below the latest, the removal list is empty |
| `RemovalPlan.OnlyLatestInstalledNothingRemoved` | tidy-old-kernel-packages.py:101-102 | when the latest is the only installed kernel, nothing is removed |
| `RemovalPlan.SoleOlderInstalledKernelRemoved` | tidy-old-kernel-packages.py:98-102 | a sole installed kernel ranking below the latest and not matching the running release is removed |
| `RemovalPlan.RunningOlderKernelKept` | tidy-old-kernel-packages.py:101-102 | with images 6.1.0-9 (running) and 6.1.0-11 (latest), nothing is removed |
| `RemovalPlan.OlderKernelsRemovedInOrder` | tidy-old-kernel-packages.py:101-102 | with kernels 5.10-a, 5.10-b and 6.1-latest (latest and running), the two older are removed, in order |
| `RemovalPlan.LatestHeaders` | tidy-old-kernel-packages.py:70 | `latest_headers`; characterized by `ImageNameToHeadersName` and `PlainImageNameToHeadersName` |
| `RemovalPlan.RunningHeaders` | tidy-old-kernel-packages.py:71 | `running_headers`, used by `RunningKernelHeadersKept` |
| `RemovalPlan.IsQualifyingHeader` | tidy-old-kernel-packages.py:74-79 | an entry that reaches the keep test; characterized by `HeaderListsPartition` and `SkippedHeaderInNeitherList` |
| `RemovalPlan.MatchesKeptKernel` | tidy-old-kernel-packages.py:80 | the keep test; characterized by `QualifyingHeaderPlacement` |
| `RemovalPlan.KeepHeaders` | tidy-old-kernel-packages.py:80-82 | `keep_header_list`; characterized by `KeepHeadersIff` and `HeaderListsPartition` |
| `RemovalPlan.RemoveHeaders` | tidy-old-kernel-packages.py:83 | `remove_header_list`; characterized by `RemoveHeadersIff` and `HeaderListsPartition` |
| `RemovalPlan.HeaderListsSnoc` | tidy-old-kernel-packages.py:80-83 | each scanned entry adds its name to the keep list, to the remove list, or to neither, at the end |
| `RemovalPlan.KeepHeadersIff` | tidy-old-kernel-packages.py:80-82 | a name is in the keep list exactly when a qualifying cache entry of that name matches the latest or running header name |
| `RemovalPlan.RemoveHeadersIff` | tidy-old-kernel-packages.py:83 | a name is in the remove list exactly when a qualifying cache entry of that name matches neither |
| `RemovalPlan.HeaderListsPartition` | tidy-old-kernel-packages.py:73-83 | with distinct cache keys, both header lists are duplicate-free and in cache order, disjoint, and together exactly the installed `linux-headers-<digit>` names of size at least 1000000 not containing `lustre` |
| `RemovalPlan.QualifyingHeaderPlacement` | tidy-old-kernel-packages.py:80-83 | a qualifying header is kept exactly when its name occurs in the latest or running header name, and removed exactly when it does not |
| `RemovalPlan.SkippedHeaderInNeitherList` | tidy-old-kernel-packages.py:76-79 | a header smaller than 1000000 or containing `lustre` is in neither list, whatever its name matches |
| `RemovalPlan.LatestKernelHeadersKept` | tidy-old-kernel-packages.py:70-81 | when the latest kernel is `linux-image-V` for a V not containing `image`, a qualifying `linux-headers-V` is kept |
| `RemovalPlan.RunningKernelHeadersKept` | tidy-old-kernel-packages.py:71-81 | a qualifying `linux-headers-R`, for running release R, is kept |
| `RemovalPlan.HeaderPrefixOfLatestKept` | tidy-old-kernel-packages.py:80-81 | a qualifying header whose name is a mere prefix of the latest header name is kept as well |
| `Uninstaller.KernelPackageUninstaller.constructor` | tidy-old-kernel-packages.py:37-46 | a new object stores its inputs, starts the lists empty, runs the kernel scan then the header scan, and holds exactly the planned lists |
| `Uninstaller.KernelPackageUninstaller.GetInstalledKernels` | tidy-old-kernel-packages.py:85-102 | the scan loop leaves `installed_kernels`, `latest_kernel` and `remove_kernel_list` equal to the plan functions of the cache |
| `Uninstaller.KernelPackageUninstaller.GetHeaderPackageLists` | tidy-old-kernel-packages.py:69-83 | the scan loop appends the planned keep and remove header lists to the lists the object already holds |
| `Uninstaller.PlanIsSafe` | tidy-old-kernel-packages.py:45-46 | in a constructed plan, the latest kernel and names matching the running release are not removed, every removed kernel is installed, and no header is both kept and removed |

## Left out

- `get_options` and the module-level `uninstall` and `verbose` flags (lines 17-34): command-line parsing and `sys.exit`.
- The import guard (lines 11-15): it only prints a message and exits.
- `apt.Cache()` and `platform.uname()` (lines 39, 44): host queries. The cache and the running release are constructor parameters.
- The `verbose` constructor argument (line 38): the planner never reads it; only `uninstall` does.
- `uninstall` (lines 49-67): its `mark_delete`, `mark_install`, `get_changes`, `commit` and `clear` calls go to python-apt. Their effect depends on apt's dependency resolver and changes the host.
- `describe_plan` and `main` (lines 104-120): printing only.
- The body of `apt_pkg.version_compare` (Debian version ordering, section 5.6.12 of the Debian Policy Manual). The model keeps it abstract with assumed order laws.
- `versions[0]` on a package that has no version (line 76) would raise `IndexError`. The model's `Package` record always carries an installed size.
- IsDecimalDigit: Python's `\d` in a `str` pattern also matches non-ASCII Unicode decimal digits. The model accepts only `0`-`9`, which covers every valid Debian package name.
