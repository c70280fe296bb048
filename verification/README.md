# git-hours, verified model

git-hours estimates how many hours each author spent on a git repository.
Two steps do the work, and this project models both:

- **Collection** (`get_commit_times_by_author`). The start set is every branch reference under
  `refs/heads/`, or, when a branch is named, every reference whose name starts with
  `refs/heads/<branch>` (so `main` also selects `refs/heads/main-old`). From each branch tip,
  the commit graph is walked depth-first with an explicit stack and one visited set shared
  across all tips. Every commit that resolves is expanded once: all of its parents are pushed,
  and its author timestamp is added to that author's group unless it is a merge commit and
  merge commits are excluded. In the end each group is sorted.
- **Estimation** (`estimate_hours`). An author's sorted timestamps are turned into an hour
  count. The count starts at 10 hours. Each gap between neighbouring commits adds itself when
  it is shorter than `max_commit_diff` minutes. Any longer gap adds `first_commit_add`
  minutes instead. The total is rounded to whole hours and cast to `u32`.

Layout:

- `repo.dfy` (module `Repo`): the repository snapshot as values.
  - A `Graph` maps commit ids to commits. Each commit has its parents and an optional author
    signature (email and seconds since the epoch).
  - A `Reference` has a name and an optional target.
- `sorting.dfy` (module `Sorting`): the sort applied to each author's timestamps. It is an
  insertion sort, proved sorted and a permutation, and the sorted order is unique.
- `collector.dfy` (module `Collector`):
  - the start set, plus a declarative definition of reachability from it
  - the attribution rule
  - the imperative walk: `ExpandPopped`, `WalkFromTip`, `WalkHeads` and `CommitTimesByAuthor`
  - the final per-group sort (`SortEach`)
- `estimator.dfy` (module `Estimator`):
  - the imperative estimator `EstimateHours` and the function `Estimate` that specifies it
  - lemmas about `Estimate`

Timestamps are whole seconds (`i64`). The source computes each gap in `f64` minutes and the
total in `f64` hours. The model uses exact integer seconds instead: `gap/60 < max_commit_diff`
becomes `gap < 60*max_commit_diff`, and rounding to hours
becomes a rounding of seconds to multiples of 3600, with halves rounded away from zero.

An id that does not resolve is skipped without being marked visited (`src/main.rs:64-66`);
`Collector.ExpandPopped` does the same.

## Model

| member | source | states |
|---|---|---|
| Collector.HeadTips | src/main.rs:52-61 | A commit is a start tip exactly when some listed reference's name starts with `refs/heads/` (or `refs/heads/<branch>`) and the reference resolves to that commit. References that fail to resolve are skipped. There is at most one tip per reference. |
| Collector.BranchNarrowsStartSet | src/main.rs:52-57 | Naming a branch can only narrow the start set: every tip of `refs/heads/<branch>` is also a tip with no branch named. |
| Collector.TipReachable | src/main.rs:62 | Every start tip that resolves is reachable. |
| Collector.ParentReachable | src/main.rs:75-77 | Every parent of a reachable commit that resolves is itself reachable. |
| Collector.ReachableInClosedSet | src/main.rs:62-77 | Any set that contains the tips in the graph and the parents of its own members contains every reachable commit in the graph. |
| Collector.MergeFlagDropsOnlyMerges | src/main.rs:83-86 | With merge commits included, a commit counts for an email exactly when its author parses and has that email. Excluding merge commits removes exactly the merge commits (more than one parent) and nothing else. |
| Collector.AuthorTimesCount | src/main.rs:83-93 | For a duplicate-free expansion order, an author's collected timestamps number exactly as many as that author's qualifying commits in the order. |
| Collector.AuthorTimesPermutation | src/main.rs:63-93 | Two duplicate-free expansion orders of the same commits give each author the same multiset of timestamps. |
| Collector.CollectedTimesDetermined | src/main.rs:63-101 | Once sorted, an author's group does not depend on the order in which the walk expanded the commits. |
| Collector.ExpandPopped | src/main.rs:64-95 | One popped id. If it does not resolve, or it was already visited, nothing changes. Otherwise: it is marked visited; all of its parents are pushed in order, whatever the merge filter says; its author's group grows by its timestamp exactly when the attribution rule holds; a group is created on first sight of an author; no other group changes. |
| Collector.WalkFromTip | src/main.rs:62-96 | Walking one tip until its stack is empty keeps the walk invariant: visited commits are distinct and reachable, and each group equals the author's qualifying timestamps in expansion order. The visited set is closed under parents, the tip (if it resolves) is visited, and the visited set only grows. Every newly visited commit is reachable from this tip alone; the walk stops at commits visited earlier. The new expansions are appended after the earlier ones. |
| Collector.WalkHeads | src/main.rs:59-97 | After all tips have been walked with the shared visited set, the walk invariant and parent-closure hold, and every tip that resolves is visited. |
| Collector.WalkReachesExactly | src/main.rs:59-97 | A commit is expanded exactly when it is reachable from the start set. This does not depend on the merge flag. |
| Collector.GroupsMatchContributors | src/main.rs:83-93 | An author has a group exactly when they have a qualifying expanded commit. The group's length is the number of such commits. |
| Collector.SortedGroupsMatchContributors | src/main.rs:83-101 | After the final sort, the previous facts still hold, and each group is ascending. |
| Collector.SortEach | src/main.rs:99-101 | Sorting keeps the same authors. Each group keeps its length and its timestamps (as a multiset) and becomes ascending. |
| Collector.SortedGroupsCanonical | src/main.rs:63-101 | Sorted groups collected along any duplicate-free expansion order of a set of commits equal the canonical groups of that set: each author's qualifying timestamps, sorted ascending. |
| Collector.CommitTimesByAuthor | src/main.rs:47-104 | The whole collection. Each commit reachable from the start set is expanded exactly once, and no other commit is. An email is a key exactly when it authored a qualifying reachable commit. Each group is ascending, has one entry per qualifying commit, and equals the sorted timestamps of exactly those commits. |
| Sorting.Insert | src/main.rs:100 | Inserting into an ascending sequence keeps it ascending and adds exactly the inserted element. |
| Sorting.SortTimes | src/main.rs:100 | The sorted sequence is ascending and a permutation of its input. |
| Sorting.SortedUnique | src/main.rs:99-101 | Two ascending sequences with the same multiset of elements are equal. |
| Estimator.RoundToHours | src/main.rs:124 | The result is the nearest whole number of hours. An exact half rounds away from zero, like `f64::round`. |
| Estimator.SaturateU32 | src/main.rs:124 | The saturating `as u32` cast: the result lies in `0..=u32::MAX` and is the value of that range closest to the input. |
| Estimator.EstimateHours | src/main.rs:106-125 | Fewer than two timestamps give 0. Otherwise the loop over neighbouring pairs computes 10 hours plus each gap below the threshold, or else the first-commit bonus, then rounds and casts. |
| Estimator.SessionSecondsNonNegative | src/main.rs:113-122 | For ascending timestamps, the per-pair contributions add up to a non-negative total. |
| Estimator.EstimateAtLeastBase | src/main.rs:108-124 | For two or more ascending timestamps, the estimate is at least 10 hours. |
| Estimator.OneSessionSpansFirstToLast | src/main.rs:113-119 | When every gap is below the threshold, the pairs add up to the time from the first commit to the last. |
| Estimator.EverySessionAddsBonus | src/main.rs:113-121 | When no gap is below the threshold, every pair adds exactly the first-commit bonus. |
| Estimator.SessionSecondsMonotoneInBonus | src/main.rs:117-121 | A larger first-commit bonus never lowers the summed contributions. |
| Estimator.RoundToHoursMonotone | src/main.rs:124 | Rounding to hours is monotone. |
| Estimator.EstimateMonotoneInBonus | src/main.rs:113-124 | A larger first-commit bonus never lowers the estimate. |
| Estimator.DefaultsWorkedExample | src/main.rs:16-21 | With the default 120-minute threshold and bonus, commits at minutes 0, 30 and 500 give 10 + 0.5 + 2 = 12.5, rounded to 13 hours. |

## Left out

- Opening the repository, listing references, `find_commit`, and reading author and time all
  go through the `gix` library. The model takes their outcome as input: a commit graph (an
  id that does not resolve is absent from it) and a reference listing (a reference that
  fails to load has no target). Failures that abort the run are not modelled: the
  repository does not open, or the reference listing or `prefixed` fails.
- `refs.prefixed(...)` is read as a plain string-prefix filter on reference names, in the
  order the library lists them. That listing order is taken as given.
- The check for a shallow clone in `main` (a file-system test) is not modelled. Nor are
  command-line parsing with `clap`, the sorting of authors by hours, and the printed report.
- `HashMap` and `HashSet` iteration order does not matter to any result and is not modelled.
  The map is a Dafny `map` and the visited set a Dafny `set`.
- Timestamps are whole seconds since the epoch. The time-zone offset that `gix::date::Time`
  also orders by is not modelled, so ties are broken only by seconds.
- `f64` rounding artefacts are not modelled; the arithmetic is exact. The `i64` subtraction
  `next_time.seconds - time.seconds` is taken as exact, with no overflow.
- CommitTimesByAuthor: does not state which of the possible depth-first expansion orders is
  taken. The order is a ghost witness that is duplicate-free and covers exactly the reachable
  commits. The returned groups are still fully determined, because after sorting they do not
  depend on the order (CollectedTimesDetermined).
- EstimateHours: takes `max_commit_diff` and `first_commit_add` as unbounded naturals, not
  `u32`, since nothing in the computation depends on their width.
