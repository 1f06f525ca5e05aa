/** The recursion options (`WalkDirOptions` in src/lib.rs) and the
    filesystem the expansion consults. The traversal itself (jwalk) and the
    filesystem queries are not modelled: they are the oracle functions of
    `FileSystem`, given as parameters. */
module Walk {
  import opened Bytes

  /** The largest `usize` on a 64-bit target. */
  const USIZE_MAX: int := 0xFFFF_FFFF_FFFF_FFFF

  type usize = n: int | 0 <= n <= USIZE_MAX

  /** jwalk's traversal strategy; an existing pool is an opaque handle. */
  datatype Parallelism = Serial | RayonDefaultPool | RayonNewPool(threads: usize) | RayonExistingPool(pool: nat)

  datatype WalkDirOptions = WalkDirOptions(
    sort: bool,
    minDepth: usize,
    maxDepth: usize,
    skipHidden: bool,
    followLinks: bool,
    parallelism: Parallelism)

  /** Rust's `Option`: the expansion takes `Option<WalkDirOptions>`, where
      `None` means "do not recurse into directories". */
  datatype Option<T> = None | Some(value: T)

  /** `Default for WalkDirOptions`. Its depth bounds, 0 and `usize::MAX`,
      admit every depth. */
  function Default(): (o: WalkDirOptions)
    ensures !o.sort && o.minDepth == 0 && o.maxDepth == USIZE_MAX
    ensures o.skipHidden && !o.followLinks && o.parallelism == RayonDefaultPool
  {
    WalkDirOptions(false, 0, USIZE_MAX, true, false, RayonDefaultPool)
  }

  // The builder setters: each returns the options with one field replaced.

  function WithSort(o: WalkDirOptions, sort: bool): (r: WalkDirOptions)
    ensures r.sort == sort
    ensures r.minDepth == o.minDepth && r.maxDepth == o.maxDepth && r.skipHidden == o.skipHidden
    ensures r.followLinks == o.followLinks && r.parallelism == o.parallelism
  {
    o.(sort := sort)
  }

  function WithMinDepth(o: WalkDirOptions, minDepth: usize): (r: WalkDirOptions)
    ensures r.minDepth == minDepth
    ensures r.sort == o.sort && r.maxDepth == o.maxDepth && r.skipHidden == o.skipHidden
    ensures r.followLinks == o.followLinks && r.parallelism == o.parallelism
  {
    o.(minDepth := minDepth)
  }

  function WithMaxDepth(o: WalkDirOptions, maxDepth: usize): (r: WalkDirOptions)
    ensures r.maxDepth == maxDepth
    ensures r.sort == o.sort && r.minDepth == o.minDepth && r.skipHidden == o.skipHidden
    ensures r.followLinks == o.followLinks && r.parallelism == o.parallelism
  {
    o.(maxDepth := maxDepth)
  }

  function WithSkipHidden(o: WalkDirOptions, skipHidden: bool): (r: WalkDirOptions)
    ensures r.skipHidden == skipHidden
    ensures r.sort == o.sort && r.minDepth == o.minDepth && r.maxDepth == o.maxDepth
    ensures r.followLinks == o.followLinks && r.parallelism == o.parallelism
  {
    o.(skipHidden := skipHidden)
  }

  function WithFollowLinks(o: WalkDirOptions, followLinks: bool): (r: WalkDirOptions)
    ensures r.followLinks == followLinks
    ensures r.sort == o.sort && r.minDepth == o.minDepth && r.maxDepth == o.maxDepth
    ensures r.skipHidden == o.skipHidden && r.parallelism == o.parallelism
  {
    o.(followLinks := followLinks)
  }

  function WithParallelism(o: WalkDirOptions, parallelism: Parallelism): (r: WalkDirOptions)
    ensures r.parallelism == parallelism
    ensures r.sort == o.sort && r.minDepth == o.minDepth && r.maxDepth == o.maxDepth
    ensures r.skipHidden == o.skipHidden && r.followLinks == o.followLinks
  {
    o.(parallelism := parallelism)
  }

  /** The builder is complete: every option set is the defaults with each
      setter applied once. */
  lemma BuilderReachesAll(o: WalkDirOptions)
    ensures o == WithParallelism(WithFollowLinks(WithSkipHidden(WithMaxDepth(WithMinDepth(
                   WithSort(Default(), o.sort), o.minDepth), o.maxDepth), o.skipHidden),
                   o.followLinks), o.parallelism)
  {
  }

  /** A filesystem path: the bytes of a Unix `PathBuf`. */
  type Path = seq<byte>

  /** One item a walk yields: its path, and whether its type is "regular file"
      (`file_type().is_file()`). */
  datatype DirEntry = DirEntry(path: Path, isFile: bool)

  /** The filesystem as two oracles: `Path::is_file` (src/lib.rs:91), and the
      entries `WalkDirOptions::build(root)` yields, in traversal order
      (src/lib.rs:63-71, 94). */
  datatype FileSystem = FileSystem(isFile: Path -> bool, walk: (WalkDirOptions, Path) -> seq<DirEntry>)
}
