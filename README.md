# Directory size reporter, modelled in Dafny

The program measures a list of paths and prints one line for each path: its
apparent size in bytes, or the error that stopped its walk. It ends with a
`Total:` line. Two flags change its behaviour. `-recursive` makes the walk
descend into subdirectories. `-human` prints sizes scaled to a power-of-1024
unit (`K`, `M`, `G`, `T`, `P`, `E`).

The model covers the three functions of `main.go` that hold logic:

- `SizeFormat` (`format.dfy`) models `humanReadableSize`. The method
  `HumanReadableSize` keeps the source's loop over `n`, `div` and `exp` on a
  64-bit integer type. The verifier therefore checks that `div *= unit` never
  overflows. The method is proved equal to the function `Render`. `Render`'s
  contract states the properties of the chosen unit: sizes below 1024 stay
  unscaled, the quotient `size / div` lies in `[1, 1024)`, and the letter index
  is always inside `"KMGTPE"`. Lemmas show that exact powers of 1024 pick
  themselves as divisor, and that the chosen unit is the largest possible one
  and the only one that fits.
- `DirWalk` (`walk.dfy`) models `dirSize`. The filesystem is a tree of
  `File(size)`, `Dir(children)` and `Broken(err)` nodes. A `Broken` node is an
  entry whose metadata or directory listing could not be read. The class
  `SizeWalker` is the closure `walkFunc` together with the `totalSize`
  variable it captures; its method `Visit` is the callback. `WalkTree` and
  `WalkEntries` play the part of `filepath.Walk`: they call the callback on each entry, descend
  into directories the callback did not prune, treat `SkipDir` from a
  subdirectory as "go on", and stop at the first error. `WalkEntries`
  goes through a directory's entries by recursion on the first entry. `DirSize` is proved
  equal to the specification function `Walked`. Lemmas relate `Walked` to
  independent definitions: the bytes of all files in the tree, the bytes of
  the root's direct files, and the first unreadable entry.
- `Report` (`report.dfy`) models `processDirectories`. Output lines are
  records: a size line, an error line, and the final total line. A size is
  shown either exactly or as `Render`'s choice. `ProcessDirectories` keeps the
  source's loop and cumulative total. It is proved to emit one line per path
  in order and then the total of the successful paths.

The recursion and human-readable flags are parameters instead of globals.
The filesystem is a parameter too: a function from path to tree, where a
missing path maps to a `Broken` node.

Details of the code that the model keeps:

- Negative sizes are left unscaled (`"<n> B"`), exactly as the code's
  `size < unit` test does. File sizes in the source are non-negative, but
  the model's tree does not require it, and int64 wrap-around of a total
  could make one negative in the source.
- The root is the only entry that is never pruned. The code compares each
  entry's path with the root path. Entry paths are the root joined with a
  name, so they never equal it; the model uses a root flag instead.
- A subdirectory that cannot be listed fails the whole measurement even when
  recursion is off. The callback tests the error before it tests for pruning.
- On an error, `dirSize` returns the partial total together with the error.
  `Walked` keeps that partial total, and `processDirectories` ignores it.

## Model

| member | source | states |
|---|---|---|
| `SizeFormat.Render` | main.go:21-32 | sizes below 1024 are shown unscaled as themselves; otherwise the divisor is 1024^(exp+1), `1 <= size / div < 1024`, exp is in 0..5 and the letter is `"KMGTPE"[exp]` |
| `SizeFormat.HumanReadableSize` | main.go:21-32 | the loop over `n`, `div`, `exp` on int64 never overflows and yields exactly `Render(size)`; sizes below 1024 run no loop |
| `SizeFormat.LoopStep` | main.go:27-29 | while `n == size / div >= 1024`, `div * 1024` is at most `size` (no int64 overflow) and `n / 1024 == size / (div * 1024)` |
| `SizeFormat.ExponentBound` | main.go:27-31 | every int64 size takes at most 5 divisions, so `"KMGTPE"[exp]` is in bounds |
| `SizeFormat.ExactPowerSelectsItself` | main.go:26-30 | `size == 1024^(k+1)` with k in 0..5 selects divisor `size` and exponent k (1048576 selects `M`) |
| `SizeFormat.UnitIsLargest` | main.go:27-30 | every exponent whose divisor does not exceed the size is at most the chosen one |
| `SizeFormat.UnitIsUnique` | main.go:27-30 | only one exponent leaves a quotient in `[1, 1024)`, and that is the chosen one |
| `DirWalk.SizeWalker.constructor` | main.go:41 | the captured total starts at 0 |
| `DirWalk.SizeWalker.Visit` | main.go:42-54 | an error aborts with that error and adds nothing; a non-root directory is skipped when not recursive; a non-directory adds its size; directories add nothing |
| `DirWalk.WalkTree` | main.go:55 | walking a subtree adds `Walked(...).total` to the captured total, aborts exactly when `Walked` reports an error and returns that error |
| `DirWalk.WalkEntries` | main.go:55-56 | walking a directory's entries in order adds `WalkedAll(...).total`, stops exactly when `WalkedAll` reports an error and returns that error, and never passes `SkipDir` upward |
| `DirWalk.DirSize` | main.go:40-57 | the returned total and error are those of `Walked(root, true, recursive)` |
| `DirWalk.FileRootYieldsItsSize` | main.go:47-52 | a root that is not a directory yields its own size without error, whatever the recursion flag |
| `DirWalk.RecursiveWalkCoversTree` | main.go:43-52 | with recursion on, the walk's error is the first unreadable entry in pre-order, and without one the total is the sum over every non-directory entry of the tree |
| `DirWalk.ShallowWalkCoversDirectEntries` | main.go:43-52 | with recursion off, the walk's error is the first unreadable direct entry of the root, and without one the total is the sum of the root's direct non-directory entries |
| `DirWalk.BrokenEntryAborts` | main.go:43-48 | an unreadable entry directly inside the root fails the walk whether or not recursion is on |
| `DirWalk.ShallowAtMostDeep` | main.go:47-52 | with non-negative sizes, if the recursive walk succeeds then the non-recursive one succeeds too and its total is at most the recursive total |
| `DirWalk.WalkedAllStops` | main.go:43-44 | once an entry aborts, the entries after it change neither the total nor the error |
| `Report.ProcessDirectories` | main.go:63-87 | exactly one line per path in input order (an error line for a failed walk, a size line otherwise), then one total line showing the sum over the successful paths |
| `Report.TotalIsSumOfReportedSizes` | main.go:66-85 | without the human flag, the final total equals the sum of the sizes printed on the per-path lines |
| `Report.SuccessTotalAppend` | main.go:66-73 | the total over a concatenation of path lists is the sum of the totals of the parts |
| `Report.FailedPathAddsNothing` | main.go:68-71 | inserting a path whose walk fails anywhere in the list leaves the total unchanged |

## Left out

- The `%.1f` rendering of `float64(size)/float64(div)` is not modelled. It is floating-point rounding; near a power of 1024 it can print `1024.0`. The model keeps only the integer divisor, exponent and letter.
- `fmt.Printf`/`fmt.Sprintf` formatting, including `%d` decimal text, is not modelled. It is a library call, so lines are records of path, shown size and error.
- `filepath.Walk`, `os.Lstat` and directory listing are left out. The filesystem is a tree value, and `WalkTree` replaces the library walk. The library's loop over a directory's entries is written as recursion in `WalkEntries`; the order of visits and the stopping rule are the same. Symbolic links are `File` nodes, since `Lstat` does not follow them. Entries are in the order the walk visits them, which is lexical for `filepath.Walk`. Where exactly the library detects read errors is also not modelled: every failure is a `Broken` node.
- `main`, flag parsing, `flag.Usage`, `os.Exit` and the global flag variables are left out. They are command-line wiring, and each flag is a parameter instead.
- `DirWalk.DirSize` does not model int64 wrap-around of `totalSize`: sizes and totals are mathematical integers. The code has no guard against overflow.
- `Report.ProcessDirectories` requires, only when the human-readable flag is on, that every printed size and the total fit int64. `humanReadableSize` takes an int64. The source would instead wrap `cumulativeSize` around silently, and that is not modelled.
