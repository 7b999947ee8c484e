/** processDirectories: measure each path in order, print one line per path
    (its size, or the error that stopped its walk) and a final total of the
    paths that could be measured. Lines are records, not formatted text. */
module Report {
  import opened SizeFormat
  import opened DirWalk

  /** The filesystem as seen by the walk: the tree found at each path. A path
      that does not exist maps to a Broken node (its Lstat fails). */
  type FileSystem = string -> Node

  /** A size as printed: "%d bytes", or humanReadableSize's rendering. */
  datatype Shown = Exact(bytes: int) | Human(rendering: Rendering)

  /** One line of output. */
  datatype Line =
    | SizeLine(path: string, shown: Shown)    // "<path>: <size>"
    | ErrorLine(path: string, err: FsError)   // "Error processing directory <path>: <err>"
    | TotalLine(shown: Shown)                 // "Total: <size>"

  /** How a size is printed under the human-readable flag. */
  function Show(size: int, human: bool): Shown
    requires human ==> InInt64(size)
  {
    if human then Human(Render(size)) else Exact(size)
  }

  /** The result of dirSize on `path`. */
  function Measured(fs: FileSystem, path: string, recursive: bool): Walk
  {
    Walked(fs(path), true, recursive)
  }

  /** The sum of the sizes of the paths of `dirs` that were measured without
      error; a failed path contributes nothing. */
  function SuccessTotal(dirs: seq<string>, fs: FileSystem, recursive: bool): int
  {
    if dirs == [] then 0
    else
      var m := Measured(fs, dirs[|dirs| - 1], recursive);
      SuccessTotal(dirs[..|dirs| - 1], fs, recursive) + (if m.err.None? then m.total else 0)
  }

  /** Every number printed fits Go's int64, which humanReadableSize takes. */
  predicate PrintableInInt64(dirs: seq<string>, fs: FileSystem, recursive: bool)
  {
    && (forall i :: 0 <= i < |dirs| && Measured(fs, dirs[i], recursive).err.None? ==>
          InInt64(Measured(fs, dirs[i], recursive).total))
    && InInt64(SuccessTotal(dirs, fs, recursive))
  }

  /** The line printed for a path with the given walk result. */
  function PathLine(path: string, m: Walk, human: bool): Line
    requires human && m.err.None? ==> InInt64(m.total)
  {
    if m.err.Some? then ErrorLine(path, m.err.value) else SizeLine(path, Show(m.total, human))
  }

  /** processDirectories: one line per path, in order, then the total. */
  method ProcessDirectories(dirs: seq<string>, fs: FileSystem, human: bool, recursive: bool)
    returns (lines: seq<Line>)
    requires human ==> PrintableInInt64(dirs, fs, recursive)
    ensures |lines| == |dirs| + 1
    ensures forall i :: 0 <= i < |dirs| ==>
              lines[i] == PathLine(dirs[i], Measured(fs, dirs[i], recursive), human)
    ensures lines[|dirs|] == TotalLine(Show(SuccessTotal(dirs, fs, recursive), human))
  {
    var cumulativeSize := 0;
    lines := [];
    for i := 0 to |dirs|
      invariant |lines| == i
      invariant forall j :: 0 <= j < i ==>
                  lines[j] == PathLine(dirs[j], Measured(fs, dirs[j], recursive), human)
      invariant cumulativeSize == SuccessTotal(dirs[..i], fs, recursive)
    {
      var dir := dirs[i];
      SuccessTotalStep(dirs, i, fs, recursive);
      var size, err := DirSize(fs(dir), recursive);
      assert Walk(size, err) == Measured(fs, dir, recursive);
      if err.Some? {
        lines := lines + [ErrorLine(dir, err.value)];
        continue;
      }
      cumulativeSize := cumulativeSize + size;
      var shown := Exact(size);
      if human {
        var r := HumanReadableSize(size as int64);
        shown := Human(r);
      }
      lines := lines + [SizeLine(dir, shown)];
    }
    assert dirs[..|dirs|] == dirs;
    var total := Exact(cumulativeSize);
    if human {
      var r := HumanReadableSize(cumulativeSize as int64);
      total := Human(r);
    }
    lines := lines + [TotalLine(total)];
  }

  /** The total of one more path: its size if its walk succeeded, else 0. */
  lemma SuccessTotalStep(dirs: seq<string>, i: int, fs: FileSystem, recursive: bool)
    requires 0 <= i < |dirs|
    ensures SuccessTotal(dirs[..i + 1], fs, recursive) == SuccessTotal(dirs[..i], fs, recursive) +
              (if Measured(fs, dirs[i], recursive).err.None? then Measured(fs, dirs[i], recursive).total else 0)
  {
    assert dirs[..i + 1][..i] == dirs[..i];
  }

  // ----- properties -----

  /** The bytes of the size lines among `lines`, when printed exactly. */
  function ReportedBytes(lines: seq<Line>): int
  {
    if lines == [] then 0
    else
      var last := lines[|lines| - 1];
      ReportedBytes(lines[..|lines| - 1]) +
        (if last.SizeLine? && last.shown.Exact? then last.shown.bytes else 0)
  }

  /** Without the human-readable flag, the total printed last is the sum of
      the sizes printed on the lines before it; error lines add nothing. */
  lemma {:induction false} TotalIsSumOfReportedSizes(dirs: seq<string>, fs: FileSystem, recursive: bool, lines: seq<Line>)
    requires |lines| == |dirs|
    requires forall i :: 0 <= i < |dirs| ==>
               lines[i] == PathLine(dirs[i], Measured(fs, dirs[i], recursive), false)
    ensures ReportedBytes(lines) == SuccessTotal(dirs, fs, recursive)
  {
    if dirs != [] {
      var k := |dirs| - 1;
      TotalIsSumOfReportedSizes(dirs[..k], fs, recursive, lines[..k]);
    }
  }

  /** The total over several runs of paths is the sum of their totals: where
      a path sits in the list does not change what it contributes. */
  lemma {:induction false} SuccessTotalAppend(a: seq<string>, b: seq<string>, fs: FileSystem, recursive: bool)
    ensures SuccessTotal(a + b, fs, recursive) == SuccessTotal(a, fs, recursive) + SuccessTotal(b, fs, recursive)
    decreases |b|
  {
    if b == [] {
      assert a + b == a;
    } else {
      var k := |b| - 1;
      assert (a + b)[..|a + b| - 1] == a + b[..k];
      assert (a + b)[|a + b| - 1] == b[k];
      SuccessTotalAppend(a, b[..k], fs, recursive);
    }
  }

  /** A path whose walk fails adds nothing to the total, wherever it stands. */
  lemma FailedPathAddsNothing(a: seq<string>, d: string, b: seq<string>, fs: FileSystem, recursive: bool)
    requires Measured(fs, d, recursive).err.Some?
    ensures SuccessTotal(a + [d] + b, fs, recursive) == SuccessTotal(a + b, fs, recursive)
  {
    SuccessTotalAppend(a + [d], b, fs, recursive);
    SuccessTotalAppend(a, [d], fs, recursive);
    SuccessTotalAppend(a, b, fs, recursive);
    assert SuccessTotal([d], fs, recursive) == 0 by {
      assert [d][..0] == [];
    }
  }

  /** Two paths: "A" a directory holding one 100-byte file, "B" missing.
      Exact output: A's size line, B's error line, then "Total: 100 bytes". */
  method TwoPathsExample()
  {
    var fs: FileSystem := (p: string) => if p == "A" then Dir([File(100)]) else Broken("no such file or directory");
    var lines := ProcessDirectories(["A", "B"], fs, false, false);
    assert Walked(Dir([File(100)]), true, false) == Walk(100, None);
    assert lines[0] == SizeLine("A", Exact(100));
    assert lines[1] == ErrorLine("B", "no such file or directory");
    assert ["A", "B"][..1] == ["A"];
    assert lines[2] == TotalLine(Exact(100));
  }
}
