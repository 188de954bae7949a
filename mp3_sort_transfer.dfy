/** `mp3_sort_transfer`: album directories are copied into a target tree of
    one-letter bucket directories, by the album name's first letter. The
    file system is the set of existing path names of `FileSys`; a listed
    directory's entries and which of them are directories are inputs. */
module Mp3SortTransfer {
  import Strings
  import Paths
  import StringOrder
  import FileSys

  /** A name `os.listdir` returns: never empty. */
  type Name = s: string | s != [] witness "A"

  predicate IsAsciiLetter(c: char) {
    'a' <= c <= 'z' || 'A' <= c <= 'Z'
  }

  /** The bucket of an album: its first character upper-cased, or "A" when
      that is not a letter from A to Z. */
  function Bucket(dirName: Name): (b: string)
    ensures |b| == 1 && 'A' <= b[0] <= 'Z'
    ensures IsAsciiLetter(dirName[0]) ==> Strings.LowerChar(b[0]) == Strings.LowerChar(dirName[0])
    ensures !IsAsciiLetter(dirName[0]) ==> b == "A"
  {
    var c := Strings.UpperChar(dirName[0]);
    if 'A' <= c <= 'Z' then [c] else "A"
  }

  /** Two albums whose names start with the same letter, in either case,
      share a bucket. */
  lemma {:induction false} BucketIgnoresCase(d: Name, e: Name)
    requires Strings.LowerChar(d[0]) == Strings.LowerChar(e[0])
    ensures Bucket(d) == Bucket(e)
  {
    if IsAsciiLetter(d[0]) {
      assert IsAsciiLetter(e[0]);
      assert Strings.UpperChar(d[0]) == Strings.UpperChar(e[0]);
    } else {
      assert !IsAsciiLetter(e[0]);
    }
  }

  /** The bucket directory of an album. */
  function Target(targetDir: string, dirName: Name): string
  {
    Paths.Join(targetDir, Bucket(dirName))
  }

  /** Where an album is copied to: its own name inside its bucket. */
  function Destination(targetDir: string, dirName: Name): string
  {
    Paths.Join(Target(targetDir, dirName), dirName)
  }

  /** For a target directory without a trailing '/' and a relative album
      name, the destination is target/bucket/album. */
  lemma {:induction false} DestinationShape(targetDir: string, dirName: Name)
    requires dirName[0] != '/'
    requires targetDir != [] && targetDir[|targetDir| - 1] != '/'
    ensures Destination(targetDir, dirName) == targetDir + "/" + Bucket(dirName) + "/" + dirName
  {
    var b := Bucket(dirName);
    assert b[0] != '/';
    var t := targetDir + "/" + b;
    assert Target(targetDir, dirName) == t;
    assert t[|t| - 1] == b[0];
  }

  datatype Outcome = Copied | Skipped | Failed

  /** What processing one album leaves: the names that exist afterwards and
      what happened to the album. */
  datatype Step = Step(names: set<string>, outcome: Outcome)

  /** `process_dir`: the bucket directory is made if missing; an existing
      destination is left alone; otherwise the album is copied, which fails
      when the source does not exist. */
  function ProcessDirSpec(names: set<string>, baseDir: string, dirName: Name, targetDir: string): (s: Step)
    ensures names + {Target(targetDir, dirName)} <= s.names
    ensures Destination(targetDir, dirName) in names ==> s.outcome == Skipped && s.names == names + {Target(targetDir, dirName)}
    ensures s.outcome == Copied <==> Destination(targetDir, dirName) !in names + {Target(targetDir, dirName)} && Paths.Join(baseDir, dirName) in names + {Target(targetDir, dirName)}
    ensures s.outcome != Failed ==> Destination(targetDir, dirName) in s.names
  {
    var withTarget := names + {Target(targetDir, dirName)};
    var dst := Destination(targetDir, dirName);
    if dst in withTarget then Step(withTarget, Skipped)
    else if Paths.Join(baseDir, dirName) in withTarget then Step(withTarget + {dst}, Copied)
    else Step(withTarget, Failed)
  }

  /** `process_dir` on the file system. */
  method ProcessDir(fs: FileSys.FileSystem, baseDir: string, dirName: Name, targetDir: string) returns (outcome: Outcome)
    modifies fs
    ensures var s := ProcessDirSpec(old(fs.names), baseDir, dirName, targetDir);
      fs.names == s.names && outcome == s.outcome
  {
    var target := Target(targetDir, dirName);
    if !fs.Exists(target) {
      var _ := fs.MakeDir(target);
    }
    var src := Paths.Join(baseDir, dirName);
    var dst := Paths.Join(target, dirName);
    if fs.Exists(dst) {
      outcome := Skipped;
    } else {
      var ok := fs.CopyTree(src, dst);
      outcome := if ok then Copied else Failed;
    }
  }

  /** The entries of `names` that are directories, in the order of `names`. */
  function Subdirs(names: seq<Name>, isDir: set<string>): seq<Name> {
    if names == [] then []
    else
      var last := names[|names| - 1];
      Subdirs(names[..|names| - 1], isDir) + (if last in isDir then [last] else [])
  }

  /** The directories are exactly the entries that are directories. */
  lemma {:induction false} SubdirsMembers(names: seq<Name>, isDir: set<string>)
    ensures forall x :: x in Subdirs(names, isDir) <==> x in names && x in isDir
    decreases |names|
  {
    if names != [] {
      var init := names[..|names| - 1];
      SubdirsMembers(init, isDir);
      assert names == init + [names[|names| - 1]];
    }
  }

  /** Filtering a sorted listing of distinct names keeps it sorted and
      distinct. */
  lemma {:induction false} SubdirsSorted(names: seq<Name>, isDir: set<string>)
    requires StringOrder.Sorted(names) && StringOrder.Distinct(names)
    ensures StringOrder.Sorted(Subdirs(names, isDir)) && StringOrder.Distinct(Subdirs(names, isDir))
    decreases |names|
  {
    if names != [] {
      var init := names[..|names| - 1];
      var last := names[|names| - 1];
      SubdirsSorted(init, isDir);
      SubdirsMembers(init, isDir);
      var a := Subdirs(init, isDir);
      if last in isDir {
        forall x | x in a ensures StringOrder.Le(x, last) && x != last {
          var k :| 0 <= k < |init| && init[k] == x;
          assert names[k] == x;
        }
        var r := a + [last];
        forall i, j | 0 <= i < j < |r| ensures StringOrder.Le(r[i], r[j]) && r[i] != r[j] {
          assert r[i] in a;
          if j < |a| {
            assert r[i] == a[i] && r[j] == a[j];
          } else {
            assert r[j] == last;
          }
        }
      }
    }
  }

  /** What processing a sequence of albums in order leaves: the names that
      exist, and whether a copy failed, which ends the run. */
  datatype Run = Run(names: set<string>, failed: bool)

  function RunDirs(names: set<string>, baseDir: string, dirs: seq<Name>, targetDir: string): Run
  {
    if dirs == [] then Run(names, false)
    else
      var r := RunDirs(names, baseDir, dirs[..|dirs| - 1], targetDir);
      if r.failed then r
      else
        var s := ProcessDirSpec(r.names, baseDir, dirs[|dirs| - 1], targetDir);
        Run(s.names, s.outcome == Failed)
  }

  /** Nothing that existed is removed or replaced: a run only adds names. */
  lemma {:induction false} RunOnlyAdds(names: set<string>, baseDir: string, dirs: seq<Name>, targetDir: string)
    ensures names <= RunDirs(names, baseDir, dirs, targetDir).names
    decreases |dirs|
  {
    if dirs != [] {
      RunOnlyAdds(names, baseDir, dirs[..|dirs| - 1], targetDir);
    }
  }

  /** A run without a failure leaves every album's destination in place,
      copied or already there. */
  lemma {:induction false} RunReachesAll(names: set<string>, baseDir: string, dirs: seq<Name>, targetDir: string)
    requires !RunDirs(names, baseDir, dirs, targetDir).failed
    ensures forall k :: 0 <= k < |dirs| ==> Destination(targetDir, dirs[k]) in RunDirs(names, baseDir, dirs, targetDir).names
    decreases |dirs|
  {
    if dirs != [] {
      var init := dirs[..|dirs| - 1];
      var r := RunDirs(names, baseDir, init, targetDir);
      assert !r.failed;
      RunReachesAll(names, baseDir, init, targetDir);
      var s := ProcessDirSpec(r.names, baseDir, dirs[|dirs| - 1], targetDir);
      assert RunDirs(names, baseDir, dirs, targetDir) == Run(s.names, s.outcome == Failed);
      assert s.outcome != Failed && r.names <= s.names;
      forall k | 0 <= k < |dirs| ensures Destination(targetDir, dirs[k]) in s.names {
        if k < |init| {
          assert dirs[k] == init[k];
          assert Destination(targetDir, init[k]) in r.names;
        } else {
          assert dirs[k] == dirs[|dirs| - 1];
        }
      }
    }
  }

  /** Once a copy has failed, later albums change nothing. */
  lemma {:induction false} RunStaysFailed(names: set<string>, baseDir: string, dirs: seq<Name>, more: seq<Name>, targetDir: string)
    requires RunDirs(names, baseDir, dirs, targetDir).failed
    ensures RunDirs(names, baseDir, dirs + more, targetDir) == RunDirs(names, baseDir, dirs, targetDir)
    decreases |more|
  {
    if more != [] {
      var m := more[..|more| - 1];
      RunStaysFailed(names, baseDir, dirs, m, targetDir);
      assert (dirs + more)[..|dirs + more| - 1] == dirs + m;
    } else {
      assert dirs + more == dirs;
    }
  }

  lemma {:induction false} SubdirsAppend(a: seq<Name>, b: seq<Name>, isDir: set<string>)
    ensures Subdirs(a + b, isDir) == Subdirs(a, isDir) + Subdirs(b, isDir)
    decreases |b|
  {
    if b != [] {
      var m := b[..|b| - 1];
      SubdirsAppend(a, m, isDir);
      assert (a + b)[..|a + b| - 1] == a + m;
    } else {
      assert a + b == a;
    }
  }

  /** A run stopped after the first `i` entries, by their end or by a
      failure, is the run over all the directories. */
  lemma {:induction false} RunOfPrefix(start: set<string>, baseDir: string, sorted: seq<Name>, i: nat, isDir: set<string>, targetDir: string)
    requires i <= |sorted|
    requires i == |sorted| || RunDirs(start, baseDir, Subdirs(sorted[..i], isDir), targetDir).failed
    ensures RunDirs(start, baseDir, Subdirs(sorted, isDir), targetDir) == RunDirs(start, baseDir, Subdirs(sorted[..i], isDir), targetDir)
  {
    assert sorted[..i] + sorted[i..] == sorted;
    SubdirsAppend(sorted[..i], sorted[i..], isDir);
    if i < |sorted| {
      RunStaysFailed(start, baseDir, Subdirs(sorted[..i], isDir), Subdirs(sorted[i..], isDir), targetDir);
    } else {
      assert sorted[..i] == sorted;
    }
  }

  /** One turn of `process_base_dir_1`'s loop: entry `i` of the sorted
      listing is processed when it is a directory. */
  method VisitEntry(fs: FileSys.FileSystem, sorted: seq<Name>, i: nat, isDir: set<string>, baseDir: string, targetDir: string,
                    visited: seq<Name>, ghost start: set<string>)
    returns (visited': seq<Name>, failed: bool)
    requires i < |sorted|
    requires visited == Subdirs(sorted[..i], isDir)
    requires var r := RunDirs(start, baseDir, visited, targetDir); fs.names == r.names && !r.failed
    modifies fs
    ensures visited' == Subdirs(sorted[..i + 1], isDir)
    ensures var r := RunDirs(start, baseDir, visited', targetDir); fs.names == r.names && failed == r.failed
  {
    var name := sorted[i];
    assert sorted[..i + 1] == sorted[..i] + [name];
    visited' := visited;
    failed := false;
    if name in isDir {
      var outcome := ProcessDir(fs, baseDir, name, targetDir);
      failed := outcome == Failed;
      visited' := visited + [name];
      assert visited'[..|visited'| - 1] == visited;
    }
  }

  /** `process_base_dir_1`: every entry of the listing that is a directory
      is processed, in sorted order; a failed copy raises and ends the run.
      `dirs` is the order the directories are taken in. */
  method ProcessBaseDir(fs: FileSys.FileSystem, listing: set<Name>, isDir: set<string>, baseDir: string, targetDir: string)
    returns (dirs: seq<Name>, failed: bool)
    modifies fs
    ensures StringOrder.Sorted(dirs) && StringOrder.Distinct(dirs)
    ensures forall x :: x in dirs <==> x in listing && x in isDir
    ensures var r := RunDirs(old(fs.names), baseDir, dirs, targetDir); fs.names == r.names && failed == r.failed
  {
    var names := StringOrder.SortSet(listing);
    assert forall k :: 0 <= k < |names| ==> names[k] in listing;
    var sorted: seq<Name> := names;
    var visited: seq<Name> := [];
    failed := false;
    var i := 0;
    while i < |sorted| && !failed
      invariant i <= |sorted|
      invariant visited == Subdirs(sorted[..i], isDir)
      invariant var r := RunDirs(old(fs.names), baseDir, visited, targetDir); fs.names == r.names && failed == r.failed
    {
      visited, failed := VisitEntry(fs, sorted, i, isDir, baseDir, targetDir, visited, old(fs.names));
      i := i + 1;
    }
    dirs := Subdirs(sorted, isDir);
    RunOfPrefix(old(fs.names), baseDir, sorted, i, isDir, targetDir);
    SubdirsMembers(sorted, isDir);
    SubdirsSorted(sorted, isDir);
  }
}
