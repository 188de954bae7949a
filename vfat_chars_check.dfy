/** `vfat_chars_check`: walks a directory tree and reports every file and
    directory name holding a character outside the set that VFAT file
    names may use. */
module VfatCharsCheck {
  import Paths

  /** The inclusive ranges of character codes that may appear in a name. */
  const RANGES: seq<(int, int)> := [(32, 35), (38, 41), (43, 46), (48, 57), (61, 61), (65, 91), (93, 95), (97, 126)]

  /** A character code VFAT allows, range by range. */
  predicate AllowedOrd(x: int) {
    32 <= x <= 35 || 38 <= x <= 41 || 43 <= x <= 46 || 48 <= x <= 57 || x == 61 ||
    65 <= x <= 91 || 93 <= x <= 95 || 97 <= x <= 126
  }

  /** `x` lies in one of the first `k` ranges. */
  predicate InRanges(x: int, k: nat)
    requires k <= |RANGES|
  {
    k > 0 && (InRanges(x, k - 1) || RANGES[k - 1].0 <= x <= RANGES[k - 1].1)
  }

  lemma {:induction false} InAllRanges(x: int)
    ensures InRanges(x, |RANGES|) <==> AllowedOrd(x)
  {
    assert InRanges(x, 1) <==> 32 <= x <= 35;
    assert InRanges(x, 2) <==> InRanges(x, 1) || 38 <= x <= 41;
    assert InRanges(x, 3) <==> InRanges(x, 2) || 43 <= x <= 46;
    assert InRanges(x, 4) <==> InRanges(x, 3) || 48 <= x <= 57;
    assert InRanges(x, 5) <==> InRanges(x, 4) || x == 61;
    assert InRanges(x, 6) <==> InRanges(x, 5) || 65 <= x <= 91;
    assert InRanges(x, 7) <==> InRanges(x, 6) || 93 <= x <= 95;
    assert InRanges(x, 8) <==> InRanges(x, 7) || 97 <= x <= 126;
  }

  /** `range(lo, hi)`. */
  function Range(lo: int, hi: int): (r: seq<int>)
    ensures |r| == if lo <= hi then hi - lo else 0
    ensures forall i :: 0 <= i < |r| ==> r[i] == lo + i
  {
    if lo < hi then seq(hi - lo, i => lo + i) else []
  }

  /** `ALLOWED_ORD_VALS`: every range extended in turn, giving the allowed
      codes in ascending order, each once. */
  method BuildAllowedOrdVals() returns (vals: seq<int>)
    ensures forall x :: x in vals <==> AllowedOrd(x)
    ensures forall i, j :: 0 <= i < j < |vals| ==> vals[i] < vals[j]
  {
    vals := [];
    for k := 0 to |RANGES|
      invariant forall x :: x in vals <==> InRanges(x, k)
      invariant forall i, j :: 0 <= i < j < |vals| ==> vals[i] < vals[j]
      invariant forall i :: 0 <= i < |vals| ==> k > 0 && vals[i] <= RANGES[k - 1].1
    {
      var subList := RANGES[k];
      var r := Range(subList.0, subList.1 + 1);
      assert subList.0 <= subList.1 && (k > 0 ==> RANGES[k - 1].1 < subList.0);
      assert forall x :: x in r <==> subList.0 <= x <= subList.1 by {
        forall x | subList.0 <= x <= subList.1 ensures x in r {
          assert r[x - subList.0] == x;
        }
      }
      var vals' := vals + r;
      forall i, j | 0 <= i < j < |vals'| ensures vals'[i] < vals'[j] {
        if j < |vals| {
          assert vals'[i] == vals[i] && vals'[j] == vals[j];
        } else if i < |vals| {
          assert vals'[j] == r[j - |vals|] && vals'[i] == vals[i];
        } else {
          assert vals'[j] == r[j - |vals|] && vals'[i] == r[i - |vals|];
        }
      }
      forall i | 0 <= i < |vals'| ensures vals'[i] <= subList.1 {
        if i >= |vals| {
          assert vals'[i] == r[i - |vals|];
        } else {
          assert vals'[i] == vals[i];
        }
      }
      vals := vals';
    }
    forall x ensures x in vals <==> AllowedOrd(x) {
      InAllRanges(x);
    }
  }

  /** The characters that typically break VFAT names are not allowed, nor
      is anything below the space or above '~'. */
  lemma {:induction false} ForbiddenCharacters(c: char)
    requires c in "*/:?\\<>" || (c as int) < 32 || (c as int) > 126
    ensures !AllowedOrd(c as int)
  {
  }

  /** A name conforms when every character is allowed; the empty name
      conforms. */
  predicate Conforms(name: string) {
    forall i :: 0 <= i < |name| ==> AllowedOrd(name[i] as int)
  }

  lemma {:induction false} ConformsSnoc(s: string, c: char)
    ensures Conforms(s + [c]) <==> Conforms(s) && AllowedOrd(c as int)
  {
    assert (s + [c])[|s|] == c;
    assert forall i :: 0 <= i < |s| ==> (s + [c])[i] == s[i];
  }

  /** What `check_names` reports for one name: nothing when it conforms,
      otherwise `root` joined with it. */
  function Flag(root: string, name: string): (r: seq<string>)
    ensures |r| <= 1
  {
    if Conforms(name) then [] else [Paths.Join(root, name)]
  }

  /** `check_names` as a filter: `root` joined with each non-conforming
      name, in input order. */
  function NonConforming(root: string, names: seq<string>): (r: seq<string>)
    ensures |r| <= |names|
  {
    if names == [] then []
    else NonConforming(root, names[..|names| - 1]) + Flag(root, names[|names| - 1])
  }

  lemma {:induction false} NonConformingAppend(root: string, a: seq<string>, b: seq<string>)
    ensures NonConforming(root, a + b) == NonConforming(root, a) + NonConforming(root, b)
    decreases |b|
  {
    if b == [] {
      assert a + b == a;
    } else {
      var b' := b[..|b| - 1];
      assert (a + b)[..|a + b| - 1] == a + b';
      NonConformingAppend(root, a, b');
    }
  }

  /** Only non-conforming names are reported... */
  lemma {:induction false} NonConformingSound(root: string, names: seq<string>, x: string) returns (i: nat)
    requires x in NonConforming(root, names)
    ensures i < |names| && !Conforms(names[i]) && x == Paths.Join(root, names[i])
    decreases |names|
  {
    var q := names[..|names| - 1];
    if x in NonConforming(root, q) {
      i := NonConformingSound(root, q, x);
      assert names[i] == q[i];
    } else {
      i := |names| - 1;
    }
  }

  /** ...and every non-conforming name is. */
  lemma {:induction false} NonConformingComplete(root: string, names: seq<string>, i: nat)
    requires i < |names| && !Conforms(names[i])
    ensures Paths.Join(root, names[i]) in NonConforming(root, names)
    decreases |names|
  {
    var q := names[..|names| - 1];
    var y := Paths.Join(root, names[i]);
    assert NonConforming(root, names) == NonConforming(root, q) + Flag(root, names[|names| - 1]);
    if i < |q| {
      assert q[i] == names[i];
      NonConformingComplete(root, q, i);
      assert y in NonConforming(root, q);
    } else {
      assert Flag(root, names[i]) == [y];
    }
  }

  /** `check_names`: for each name, a flag set by any character whose code
      is not in `allowed`. */
  method CheckNames(allowed: seq<int>, root: string, names: seq<string>) returns (result: seq<string>)
    requires forall x :: x in allowed <==> AllowedOrd(x)
    ensures result == NonConforming(root, names)
  {
    result := [];
    for n := 0 to |names|
      invariant result == NonConforming(root, names[..n])
    {
      var name := names[n];
      var doesntConform := false;
      for i := 0 to |name|
        invariant doesntConform <==> !Conforms(name[..i])
      {
        ConformsSnoc(name[..i], name[i]);
        assert name[..i + 1] == name[..i] + [name[i]];
        if name[i] as int !in allowed {
          doesntConform := true;
        }
      }
      assert name[..|name|] == name;
      assert names[..n + 1][..n] == names[..n] && names[..n + 1][n] == name;
      if doesntConform {
        result := result + [Paths.Join(root, name)];
      }
    }
    assert names[..|names|] == names;
  }

  /** One directory as `os.walk` yields it. */
  datatype WalkEntry = WalkEntry(root: string, directories: seq<string>, files: seq<string>)

  /** As written, a directory's entries are checked only when it holds at
      least one file; corrected, every directory's entries are checked. */
  datatype Variant = AsWritten | Corrected

  predicate Checked(variant: Variant, e: WalkEntry) {
    variant == Corrected || |e.files| > 0
  }

  /** The names `os.walk` lists in a directory: its files, then its
      subdirectories. */
  function Names(e: WalkEntry): seq<string> {
    e.files + e.directories
  }

  /** The report of one walk entry: its files first, then its
      subdirectories. */
  function EntryReport(variant: Variant, e: WalkEntry): seq<string> {
    if Checked(variant, e) then NonConforming(e.root, e.files) + NonConforming(e.root, e.directories) else []
  }

  /** `check_vfat_chars_in_filenames` over the walk. */
  function Report(variant: Variant, walk: seq<WalkEntry>): seq<string> {
    if walk == [] then [] else Report(variant, walk[..|walk| - 1]) + EntryReport(variant, walk[|walk| - 1])
  }

  /** `check_vfat_chars_in_filenames`: the reports of the walk's directories,
      in walk order. */
  method CheckVfatCharsInFilenames(variant: Variant, allowed: seq<int>, walk: seq<WalkEntry>)
    returns (notConformingList: seq<string>)
    requires forall x :: x in allowed <==> AllowedOrd(x)
    ensures notConformingList == Report(variant, walk)
  {
    notConformingList := [];
    for w := 0 to |walk|
      invariant notConformingList == Report(variant, walk[..w])
    {
      var e := walk[w];
      assert walk[..w + 1][..w] == walk[..w] && walk[..w + 1][w] == e;
      var fromEntry := CheckEntry(variant, allowed, e);
      notConformingList := notConformingList + fromEntry;
    }
    assert walk[..|walk|] == walk;
  }

  /** One pass of the walk loop: a checked directory's files, then its
      subdirectories. */
  method CheckEntry(variant: Variant, allowed: seq<int>, e: WalkEntry) returns (r: seq<string>)
    requires forall x :: x in allowed <==> AllowedOrd(x)
    ensures r == EntryReport(variant, e)
  {
    r := [];
    if variant == Corrected || |e.files| > 0 {
      var fromFiles := CheckNames(allowed, e.root, e.files);
      var fromDirectories := CheckNames(allowed, e.root, e.directories);
      r := fromFiles + fromDirectories;
    }
  }

  lemma {:induction false} EntryReportComplete(variant: Variant, e: WalkEntry, i: nat)
    requires Checked(variant, e) && i < |Names(e)| && !Conforms(Names(e)[i])
    ensures Paths.Join(e.root, Names(e)[i]) in EntryReport(variant, e)
  {
    NonConformingAppend(e.root, e.files, e.directories);
    NonConformingComplete(e.root, Names(e), i);
  }

  /** The report holds only non-conforming names of directories the
      variant checks... */
  lemma {:induction false} ReportSound(variant: Variant, walk: seq<WalkEntry>, x: string) returns (w: nat, i: nat)
    requires x in Report(variant, walk)
    ensures w < |walk| && Checked(variant, walk[w]) && i < |Names(walk[w])|
    ensures !Conforms(Names(walk[w])[i]) && x == Paths.Join(walk[w].root, Names(walk[w])[i])
    decreases |walk|
  {
    var q, e := walk[..|walk| - 1], walk[|walk| - 1];
    if x in Report(variant, q) {
      w, i := ReportSound(variant, q, x);
      assert walk[w] == q[w];
    } else {
      w := |walk| - 1;
      NonConformingAppend(e.root, e.files, e.directories);
      i := NonConformingSound(e.root, Names(e), x);
    }
  }

  /** ...and every non-conforming name of such a directory; corrected,
      that is every name the walk meets. */
  lemma {:induction false} ReportComplete(variant: Variant, walk: seq<WalkEntry>, w: nat, i: nat)
    requires w < |walk| && Checked(variant, walk[w]) && i < |Names(walk[w])| && !Conforms(Names(walk[w])[i])
    ensures Paths.Join(walk[w].root, Names(walk[w])[i]) in Report(variant, walk)
    decreases |walk|
  {
    var q := walk[..|walk| - 1];
    if w < |q| {
      assert q[w] == walk[w];
      ReportComplete(variant, q, w, i);
    } else {
      EntryReportComplete(variant, walk[w], i);
    }
    ReportExtends(variant, walk, Paths.Join(walk[w].root, Names(walk[w])[i]));
  }

  /** The report of a walk holds the report of the walk before its last
      directory and that directory's report. */
  lemma {:induction false} ReportExtends(variant: Variant, walk: seq<WalkEntry>, x: string)
    requires walk != []
    ensures x in Report(variant, walk[..|walk| - 1]) || x in EntryReport(variant, walk[|walk| - 1]) ==> x in Report(variant, walk)
  {
  }

  /** As written, a bad name inside a directory that holds only
      directories is never reported. */
  lemma {:induction false} AsWrittenSkipsDirectoryOnlyParents()
    ensures Report(AsWritten, [WalkEntry("/r", ["a:b"], [])]) == []
    ensures Report(Corrected, [WalkEntry("/r", ["a:b"], [])]) == ["/r/a:b"]
  {
    var e := WalkEntry("/r", ["a:b"], []);
    assert !AllowedOrd("a:b"[1] as int);
    assert [e][..0] == [];
    assert ["a:b"][..0] == [];
    assert Paths.Join("/r", "a:b") == "/r/a:b";
  }
}
