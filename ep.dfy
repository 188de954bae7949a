/** `ep`: erases or replaces a pattern in the names of the files of a
    directory. By default every space becomes '_'; `-s`/`-d` give the text to
    replace and its replacement; `-t` ("tracklist") first turns the first
    space into '-'. */
module Ep {
  import opened Results
  import Strings
  import StringOrder
  import opened FileSys

  /** The options `getopt` hands back, in command-line order. */
  datatype Opt = Help | Tracklist | Recursive | Src(arg: string) | Dst(arg: string)

  datatype Options = Options(tracklist: bool, recursive: bool, srcString: Option<string>, dstString: Option<string>)

  /** What `getOptions` ends in: the usage text (`sys.exit(0)`), the
      rejection of `-t` with `-s`/`-d` (`sys.exit(1)`), or the options. */
  datatype Parsed = ShowUsage | Rejected | Run(options: Options)

  /** Python truthiness of an optional string: given and not empty. */
  predicate Truthy(s: Option<string>) {
    s.Some? && s.value != []
  }

  /** The argument of the last `-s` (`src == true`) or `-d` option. */
  function LastArg(opts: seq<Opt>, src: bool): (r: Option<string>)
    ensures r.None? <==> forall i :: 0 <= i < |opts| ==> !Takes(opts[i], src)
  {
    if opts == [] then None
    else if Takes(opts[|opts| - 1], src) then Some(opts[|opts| - 1].arg)
    else
      var r := LastArg(opts[..|opts| - 1], src);
      assert forall i :: 0 <= i < |opts| - 1 ==> opts[..|opts| - 1][i] == opts[i];
      r
  }

  /** The option `LastArg` takes its value from: the last one of its kind. */
  lemma {:induction false} LastArgAt(opts: seq<Opt>, src: bool) returns (i: nat)
    requires LastArg(opts, src).Some?
    ensures i < |opts| && Takes(opts[i], src) && opts[i].arg == LastArg(opts, src).value
    ensures forall j :: i < j < |opts| ==> !Takes(opts[j], src)
  {
    if Takes(opts[|opts| - 1], src) {
      i := |opts| - 1;
    } else {
      var q := opts[..|opts| - 1];
      i := LastArgAt(q, src);
      assert opts[i] == q[i];
      forall j | i < j < |opts| ensures !Takes(opts[j], src) {
        if j < |opts| - 1 { assert opts[j] == q[j]; }
      }
    }
  }

  predicate Takes(o: Opt, src: bool) {
    if src then o.Src? else o.Dst?
  }

  /** The outcome of `getOptions`: `-h` anywhere shows the usage; otherwise
      the flags are set by their presence, the last `-s` and `-d` win, and
      `-t` together with a non-empty `-s` or `-d` is rejected. */
  function ParseOptions(opts: seq<Opt>): Parsed {
    if Help in opts then ShowUsage
    else
      var o := Options(Tracklist in opts, Recursive in opts, LastArg(opts, true), LastArg(opts, false));
      if o.tracklist && (Truthy(o.srcString) || Truthy(o.dstString)) then Rejected else Run(o)
  }

  /** `getOptions` over the options `getopt` returned. */
  method GetOptions(opts: seq<Opt>) returns (r: Parsed)
    ensures r == ParseOptions(opts)
  {
    var tracklist := false;
    var recursive := false;
    var srcString: Option<string> := None;
    var dstString: Option<string> := None;
    var i := 0;
    while i < |opts|
      invariant 0 <= i <= |opts|
      invariant Help !in opts[..i]
      invariant tracklist == (Tracklist in opts[..i]) && recursive == (Recursive in opts[..i])
      invariant srcString == LastArg(opts[..i], true) && dstString == LastArg(opts[..i], false)
    {
      assert opts[..i + 1][..i] == opts[..i];
      match opts[i] {
        case Help =>
          assert Help in opts;
          return ShowUsage;
        case Tracklist =>
          tracklist := true;
        case Recursive =>
          recursive := true;
        case Src(arg) =>
          srcString := Some(arg);
        case Dst(arg) =>
          dstString := Some(arg);
      }
      i := i + 1;
    }
    assert opts[..i] == opts;
    if tracklist && (Truthy(srcString) || Truthy(dstString)) {
      return Rejected;
    }
    return Run(Options(tracklist, recursive, srcString, dstString));
  }

  /** `-t` is exclusive: accepted options never pair it with a non-empty
      `-s` or `-d`, and a `-t` with one of them is refused. */
  lemma {:induction false} TracklistExclusive(opts: seq<Opt>, a: string)
    requires Help !in opts && Tracklist in opts && a != []
    ensures ParseOptions(opts + [Src(a)]) == Rejected
    ensures ParseOptions(opts + [Dst(a)]) == Rejected
    ensures ParseOptions(opts).Run? ==>
      !Truthy(ParseOptions(opts).options.srcString) && !Truthy(ParseOptions(opts).options.dstString)
  {
    assert Help !in opts + [Src(a)] && Tracklist in opts + [Src(a)];
    assert Help !in opts + [Dst(a)] && Tracklist in opts + [Dst(a)];
  }

  /** The text to replace and its replacement in `main`: a space and '_'
      when neither `-s` nor `-d` is given. */
  function Defaults(o: Options): (r: (Option<string>, Option<string>))
    ensures o.srcString.None? && o.dstString.None? ==> r == (Some(" "), Some("_"))
    ensures o.srcString.Some? || o.dstString.Some? ==> r == (o.srcString, o.dstString)
  {
    if o.srcString.None? && o.dstString.None? then (Some(" "), Some("_")) else (o.srcString, o.dstString)
  }

  /** The new name of `src`: in tracklist mode the first space becomes '-'
      first, then every `oldText` becomes `newText`. */
  function Dest(src: string, oldText: string, newText: string, tracks: bool): string {
    if tracks then Strings.Replace(Strings.ReplaceFirst(src, " ", "-"), oldText, newText)
    else Strings.Replace(src, oldText, newText)
  }

  /** `replacePatterns` when both texts are given: one (name, new name)
      pair per name, in order. */
  function Entries(srcList: seq<string>, oldText: string, newText: string, tracks: bool): (r: seq<(string, string)>)
    ensures |r| == |srcList|
    ensures forall i :: 0 <= i < |r| ==> r[i] == (srcList[i], Dest(srcList[i], oldText, newText, tracks))
  {
    seq(|srcList|, i requires 0 <= i < |srcList| => (srcList[i], Dest(srcList[i], oldText, newText, tracks)))
  }

  /** `replacePatterns`; with only one of `-s` and `-d` given the other is
      `None`, and `str.replace` raises `TypeError` on the first name. */
  method ReplacePatterns(srcList: seq<string>, oldText: Option<string>, newText: Option<string>, tracks: bool)
    returns (r: Result<seq<(string, string)>>)
    ensures r.Err? <==> srcList != [] && (oldText.None? || newText.None?)
    ensures r.Ok? && oldText.Some? && newText.Some? ==> r.value == Entries(srcList, oldText.value, newText.value, tracks)
    ensures r.Ok? ==> |r.value| == |srcList|
  {
    var entriesList: seq<(string, string)> := [];
    for i := 0 to |srcList|
      invariant oldText.Some? && newText.Some? ==> entriesList == Entries(srcList[..i], oldText.value, newText.value, tracks)
      invariant |entriesList| == i
      invariant i > 0 ==> oldText.Some? && newText.Some?
    {
      if oldText.None? || newText.None? {
        return Err("TypeError: expected a character buffer object");
      }
      var src := srcList[i];
      var dest;
      if !tracks {
        dest := Strings.Replace(src, oldText.value, newText.value);
      } else {
        var tmpString := Strings.ReplaceFirst(src, " ", "-");
        dest := Strings.Replace(tmpString, oldText.value, newText.value);
      }
      entriesList := entriesList + [(src, dest)];
      assert srcList[..i + 1][..i] == srcList[..i];
    }
    assert srcList[..|srcList|] == srcList;
    return Ok(entriesList);
  }

  /** By default the new names hold no space. */
  lemma {:induction false} DefaultHasNoSpace(src: string, tracks: bool)
    ensures ' ' !in Dest(src, " ", "_", tracks)
  {
    Strings.ReplaceRemovesChar(if tracks then Strings.ReplaceFirst(src, " ", "-") else src, ' ', "_");
  }

  /** By default, renaming the new names again changes nothing. */
  lemma {:induction false} DefaultIdempotent(src: string, tracks: bool)
    ensures var d := Dest(src, " ", "_", tracks);
      Dest(d, " ", "_", tracks) == d
  {
    var d := Dest(src, " ", "_", tracks);
    DefaultHasNoSpace(src, tracks);
    Strings.CharNotContained(d, ' ');
    Strings.ReplaceCharAbsent(d, ' ', "_");
  }

  /** In tracklist mode by default, the first space becomes '-', the text
      before it is kept and every later space becomes '_'. */
  lemma {:induction false} TracklistShape(src: string, k: nat)
    requires k < |src| && src[k] == ' ' && ' ' !in src[..k]
    ensures Dest(src, " ", "_", true) == src[..k] + "-" + Strings.Replace(src[k + 1..], " ", "_")
  {
    assert Strings.OccursAt(src, " ", k);
    forall j | 0 <= j < k ensures !Strings.OccursAt(src, " ", j) {
      assert src[j] == src[..k][j];
    }
    var f := Strings.Find(src, " ");
    assert f == k;
    var t := Strings.ReplaceFirst(src, " ", "-");
    assert t == src[..k] + "-" + src[k + 1..];
    Strings.ReplaceCharAppend(src[..k] + "-", src[k + 1..], ' ', "_");
    Strings.ReplaceCharAppend(src[..k], "-", ' ', "_");
    Strings.ReplaceCharAbsent(src[..k], ' ', "_");
    Strings.ReplaceCharAbsent("-", ' ', "_");
  }

  /** `renameEntries` on a file system holding `names`: the names afterwards
      and whether every rename went through. Pairs whose new name is the old
      one are skipped; a failing `os.rename` ends the run (`sys.exit(1)`). */
  function RenameAll(names: set<string>, entries: seq<(string, string)>): (set<string>, bool)
    decreases |entries|
  {
    if entries == [] then (names, true)
    else
      var (src, dest) := entries[0];
      if src == dest then RenameAll(names, entries[1..])
      else if src !in names then (names, false)
      else RenameAll(names - {src} + {dest}, entries[1..])
  }

  /** Running two lists of renames is running the first and, if it went
      through, the second. */
  lemma {:induction false} RenameAllAppend(names: set<string>, a: seq<(string, string)>, b: seq<(string, string)>)
    ensures RenameAll(names, a + b) ==
      var (names', ok) := RenameAll(names, a);
      if ok then RenameAll(names', b) else (names', false)
    decreases |a|
  {
    if a != [] {
      assert (a + b)[0] == a[0] && (a + b)[1..] == a[1..] + b;
      var (src, dest) := a[0];
      if src == dest {
        RenameAllAppend(names, a[1..], b);
      } else if src in names {
        RenameAllAppend(names - {src} + {dest}, a[1..], b);
      }
    } else {
      assert a + b == b;
    }
  }

  /** The run stops at the first rename that fails: nothing after it
      happens. */
  lemma {:induction false} StopsAtFailure(names: set<string>, entries: seq<(string, string)>, i: nat)
    requires i < |entries| && RenameAll(names, entries[..i]).1
    requires entries[i].0 != entries[i].1 && entries[i].0 !in RenameAll(names, entries[..i]).0
    ensures RenameAll(names, entries) == (RenameAll(names, entries[..i]).0, false)
  {
    assert entries == entries[..i] + entries[i..];
    RenameAllAppend(names, entries[..i], entries[i..]);
  }

  /** Pairs whose new name equals the old one change nothing. */
  lemma {:induction false} NoOpsChangeNothing(names: set<string>, entries: seq<(string, string)>)
    requires forall i :: 0 <= i < |entries| ==> entries[i].0 == entries[i].1
    ensures RenameAll(names, entries) == (names, true)
    decreases |entries|
  {
    if entries != [] {
      NoOpsChangeNothing(names, entries[1..]);
    }
  }

  /** `renameEntries`. */
  method RenameEntries(fs: FileSystem, entriesList: seq<(string, string)>) returns (ok: bool)
    modifies fs
    ensures (fs.names, ok) == RenameAll(old(fs.names), entriesList)
  {
    var i := 0;
    while i < |entriesList|
      invariant 0 <= i <= |entriesList|
      invariant RenameAll(old(fs.names), entriesList) == RenameAll(fs.names, entriesList[i..])
    {
      var (src, dest) := entriesList[i];
      assert entriesList[i..][1..] == entriesList[i + 1..];
      if src == dest {
        i := i + 1;
        continue;
      }
      ok := fs.Rename(src, dest);
      if !ok {
        return;
      }
      i := i + 1;
    }
    return true;
  }

  /** `main` once the options are accepted: the names are sorted, the
      default texts applied, the new names computed and the files renamed.
      `names` is the listing of the directory (or of the whole tree with
      `-r`). */
  method Process(fs: FileSystem, o: Options, names: set<string>) returns (srcList: seq<string>, ok: bool)
    modifies fs
    ensures StringOrder.Sorted(srcList) && (forall n :: n in srcList <==> n in names)
    ensures var (oldText, newText) := Defaults(o);
      if oldText.Some? && newText.Some? then
        (fs.names, ok) == RenameAll(old(fs.names), Entries(srcList, oldText.value, newText.value, o.tracklist))
      else ok == (names == {}) && fs.names == old(fs.names)
  {
    srcList := StringOrder.SortSet(names);
    var (srcString, dstString) := Defaults(o);
    var entriesList := ReplacePatterns(srcList, srcString, dstString, o.tracklist);
    if entriesList.Err? {
      assert names != {} by { assert srcList[0] in names; }
      return srcList, false;
    }
    if srcString.None? || dstString.None? {
      assert |names| == 0;
    }
    ok := RenameEntries(fs, entriesList.value);
  }
}
