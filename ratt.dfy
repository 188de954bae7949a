/** `ratt` (rename according to time): every file of a directory is renamed
    to the stamp of its time, optionally shifted by whole hours; files whose
    stamps coincide get a counter before the extension. The file's time comes
    in already broken down into local civil time. */
module Ratt {
  import opened Results
  import opened Digits
  import opened Civil
  import Strings
  import Paths
  import opened FileSys

  /** The `--offset_hour` value: absent means 0, and text that `int()`
      rejects falls back to 0 as well. */
  function SanitiseOffset(offset: Option<string>): (r: int)
    ensures r != 0 ==> offset.Some? && ParseInt(offset.value) == Some(r)
    ensures offset.Some? && ParseInt(offset.value).Some? ==> r == ParseInt(offset.value).value
  {
    if offset.None? then 0
    else match ParseInt(offset.value)
      case None => 0
      case Some(i) => i
  }

  /** Any integer written out is accepted as the offset. */
  lemma {:induction false} SanitiseOffsetAccepts(i: int)
    ensures SanitiseOffset(Some(IntToString(i))) == i
  {
    ParseIntRoundTrip(i);
  }

  /** The cases of the original test suite: "9" is taken, "a" and "2.3"
      fall back to 0. */
  lemma {:induction false} SanitiseOffsetExamples()
    ensures SanitiseOffset(None) == 0
    ensures SanitiseOffset(Some("9")) == 9
    ensures SanitiseOffset(Some("a")) == 0
    ensures SanitiseOffset(Some("2.3")) == 0
  {
    SanitiseOffsetAccepts(9);
    assert IntToString(9) == "9";
    Rejected("a", 0);
    Rejected("2.3", 1);
  }

  /** Text without white space at its ends, with a character at `i` that is
      neither a digit nor a leading sign, is rejected. */
  lemma {:induction false} Rejected(s: string, i: int)
    requires 0 <= i < |s| && !IsDigit(s[i]) && (i > 0 || (s[0] != '-' && s[0] != '+'))
    requires !Strings.IsWhitespace(s[0]) && !Strings.IsWhitespace(s[|s| - 1])
    ensures SanitiseOffset(Some(s)) == 0
  {
    StripsToItself(s);
    var body := if s[0] == '-' || s[0] == '+' then s[1..] else s;
    if i > 0 && body != s {
      assert body[i - 1] == s[i];
    }
  }

  lemma {:induction false} StripsToItself(s: string)
    requires s != [] && !Strings.IsWhitespace(s[0]) && !Strings.IsWhitespace(s[|s| - 1])
    ensures Strings.Strip(s) == s
  {
    Strings.StripTrailing(s, "");
    assert s + "" == s;
  }

  /** `get_date_time_string`: the stamp of the time shifted by the offset
      (no shift for offset 0); `Err` is the `OverflowError` of a shift out of
      the years 1..9999. */
  function DateTimeString(t: DateTime, hourOffset: int): (r: Result<string>)
    requires Valid(t)
    ensures hourOffset == 0 ==> r == Ok(Stamp(t))
    ensures r.Ok? <==> ShiftHours(t, hourOffset).Some?
    ensures r.Ok? ==> GoodKey(r.value)
  {
    if hourOffset == 0 then
      StampPlain(t);
      StampShaped(t);
      Ok(Stamp(t))
    else
      match ShiftHours(t, hourOffset)
      case None => Err("OverflowError: date value out of range")
      case Some(u) =>
        StampPlain(u);
        StampShaped(u);
        Ok(Stamp(u))
  }

  /** A stamp used as a group key: stamp-shaped and free of '.' and '/'. */
  predicate GoodKey(k: string) {
    IsStampShaped(k) && '.' !in k && '/' !in k
  }

  /** The stamp shows the shifted time: the hour moves by the offset modulo
      24, the date by the number of midnights crossed, and the day of the week
      with it. */
  lemma {:induction false} DateTimeStringShows(t: DateTime, hourOffset: int)
    requires Valid(t) && DateTimeString(t, hourOffset).Ok?
    ensures var days := (t.hour + hourOffset) / 24;
      var d := AddDays(t.date, days);
      ParseStamp(DateTimeString(t, hourOffset).value) ==
        Some(StampFields(d.year, d.month, d.day, DAYS_OF_WEEK[(Weekday(t.date) + days) % 7],
                         (t.hour + hourOffset) % 24, t.minute, t.second))
  {
    var days := (t.hour + hourOffset) / 24;
    var u := ShiftHours(t, hourOffset).value;
    assert u == DateTime(AddDays(t.date, days), (t.hour + hourOffset) % 24, t.minute, t.second);
    assert DateTimeString(t, hourOffset) == Ok(Stamp(u));
    ShiftWeekday(t, hourOffset);
    StampRoundTrip(u);
  }

  /** The four cases of the original test suite: 2011-02-03 is a Thursday,
      and a shift across midnight moves the day of the week as well. */
  lemma {:induction false} DateTimeStringExamples()
    ensures DateTimeString(DateTime(Date(2011, 2, 3), 4, 5, 6), 0) == Ok("2011-02-03-thu-04-05-06")
    ensures DateTimeString(DateTime(Date(2011, 2, 3), 1, 5, 6), 3) == Ok("2011-02-03-thu-04-05-06")
    ensures DateTimeString(DateTime(Date(2011, 2, 3), 1, 5, 6), -3) == Ok("2011-02-02-wed-22-05-06")
    ensures DateTimeString(DateTime(Date(2011, 2, 3), 20, 5, 6), 9) == Ok("2011-02-04-fri-05-05-06")
  {
    StampThursday();
    StampWednesday();
    StampFriday();
    var t := DateTime(Date(2011, 2, 3), 1, 5, 6);
    assert ShiftHours(t, 3) == Some(DateTime(Date(2011, 2, 3), 4, 5, 6));
    assert ShiftHours(t, -3) == Some(DateTime(Date(2011, 2, 2), 22, 5, 6));
    assert ShiftHours(DateTime(Date(2011, 2, 3), 20, 5, 6), 9) == Some(DateTime(Date(2011, 2, 4), 5, 5, 6));
  }

  lemma {:induction false} StampThursday()
    ensures Stamp(DateTime(Date(2011, 2, 3), 4, 5, 6)) == "2011-02-03-thu-04-05-06"
  {
    var t := DateTime(Date(2011, 2, 3), 4, 5, 6);
    assert Stamp(t) == "2011" + StampTail("02", "03", "thu", "04", "05", "06") by {
      ExampleFields();
      assert DAYS_OF_WEEK[3] == "thu";
    }
    ExampleTail("03", "thu", "04");
    ThursdayText();
  }

  lemma {:induction false} StampWednesday()
    ensures Stamp(DateTime(Date(2011, 2, 2), 22, 5, 6)) == "2011-02-02-wed-22-05-06"
  {
    var t := DateTime(Date(2011, 2, 2), 22, 5, 6);
    assert Stamp(t) == "2011" + StampTail("02", "02", "wed", "22", "05", "06") by {
      ExampleFields();
      assert DAYS_OF_WEEK[2] == "wed";
    }
    ExampleTail("02", "wed", "22");
    WednesdayText();
  }

  lemma {:induction false} StampFriday()
    ensures Stamp(DateTime(Date(2011, 2, 4), 5, 5, 6)) == "2011-02-04-fri-05-05-06"
  {
    var t := DateTime(Date(2011, 2, 4), 5, 5, 6);
    assert Stamp(t) == "2011" + StampTail("02", "04", "fri", "05", "05", "06") by {
      ExampleFields();
      assert DAYS_OF_WEEK[4] == "fri";
    }
    ExampleTail("04", "fri", "05");
    FridayText();
  }

  lemma {:induction false} ExampleFields()
    ensures IntToString(2011) == "2011"
    ensures Weekday(Date(2011, 2, 2)) == 2 && Weekday(Date(2011, 2, 3)) == 3 && Weekday(Date(2011, 2, 4)) == 4
    ensures Pad2(2) == "02" && Pad2(3) == "03" && Pad2(4) == "04" && Pad2(5) == "05"
    ensures Pad2(6) == "06" && Pad2(22) == "22"
  {
    ExampleYear();
    ExampleWeekdays();
  }

  lemma {:induction false} ThursdayText()
    ensures "2011" + ("-02-" + "03" + "-" + "thu" + "-" + "04" + "-05-06") == "2011-02-03-thu-04-05-06"
  {
  }

  lemma {:induction false} WednesdayText()
    ensures "2011" + ("-02-" + "02" + "-" + "wed" + "-" + "22" + "-05-06") == "2011-02-02-wed-22-05-06"
  {
  }

  lemma {:induction false} FridayText()
    ensures "2011" + ("-02-" + "04" + "-" + "fri" + "-" + "05" + "-05-06") == "2011-02-04-fri-05-05-06"
  {
  }

  lemma {:induction false} ExampleTail(d: string, w: string, h: string)
    requires |d| == 2 && |w| == 3 && |h| == 2
    ensures StampTail("02", d, w, h, "05", "06") == "-02-" + d + "-" + w + "-" + h + "-05-06"
  {
  }

  lemma {:induction false} ExampleYear()
    ensures IntToString(2011) == "2011"
  {
  }

  lemma {:induction false} ExampleWeekdays()
    ensures Weekday(Date(2011, 2, 2)) == 2 && Weekday(Date(2011, 2, 3)) == 3 && Weekday(Date(2011, 2, 4)) == 4
  {
    February2011(2);
    February2011(3);
    February2011(4);
  }

  /** February 2011 began on a Tuesday. */
  lemma {:induction false} February2011(day: int)
    requires 1 <= day <= 28
    ensures Weekday(Date(2011, 2, day)) == day % 7
  {
    assert DaysBeforeYear(2011) == 734137;
    assert DaysBeforeMonth(2011, 2) == 31;
    assert DayNumber(Date(2011, 2, day)) == 734167 + day;
  }

  /** A directory entry as `get_new_file_names` sees it: its name, whether it
      is a directory, and its time (modification time or EXIF) as local civil
      time. */
  datatype Entry = Entry(name: string, isDir: bool, time: DateTime)

  /** The entries that are not directories, in order. */
  function Files(entries: seq<Entry>): (r: seq<Entry>)
    ensures |r| <= |entries|
    ensures forall e :: e in r <==> e in entries && !e.isDir
  {
    if entries == [] then []
    else
      var last := entries[|entries| - 1];
      var init := entries[..|entries| - 1];
      assert entries == init + [last];
      if last.isDir then Files(init) else Files(init) + [last]
  }

  /** `get_new_file_names`: one (stamp, name) pair per file, in order,
      directories skipped. */
  function NewFileNames(entries: seq<Entry>, hourOffset: int): (r: Result<seq<(string, string)>>)
    requires forall e :: e in entries ==> Valid(e.time)
    ensures r.Ok? ==> forall i :: 0 <= i < |r.value| ==> GoodKey(r.value[i].0)
  {
    if entries == [] then Ok([])
    else
      var last := entries[|entries| - 1];
      var init := entries[..|entries| - 1];
      assert last in entries;
      match NewFileNames(init, hourOffset)
      case Err(e) => Err(e)
      case Ok(pairs) =>
        if last.isDir then Ok(pairs)
        else match DateTimeString(last.time, hourOffset)
          case Err(e) => Err(e)
          case Ok(dt) => Ok(pairs + [(dt, last.name)])
  }

  /** The pairs succeed exactly when every file's stamp does; then there is
      one pair per file, in order, holding the file's name and its stamp. */
  lemma {:induction false} NewFileNamesSpec(entries: seq<Entry>, hourOffset: int)
    requires forall e :: e in entries ==> Valid(e.time)
    ensures var r := NewFileNames(entries, hourOffset);
      && (r.Ok? <==> forall e :: e in Files(entries) ==> DateTimeString(e.time, hourOffset).Ok?)
      && (r.Ok? ==> |r.value| == |Files(entries)|)
      && (r.Ok? ==> forall i :: 0 <= i < |r.value| ==>
            r.value[i].1 == Files(entries)[i].name &&
            Ok(r.value[i].0) == DateTimeString(Files(entries)[i].time, hourOffset))
  {
    NewFileNamesOk(entries, hourOffset);
    if NewFileNames(entries, hourOffset).Ok? {
      NewFileNamesPairs(entries, hourOffset);
    }
  }

  lemma {:induction false} NewFileNamesOk(entries: seq<Entry>, hourOffset: int)
    requires forall e :: e in entries ==> Valid(e.time)
    ensures NewFileNames(entries, hourOffset).Ok? <==> forall e :: e in Files(entries) ==> DateTimeString(e.time, hourOffset).Ok?
  {
    if entries != [] {
      var last := entries[|entries| - 1];
      var init := entries[..|entries| - 1];
      assert entries == init + [last];
      NewFileNamesOk(init, hourOffset);
      FilesSnoc(entries);
    }
  }

  lemma {:induction false} NewFileNamesPairs(entries: seq<Entry>, hourOffset: int)
    requires forall e :: e in entries ==> Valid(e.time)
    requires NewFileNames(entries, hourOffset).Ok?
    ensures var pairs, files := NewFileNames(entries, hourOffset).value, Files(entries);
      && |pairs| == |files|
      && (forall i :: 0 <= i < |pairs| ==> pairs[i].1 == files[i].name && Ok(pairs[i].0) == DateTimeString(files[i].time, hourOffset))
  {
    if entries != [] {
      var last := entries[|entries| - 1];
      var init := entries[..|entries| - 1];
      assert last in entries;
      var prev := NewFileNames(init, hourOffset);
      assert prev.Ok?;
      NewFileNamesPairs(init, hourOffset);
      FilesSnoc(entries);
      if !last.isDir {
        var dt := DateTimeString(last.time, hourOffset).value;
        var pairs := prev.value + [(dt, last.name)];
        assert NewFileNames(entries, hourOffset).value == pairs;
        var files := Files(init) + [last];
        forall i | 0 <= i < |pairs|
          ensures pairs[i].1 == files[i].name && Ok(pairs[i].0) == DateTimeString(files[i].time, hourOffset)
        {
          if i < |prev.value| {
            assert pairs[i] == prev.value[i] && files[i] == Files(init)[i];
          }
        }
      }
    }
  }

  lemma {:induction false} FilesSnoc(entries: seq<Entry>)
    requires entries != []
    ensures var last, init := entries[|entries| - 1], entries[..|entries| - 1];
      Files(entries) == if last.isDir then Files(init) else Files(init) + [last]
  {
  }

  /** The names paired with key `k`, in order. */
  function Group(pairs: seq<(string, string)>, k: string): (r: seq<string>)
    ensures |r| <= |pairs|
  {
    if pairs == [] then []
    else
      var init := Group(pairs[..|pairs| - 1], k);
      if pairs[|pairs| - 1].0 == k then init + [pairs[|pairs| - 1].1] else init
  }

  lemma {:induction false} GroupMembers(pairs: seq<(string, string)>, k: string, x: string)
    ensures x in Group(pairs, k) <==> (k, x) in pairs
  {
    if pairs != [] {
      var init := pairs[..|pairs| - 1];
      GroupMembers(init, k, x);
      assert pairs == init + [pairs[|pairs| - 1]];
    }
  }

  /** When the names are distinct, a name sits in exactly one group: the one
      of its own stamp. */
  lemma {:induction false} ExactlyOneGroup(pairs: seq<(string, string)>, i: int, k: string)
    requires 0 <= i < |pairs|
    requires forall a, b :: 0 <= a < b < |pairs| ==> pairs[a].1 != pairs[b].1
    ensures pairs[i].1 in Group(pairs, k) <==> k == pairs[i].0
  {
    GroupMembers(pairs, k, pairs[i].1);
    if pairs[i].1 in Group(pairs, k) {
      var j :| 0 <= j < |pairs| && pairs[j] == (k, pairs[i].1);
      assert i == j;
    }
  }

  /** `get_file_rename_data`: a dictionary from each stamp to the names that
      carry it, in their original order. */
  method GetFileRenameData(pairs: seq<(string, string)>) returns (data: map<string, seq<string>>)
    ensures data.Keys == set i | 0 <= i < |pairs| :: pairs[i].0
    ensures forall k :: k in data ==> data[k] == Group(pairs, k) && data[k] != []
  {
    data := map[];
    var i := 0;
    while i < |pairs|
      invariant 0 <= i <= |pairs|
      invariant data.Keys == set j | 0 <= j < i :: pairs[j].0
      invariant forall k :: k in data ==> data[k] == Group(pairs[..i], k) && data[k] != []
      invariant forall k :: k !in data ==> Group(pairs[..i], k) == []
    {
      var (dtFileName, currFileName) := pairs[i];
      assert pairs[..i + 1][..i] == pairs[..i];
      if dtFileName in data {
        data := data[dtFileName := data[dtFileName] + [currFileName]];
      } else {
        data := data[dtFileName := [currFileName]];
      }
      i := i + 1;
    }
    assert pairs[..i] == pairs;
  }

  /** The new name of the `counter`-th file of a group of `size`: the stamp,
      a counter when the group has more than one file, and the extension of
      the old name. */
  function TargetName(dt: string, size: nat, counter: nat, name: string): string {
    var ext := Paths.Splitext(name).1;
    if size > 1 then dt + "-" + IntToString(counter) + ext else dt + ext
  }

  /** The new name keeps the extension of the old one. */
  lemma {:induction false} TargetKeepsExtension(dt: string, size: nat, counter: nat, name: string)
    requires GoodKey(dt)
    ensures Paths.Splitext(TargetName(dt, size, counter, name)).1 == Paths.Splitext(name).1
  {
    var ext := Paths.Splitext(name).1;
    var stem := if size > 1 then dt + "-" + IntToString(counter) else dt;
    NoSeparatorInDigits(IntToString(counter));
    assert stem[0] == dt[0] != '.';
    SplitextOfStemAndExtension(stem, ext);
    assert TargetName(dt, size, counter, name) == stem + ext;
  }

  lemma {:induction false} SplitextOfStemAndExtension(stem: string, ext: string)
    requires stem != [] && stem[0] != '.' && '.' !in stem && '/' !in stem
    requires ext == [] || (ext[0] == '.' && '.' !in ext[1..] && '/' !in ext)
    ensures Paths.Splitext(stem + ext) == (stem, ext)
  {
    var p := stem + ext;
    assert '/' !in p;
    forall i | 0 <= i < |p| ensures p[i] != '/' {
      assert p[i] in p;
    }
    assert Strings.RFind(p, '/') == -1;
    if ext == [] {
      assert p == stem;
      forall i | 0 <= i < |p| ensures p[i] != '.' {
        assert stem[i] in stem;
      }
      assert Strings.RFind(p, '.') == -1;
    } else {
      forall i | |stem| < i < |p| ensures p[i] != '.' {
        assert p[i] == ext[1..][i - |stem| - 1];
        assert ext[1..][i - |stem| - 1] in ext[1..];
      }
      assert p[|stem|] == '.';
      assert Strings.RFind(p, '.') == |stem|;
      assert p[0] != '.';
      assert p[..|stem|] == stem && p[|stem|..] == ext;
    }
  }

  /** The renames of one group, in order: (old name, new name). */
  function GroupPlan(dt: string, names: seq<string>): (r: seq<(string, string)>)
    ensures |r| == |names|
    ensures forall i :: 0 <= i < |r| ==> r[i] == (names[i], TargetName(dt, |names|, i + 1, names[i]))
  {
    seq(|names|, i requires 0 <= i < |names| => (names[i], TargetName(dt, |names|, i + 1, names[i])))
  }

  /** All renames, group after group in the order `order` visits the keys
      (the dictionary's iteration order, which Python leaves unspecified). */
  function Plan(data: map<string, seq<string>>, order: seq<string>): seq<(string, string)>
    requires forall k :: k in order ==> k in data
  {
    if order == [] then [] else GroupPlan(order[0], data[order[0]]) + Plan(data, order[1..])
  }

  /** Each planned rename is the rename of one file of one visited group, and
      every file of every visited group is renamed. */
  lemma {:induction false} PlanCovers(data: map<string, seq<string>>, order: seq<string>, src: string, dst: string)
    requires forall k :: k in order ==> k in data
    ensures (src, dst) in Plan(data, order) <==>
      exists k, i :: k in order && 0 <= i < |data[k]| && src == data[k][i] &&
        dst == TargetName(k, |data[k]|, i + 1, src)
  {
    if order != [] {
      PlanCovers(data, order[1..], src, dst);
      var g := GroupPlan(order[0], data[order[0]]);
      if (src, dst) in g {
        var i :| 0 <= i < |g| && g[i] == (src, dst);
        assert order[0] in order && 0 <= i < |data[order[0]]|;
      }
      if exists k, i :: k in order && 0 <= i < |data[k]| && src == data[k][i] &&
          dst == TargetName(k, |data[k]|, i + 1, src) {
        var k, i :| k in order && 0 <= i < |data[k]| && src == data[k][i] &&
          dst == TargetName(k, |data[k]|, i + 1, src);
        if k == order[0] {
          assert g[i] == (src, dst);
        } else {
          assert k in order[1..];
        }
      }
    }
  }

  predicate DistinctTargets(plan: seq<(string, string)>) {
    forall a, b :: 0 <= a < b < |plan| ==> plan[a].1 != plan[b].1
  }

  /** The counters of one group give its files different names. */
  lemma {:induction false} GroupTargetsDistinct(dt: string, names: seq<string>)
    requires GoodKey(dt)
    ensures DistinctTargets(GroupPlan(dt, names))
  {
    var g := GroupPlan(dt, names);
    forall a, b | 0 <= a < b < |g| ensures g[a].1 != g[b].1 {
      GroupPairDiffers(dt, names, a, b);
    }
  }

  lemma {:induction false} GroupPairDiffers(dt: string, names: seq<string>, a: int, b: int)
    requires 0 <= a < b < |names|
    ensures GroupPlan(dt, names)[a].1 != GroupPlan(dt, names)[b].1
  {
    CountersDiffer(dt, |names|, a + 1, b + 1, names[a], names[b]);
  }

  lemma {:induction false} CountersDiffer(dt: string, size: nat, c1: nat, c2: nat, n1: string, n2: string)
    requires size > 1 && c1 != c2
    ensures TargetName(dt, size, c1, n1) != TargetName(dt, size, c2, n2)
  {
    var e1, e2 := Paths.Splitext(n1).1, Paths.Splitext(n2).1;
    var d1, d2 := IntToString(c1), IntToString(c2);
    var x := dt + "-";
    assert TargetName(dt, size, c1, n1) == x + (d1 + e1);
    assert TargetName(dt, size, c2, n2) == x + (d2 + e2);
    if x + (d1 + e1) == x + (d2 + e2) {
      assert d1 + e1 == (x + (d1 + e1))[|x|..];
      assert d2 + e2 == (x + (d2 + e2))[|x|..];
      DigitsBeforeExtension(d1, e1, d2, e2);
      NatToStringInjective(c1, c2);
    }
  }

  /** A run of digits followed by an extension splits in one way only. */
  lemma {:induction false} DigitsBeforeExtension(a: string, x: string, b: string, y: string)
    requires AllDigits(a) && AllDigits(b)
    requires x == [] || x[0] == '.'
    requires y == [] || y[0] == '.'
    requires a + x == b + y
    ensures a == b
  {
    assert a == (a + x)[..|a|];
    assert b == (b + y)[..|b|];
  }

  /** Every planned new name starts with the key of its group; `m` is that
      group's place in `order`. */
  lemma {:induction false} PlanTargetsStartWithKeys(data: map<string, seq<string>>, order: seq<string>, j: int)
    returns (m: int)
    requires forall k :: k in order ==> k in data
    requires 0 <= j < |Plan(data, order)|
    ensures 0 <= m < |order| && Strings.StartsWith(Plan(data, order)[j].1, order[m])
  {
    var g := GroupPlan(order[0], data[order[0]]);
    assert Plan(data, order) == g + Plan(data, order[1..]);
    if j < |g| {
      var k := order[0];
      assert Plan(data, order)[j] == g[j];
      TargetStartsWithKey(k, |data[k]|, j + 1, data[k][j]);
      m := 0;
    } else {
      var m' := PlanTargetsStartWithKeys(data, order[1..], j - |g|);
      assert Plan(data, order)[j] == Plan(data, order[1..])[j - |g|];
      assert order[1..][m'] == order[m' + 1];
      m := m' + 1;
    }
  }

  /** With distinct stamp keys, no two planned renames have the same target. */
  lemma {:induction false} PlanTargetsDistinct(data: map<string, seq<string>>, order: seq<string>)
    requires forall k :: k in order ==> k in data && GoodKey(k)
    requires forall a, b :: 0 <= a < b < |order| ==> order[a] != order[b]
    ensures DistinctTargets(Plan(data, order))
  {
    if order != [] {
      var k := order[0];
      var g := GroupPlan(k, data[k]);
      var rest := Plan(data, order[1..]);
      PlanTargetsDistinct(data, order[1..]);
      GroupTargetsDistinct(k, data[k]);
      var p := Plan(data, order);
      assert p == g + rest;
      forall a, b | 0 <= a < b < |p| ensures p[a].1 != p[b].1 {
        if a < |g| && b >= |g| {
          assert p[a] == g[a] && p[b] == rest[b - |g|];
          CrossGroupTargets(data, order, a, b - |g|);
        } else if a >= |g| {
          assert p[a] == rest[a - |g|] && p[b] == rest[b - |g|];
        }
      }
    }
  }

  /** A file of the first visited group and a file of a later group get
      different names, because the names start with different stamps. */
  lemma {:induction false} CrossGroupTargets(data: map<string, seq<string>>, order: seq<string>, a: int, b: int)
    requires forall k :: k in order ==> k in data && GoodKey(k)
    requires forall a, b :: 0 <= a < b < |order| ==> order[a] != order[b]
    requires order != [] && 0 <= a < |data[order[0]]| && 0 <= b < |Plan(data, order[1..])|
    ensures GroupPlan(order[0], data[order[0]])[a].1 != Plan(data, order[1..])[b].1
  {
    var k := order[0];
    var t := GroupPlan(k, data[k])[a].1;
    TargetStartsWithKey(k, |data[k]|, a + 1, data[k][a]);
    var m := PlanTargetsStartWithKeys(data, order[1..], b);
    var k' := order[1..][m];
    assert k' == order[m + 1] && k' in order;
    assert k != k' by {
      assert 0 < m + 1 < |order|;
    }
    KeysSeparateNames(k, k', t, Plan(data, order[1..])[b].1);
  }

  /** Names that start with different stamp keys differ. */
  lemma {:induction false} KeysSeparateNames(k: string, k': string, t: string, u: string)
    requires GoodKey(k) && GoodKey(k') && k != k'
    requires Strings.StartsWith(t, k) && Strings.StartsWith(u, k')
    ensures t != u
  {
    if t == u {
      assert t == k + t[|k|..] by {
        assert t == t[..|k|] + t[|k|..];
      }
      assert u == k' + u[|k'|..] by {
        assert u == u[..|k'|] + u[|k'|..];
      }
      Civil.StampPrefixUnique(k, t[|k|..], k', u[|k'|..]);
    }
  }

  /** A new name starts with its group's key. */
  lemma {:induction false} TargetStartsWithKey(dt: string, size: nat, counter: nat, name: string)
    ensures Strings.StartsWith(TargetName(dt, size, counter, name), dt)
  {
    var ext := Paths.Splitext(name).1;
    var rest := if size > 1 then "-" + IntToString(counter) + ext else ext;
    assert TargetName(dt, size, counter, name) == dt + rest by {
      if size > 1 {
        Strings.AppendAssoc(dt, "-" + IntToString(counter), ext);
        Strings.AppendAssoc(dt, "-", IntToString(counter));
      }
    }
    assert (dt + rest)[..|dt|] == dt;
  }

  /** Carrying out `plan` on a file system holding `names`: the names
      afterwards, and whether every step went through. An existing target
      ends the run (`sys.exit(1)`); without confirmation nothing is renamed;
      a missing source ends it with `os.rename`'s `OSError`. */
  function Exec(names: set<string>, plan: seq<(string, string)>, confirm: bool): (set<string>, bool)
    decreases |plan|
  {
    if plan == [] then (names, true)
    else
      var (src, dst) := plan[0];
      if dst in names then (names, false)
      else if !confirm then Exec(names, plan[1..], confirm)
      else if src !in names then (names, false)
      else Exec(names - {src} + {dst}, plan[1..], confirm)
  }

  /** Running a plan is running its first step and then, if that went
      through, the rest. */
  lemma {:induction false} ExecCons(names: set<string>, step: (string, string), rest: seq<(string, string)>, confirm: bool)
    ensures Exec(names, [step] + rest, confirm) ==
      var (names', ok) := Exec(names, [step], confirm);
      if ok then Exec(names', rest, confirm) else (names', false)
  {
    assert ([step] + rest)[1..] == rest;
    assert [step][1..] == [];
  }

  /** Without confirmation nothing is renamed. */
  lemma {:induction false} ExecDryRun(names: set<string>, plan: seq<(string, string)>)
    ensures Exec(names, plan, false).0 == names
    decreases |plan|
  {
    if plan != [] {
      ExecDryRun(names, plan[1..]);
    }
  }

  function Sources(plan: seq<(string, string)>): set<string> {
    set i | 0 <= i < |plan| :: plan[i].0
  }

  function Targets(plan: seq<(string, string)>): set<string> {
    set i | 0 <= i < |plan| :: plan[i].1
  }

  /** With confirmation, distinct existing sources and distinct targets that
      do not exist yet, every rename goes through: the sources are replaced
      by the targets. */
  lemma {:induction false} ExecRenamesAll(names: set<string>, plan: seq<(string, string)>)
    requires forall a, b :: 0 <= a < b < |plan| ==> plan[a].0 != plan[b].0
    requires DistinctTargets(plan)
    requires forall i :: 0 <= i < |plan| ==> plan[i].0 in names && plan[i].1 !in names
    ensures Exec(names, plan, true) == (names - Sources(plan) + Targets(plan), true)
    decreases |plan|
  {
    if plan != [] {
      var (src, dst) := plan[0];
      var names' := names - {src} + {dst};
      var rest := plan[1..];
      forall i | 0 <= i < |rest| ensures rest[i].0 in names' && rest[i].1 !in names' {
        assert rest[i] == plan[i + 1];
      }
      assert Exec(names, plan, true) == Exec(names', rest, true);
      ExecRenamesAll(names', rest);
      var srcs, dsts := Sources(plan), Targets(plan);
      var srcs', dsts' := Sources(rest), Targets(rest);
      assert srcs == {src} + srcs' by {
        forall x | x in srcs ensures x in {src} + srcs' {
          var i :| 0 <= i < |plan| && plan[i].0 == x;
          if i > 0 { assert rest[i - 1] == plan[i]; }
        }
        forall x | x in srcs' ensures x in srcs {
          var i :| 0 <= i < |rest| && rest[i].0 == x;
          assert plan[i + 1] == rest[i];
        }
      }
      assert dsts == {dst} + dsts' by {
        forall x | x in dsts ensures x in {dst} + dsts' {
          var i :| 0 <= i < |plan| && plan[i].1 == x;
          if i > 0 { assert rest[i - 1] == plan[i]; }
        }
        forall x | x in dsts' ensures x in dsts {
          var i :| 0 <= i < |rest| && rest[i].1 == x;
          assert plan[i + 1] == rest[i];
        }
      }
      assert src !in srcs' && dst !in srcs';
      assert names' - srcs' + dsts' == names - srcs + dsts;
      assert Exec(names', rest, true) == (names' - srcs' + dsts', true);
    } else {
      assert Sources(plan) == {} && Targets(plan) == {};
      assert names - Sources(plan) + Targets(plan) == names;
    }
  }

  /** `do_rename`: refuses (and ends the run) when the target exists, and
      renames only with confirmation. */
  method DoRename(fs: FileSystem, oldName: string, newName: string, confirmation: bool) returns (ok: bool)
    modifies fs
    ensures (fs.names, ok) == Exec(old(fs.names), [(oldName, newName)], confirmation)
  {
    assert [(oldName, newName)][1..] == [];
    if fs.Exists(newName) {
      return false;
    }
    ok := true;
    if confirmation {
      ok := fs.Rename(oldName, newName);
    }
  }

  /** `rename_according_to_time_and_date`: visits the groups in `order`,
      the iteration order of `data.items()` (every key exactly once), and
      renames each file of a group with a counter running from 1. */
  method RenameAccordingToTimeAndDate(fs: FileSystem, data: map<string, seq<string>>, order: seq<string>,
                                      confirmation: bool) returns (ok: bool)
    requires forall k :: k in order <==> k in data
    requires forall a, b :: 0 <= a < b < |order| ==> order[a] != order[b]
    modifies fs
    ensures (fs.names, ok) == Exec(old(fs.names), Plan(data, order), confirmation)
  {
    ok := true;
    var i := 0;
    while i < |order|
      invariant 0 <= i <= |order|
      invariant Exec(old(fs.names), Plan(data, order), confirmation) ==
        Exec(fs.names, Plan(data, order[i..]), confirmation)
    {
      var dtFileName := order[i];
      var currFileNames := data[dtFileName];
      ghost var g := GroupPlan(dtFileName, currFileNames);
      ghost var after := Plan(data, order[i + 1..]);
      PlanUnfold(data, order, i);
      var counter := 0;
      while counter < |currFileNames|
        invariant 0 <= counter <= |currFileNames|
        invariant Exec(old(fs.names), Plan(data, order), confirmation) ==
          Exec(fs.names, g[counter..] + after, confirmation)
      {
        counter := counter + 1;
        var currFileName := currFileNames[counter - 1];
        var newName := TargetName(dtFileName, |currFileNames|, counter, currFileName);
        ghost var before := fs.names;
        SliceCons(g, counter - 1, after);
        ExecCons(before, (currFileName, newName), g[counter..] + after, confirmation);
        ok := DoRename(fs, currFileName, newName, confirmation);
        if !ok {
          return;
        }
      }
      assert g[counter..] + after == after;
      i := i + 1;
    }
  }

  lemma {:induction false} PlanUnfold(data: map<string, seq<string>>, order: seq<string>, i: int)
    requires forall k :: k in order ==> k in data
    requires 0 <= i < |order|
    ensures Plan(data, order[i..]) == GroupPlan(order[i], data[order[i]])[0..] + Plan(data, order[i + 1..])
  {
    assert order[i..][1..] == order[i + 1..];
    var g := GroupPlan(order[i], data[order[i]]);
    assert g[0..] == g;
  }

  lemma {:induction false} SliceCons<T>(g: seq<T>, c: int, after: seq<T>)
    requires 0 <= c < |g|
    ensures g[c..] + after == [g[c]] + (g[c + 1..] + after)
  {
  }
}
