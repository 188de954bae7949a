/** The older renaming script: every file of a directory gets the stamp of
    its modification time followed by the lower-cased last four characters of
    its old name; files whose new names coincide get a two-digit counter. The
    counter is placed by splitting the new name at its dots, which is where
    this script goes wrong (see `AsWrittenLosesFiles`); `Naming.Corrected`
    keeps everything after the first dot instead. */
module RenameAccordingDate {
  import opened Results
  import opened Digits
  import opened Civil
  import Strings
  import opened FileSys
  import StringOrder

  /** `getNewFileName`: the stamp of the file's local modification time, then
      the last four characters of the old name (the "extension including the
      dot"), lower-cased. */
  function NewFileName(oldFileName: string, t: DateTime): (r: string)
    requires Valid(t)
    ensures Strings.StartsWith(r, Stamp(t))
    ensures |r| == |Stamp(t)| + (if |oldFileName| < 4 then |oldFileName| else 4)
  {
    Stamp(t) + Strings.Lower(Strings.LastN(oldFileName, 4))
  }

  /** What follows the stamp is lower-case and ends the lower-cased old
      name. */
  lemma {:induction false} NewFileNameTail(oldFileName: string, t: DateTime)
    requires Valid(t)
    ensures var r := NewFileName(oldFileName, t);
      Strings.IsLower(r[|Stamp(t)|..]) && Strings.EndsWith(Strings.Lower(oldFileName), r[|Stamp(t)|..])
  {
    var ext := Strings.LastN(oldFileName, 4);
    var r := NewFileName(oldFileName, t);
    assert r[|Stamp(t)|..] == Strings.Lower(ext);
    assert Strings.Lower(oldFileName)[|oldFileName| - |ext|..] == Strings.Lower(ext);
  }

  /** The example in the script's header: p7261528.jpg taken on Wednesday
      2006-07-26 at 14:32:44. */
  lemma {:induction false} NewFileNameExample()
    ensures NewFileName("P7261528.JPG", DateTime(Date(2006, 7, 26), 14, 32, 44)) == "2006-07-26-wed-14-32-44.jpg"
  {
    var t := DateTime(Date(2006, 7, 26), 14, 32, 44);
    ExampleStamp();
    assert Strings.LastN("P7261528.JPG", 4) == ".JPG";
    assert Strings.Lower(".JPG") == ".jpg";
  }

  lemma {:induction false} ExampleStamp()
    ensures Valid(DateTime(Date(2006, 7, 26), 14, 32, 44))
    ensures Stamp(DateTime(Date(2006, 7, 26), 14, 32, 44)) == "2006-07-26-wed-14-32-44"
  {
    var t := DateTime(Date(2006, 7, 26), 14, 32, 44);
    var tail := StampTail(Pad2(7), Pad2(26), "wed", Pad2(14), Pad2(32), Pad2(44));
    assert Stamp(t) == IntToString(2006) + tail by {
      ExampleWeekday();
      assert DAYS_OF_WEEK[2] == "wed";
    }
    ExampleYear();
    ExampleTail();
    ExampleStampText();
  }

  lemma {:induction false} ExampleStampText()
    ensures "2006" + "-07-26-wed-14-32-44" == "2006-07-26-wed-14-32-44"
  {
  }

  lemma {:induction false} ExampleYear()
    ensures IntToString(2006) == "2006"
  {
  }

  lemma {:induction false} ExampleWeekday()
    ensures Weekday(Date(2006, 7, 26)) == 2
  {
  }

  lemma {:induction false} ExampleTail()
    ensures StampTail(Pad2(7), Pad2(26), "wed", Pad2(14), Pad2(32), Pad2(44)) == "-07-26-wed-14-32-44"
  {
    assert Pad2(7) == "07" && Pad2(26) == "26" && Pad2(14) == "14";
    assert Pad2(32) == "32" && Pad2(44) == "44";
  }

  /** The two dictionaries of `createNewFileNames`: `dupl` counts the files
      per new name, `res` maps final new names to old names. */
  datatype State = State(dupl: map<string, nat>, res: map<string, string>)

  /** Which way a duplicate's counter is placed. */
  datatype Naming = AsWritten | Corrected

  /** As written: `new.split('.')`, keeping only the text before the first
      dot and the text between the first and the second; a name without a
      dot has no second part and raises `IndexError`. */
  function SuffixedAsWritten(nn: string, k: nat): (r: Result<string>)
    ensures r.Err? <==> '.' !in nn
  {
    var nameArray := Strings.Split(nn, '.');
    if |nameArray| < 2 then Err("IndexError: list index out of range")
    else
      assert nn[|nameArray[0]|] == '.';
      Ok(nameArray[0] + "-" + Pad2(k) + "." + nameArray[1])
  }

  /** `s` cut just before its first '.': the part without a dot, and the
      rest, which is empty or starts with the dot. */
  function SplitAtDot(s: string): (r: (string, string))
    ensures r.0 + r.1 == s
    ensures '.' !in r.0
    ensures r.1 == [] || r.1[0] == '.'
    decreases |s|
  {
    if s == [] || s[0] == '.' then ([], s)
    else
      var (a, b) := SplitAtDot(s[1..]);
      assert [s[0]] + a + b == s;
      ([s[0]] + a, b)
  }

  /** Corrected: the counter goes before the first dot and everything from
      that dot on is kept. */
  function Suffixed(nn: string, k: nat): (r: string)
    ensures |r| == |nn| + 1 + |Pad2(k)|
  {
    SplitAtDot(nn).0 + "-" + Pad2(k) + SplitAtDot(nn).1
  }

  function SuffixName(naming: Naming, nn: string, k: nat): Result<string> {
    match naming
    case AsWritten => SuffixedAsWritten(nn, k)
    case Corrected => Ok(Suffixed(nn, k))
  }

  /** A second file with the bare name moves the first one to
      the "-01" name. */
  function MoveFirst(naming: Naming, res: map<string, string>, nn: string): Result<map<string, string>> {
    if nn !in res then Ok(res)
    else
      var n1 := SuffixName(naming, nn, 1);
      if n1.Err? then Err(n1.error) else Ok((res - {nn})[n1.value := res[nn]])
  }

  /** One pass of the loop of `createNewFileNames` for the file `src` whose
      new name is `nn`. */
  function Step(naming: Naming, st: State, src: string, nn: string): Result<State> {
    var count := if nn in st.dupl then st.dupl[nn] + 1 else 1;
    var moved := MoveFirst(naming, st.res, nn);
    if moved.Err? then Err(moved.error)
    else if count == 1 then Ok(State(st.dupl[nn := count], moved.value[nn := src]))
    else
      var n := SuffixName(naming, nn, count);
      if n.Err? then Err(n.error) else Ok(State(st.dupl[nn := count], moved.value[n.value := src]))
  }

  /** The loop over (old name, new name) pairs. */
  function Fold(naming: Naming, pairs: seq<(string, string)>): Result<State> {
    if pairs == [] then Ok(State(map[], map[]))
    else
      var before := Fold(naming, pairs[..|pairs| - 1]);
      if before.Err? then before
      else Step(naming, before.value, pairs[|pairs| - 1].0, pairs[|pairs| - 1].1)
  }

  /** Each old name with its new name. */
  function Pairs(srcList: seq<(string, DateTime)>): (r: seq<(string, string)>)
    requires forall i :: 0 <= i < |srcList| ==> Valid(srcList[i].1)
    ensures |r| == |srcList|
    ensures forall i :: 0 <= i < |r| ==> r[i] == (srcList[i].0, NewFileName(srcList[i].0, srcList[i].1))
  {
    seq(|srcList|, i requires 0 <= i < |srcList| && Valid(srcList[i].1) =>
      (srcList[i].0, NewFileName(srcList[i].0, srcList[i].1)))
  }

  /** The loop after one more pass. */
  lemma {:induction false} FoldSnoc(naming: Naming, pairs: seq<(string, string)>, i: int)
    requires 0 <= i < |pairs|
    ensures Fold(naming, pairs[..i]).Err? ==> Fold(naming, pairs[..i + 1]).Err?
    ensures Fold(naming, pairs[..i]).Ok? ==>
      Fold(naming, pairs[..i + 1]) == Step(naming, Fold(naming, pairs[..i]).value, pairs[i].0, pairs[i].1)
  {
    assert pairs[..i + 1][..i] == pairs[..i];
  }

  /** Once a pass fails, the whole loop fails. */
  lemma {:induction false} FoldErrSticky(naming: Naming, pairs: seq<(string, string)>, i: int)
    requires 0 <= i <= |pairs| && Fold(naming, pairs[..i]).Err?
    ensures Fold(naming, pairs).Err?
    decreases |pairs| - i
  {
    if i < |pairs| {
      FoldSnoc(naming, pairs, i);
      FoldErrSticky(naming, pairs, i + 1);
    } else {
      assert pairs[..i] == pairs;
    }
  }

  /** `createNewFileNames`: the dictionary from final new names to old
      names; `Err` is the `IndexError` of the as-written naming. The time of
      each file is its local modification time. */
  method CreateNewFileNames(naming: Naming, srcList: seq<(string, DateTime)>) returns (r: Result<map<string, string>>)
    requires forall i :: 0 <= i < |srcList| ==> Valid(srcList[i].1)
    ensures r.Ok? <==> Fold(naming, Pairs(srcList)).Ok?
    ensures r.Ok? ==> r.value == Fold(naming, Pairs(srcList)).value.res
  {
    ghost var pairs := Pairs(srcList);
    var dupl: map<string, nat> := map[];
    var res: map<string, string> := map[];
    var i := 0;
    assert pairs[..i] == [];
    assert Fold(naming, pairs[..i]) == Ok(State(dupl, res));
    while i < |srcList|
      invariant 0 <= i <= |srcList|
      invariant Fold(naming, pairs[..i]) == Ok(State(dupl, res))
    {
      var src := srcList[i].0;
      var nn := NewFileName(src, srcList[i].1);
      assert pairs[i] == (src, nn);
      FoldSnoc(naming, pairs, i);
      assert Fold(naming, pairs[..i + 1]) == Step(naming, State(dupl, res), src, nn);
      var next := AddFile(naming, dupl, res, src, nn);
      if next.Err? {
        FoldErrSticky(naming, pairs, i + 1);
        return Err(next.error);
      }
      dupl, res := next.value.dupl, next.value.res;
      assert Fold(naming, pairs[..i + 1]) == Ok(State(dupl, res));
      i := i + 1;
      assert Fold(naming, pairs[..i]) == Ok(State(dupl, res));
    }
    assert pairs[..i] == pairs;
    r := Ok(res);
  }

  /** The body of the loop of `createNewFileNames`: counts the file, moves
      an earlier file with the bare name to the "-01" name and stores the
      file under its bare or numbered name. */
  method AddFile(naming: Naming, dupl: map<string, nat>, res: map<string, string>, src: string, nn: string)
    returns (r: Result<State>)
    ensures r == Step(naming, State(dupl, res), src, nn)
  {
    var count := if nn in dupl then dupl[nn] + 1 else 1;
    var res' := res;
    if nn in res {
      var first := SuffixName(naming, nn, 1);
      if first.Err? {
        return Err(first.error);
      }
      res' := (res - {nn})[first.value := res[nn]];
    }
    assert MoveFirst(naming, res, nn) == Ok(res');
    if count > 1 {
      var newName := SuffixName(naming, nn, count);
      if newName.Err? {
        return Err(newName.error);
      }
      res' := res'[newName.value := src];
    } else {
      res' := res'[nn := src];
    }
    r := Ok(State(dupl[nn := count], res'));
  }

  /** How many of the pairs have the new name `k`. */
  function Count(pairs: seq<(string, string)>, k: string): nat {
    if pairs == [] then 0
    else Count(pairs[..|pairs| - 1], k) + (if pairs[|pairs| - 1].1 == k then 1 else 0)
  }

  /** Lines 53-58: `dupl[nn]` is the number of files so far with that new
      name. */
  lemma {:induction false} DuplCounts(naming: Naming, pairs: seq<(string, string)>)
    requires Fold(naming, pairs).Ok?
    ensures var st := Fold(naming, pairs).value;
      forall k :: (k in st.dupl <==> Count(pairs, k) > 0) && (k in st.dupl ==> st.dupl[k] == Count(pairs, k))
  {
    if pairs != [] {
      var init := pairs[..|pairs| - 1];
      DuplCounts(naming, init);
    }
  }

  /** The loop with one more file at the end. */
  lemma {:induction false} FoldAppend(naming: Naming, pairs: seq<(string, string)>, src: string, nn: string)
    ensures Fold(naming, pairs).Err? ==> Fold(naming, pairs + [(src, nn)]).Err?
    ensures Fold(naming, pairs).Ok? ==>
      Fold(naming, pairs + [(src, nn)]) == Step(naming, Fold(naming, pairs).value, src, nn)
  {
    assert (pairs + [(src, nn)])[..|pairs|] == pairs;
  }

  /** When a second file with the new name `nn` arrives while an earlier
      one is still stored under the bare name, the earlier one moves to the
      "-01" name and the bare name is freed. */
  lemma {:induction false} MoveToFirst(naming: Naming, pairs: seq<(string, string)>, src: string, nn: string)
    requires Fold(naming, pairs).Ok? && nn in Fold(naming, pairs).value.res && Count(pairs, nn) >= 1
    requires Fold(naming, pairs + [(src, nn)]).Ok?
    ensures SuffixName(naming, nn, 1).Ok?
    ensures var n1 := SuffixName(naming, nn, 1).value;
      var before := Fold(naming, pairs).value;
      var after := Fold(naming, pairs + [(src, nn)]).value;
      n1 in after.res && after.res[n1] == before.res[nn] && nn !in after.res
  {
    var st := Fold(naming, pairs).value;
    FoldAppend(naming, pairs, src, nn);
    DuplCounts(naming, pairs);
    StepMovesFirst(naming, st, src, nn);
  }

  /** One pass of the loop for a new name already stored bare and counted. */
  lemma {:induction false} StepMovesFirst(naming: Naming, st: State, src: string, nn: string)
    requires nn in st.res && nn in st.dupl && st.dupl[nn] >= 1 && Step(naming, st, src, nn).Ok?
    ensures SuffixName(naming, nn, 1).Ok?
    ensures var n1 := SuffixName(naming, nn, 1).value;
      var after := Step(naming, st, src, nn).value;
      n1 in after.res && after.res[n1] == st.res[nn] && nn !in after.res
  {
    var count := st.dupl[nn] + 1;
    var n1 := SuffixName(naming, nn, 1).value;
    var res := (st.res - {nn})[n1 := st.res[nn]];
    assert MoveFirst(naming, st.res, nn) == Ok(res);
    var n := SuffixName(naming, nn, count).value;
    assert Step(naming, st, src, nn).value.res == res[n := src];
    SuffixNamesDiffer(naming, nn, 1, count);
    SuffixNameNotBare(naming, nn, count);
    SuffixNameNotBare(naming, nn, 1);
  }

  /** The k-th file with a new name, k at least 2, is stored under that name
      with "-%02d" of k inserted. */
  lemma {:induction false} KthKey(naming: Naming, pairs: seq<(string, string)>, src: string, nn: string)
    requires Fold(naming, pairs).Ok? && Count(pairs, nn) >= 1
    requires Fold(naming, pairs + [(src, nn)]).Ok?
    ensures SuffixName(naming, nn, Count(pairs, nn) + 1).Ok?
    ensures var n := SuffixName(naming, nn, Count(pairs, nn) + 1).value;
      var after := Fold(naming, pairs + [(src, nn)]).value;
      n in after.res && after.res[n] == src && after.dupl[nn] == Count(pairs, nn) + 1
  {
    var st := Fold(naming, pairs).value;
    FoldAppend(naming, pairs, src, nn);
    DuplCounts(naming, pairs);
    StepStoresKth(naming, st, src, nn);
  }

  /** One pass of the loop for a new name already counted. */
  lemma {:induction false} StepStoresKth(naming: Naming, st: State, src: string, nn: string)
    requires nn in st.dupl && st.dupl[nn] >= 1 && Step(naming, st, src, nn).Ok?
    ensures SuffixName(naming, nn, st.dupl[nn] + 1).Ok?
    ensures var n := SuffixName(naming, nn, st.dupl[nn] + 1).value;
      var after := Step(naming, st, src, nn).value;
      n in after.res && after.res[n] == src && after.dupl[nn] == st.dupl[nn] + 1
  {
    var count := st.dupl[nn] + 1;
    var res := MoveFirst(naming, st.res, nn).value;
    var n := SuffixName(naming, nn, count).value;
    assert Step(naming, st, src, nn) == Ok(State(st.dupl[nn := count], res[n := src]));
  }

  /** The as-written name with counter `k`, spelled out. */
  lemma {:induction false} SuffixedAsWrittenParts(nn: string, k: nat)
    requires '.' in nn
    ensures var parts := Strings.Split(nn, '.');
      |parts| >= 2 && SuffixedAsWritten(nn, k) == Ok((parts[0] + "-") + Pad2(k) + ("." + parts[1]))
  {
    var parts := Strings.Split(nn, '.');
    assert parts[0] + "-" + Pad2(k) + "." + parts[1] == (parts[0] + "-") + Pad2(k) + ("." + parts[1]);
  }

  /** Different counters give different names. */
  lemma {:induction false} SuffixNamesDiffer(naming: Naming, nn: string, j: nat, k: nat)
    requires j != k && SuffixName(naming, nn, j).Ok? && SuffixName(naming, nn, k).Ok?
    ensures SuffixName(naming, nn, j).value != SuffixName(naming, nn, k).value
  {
    var x, y: string;
    if naming == AsWritten {
      var parts := Strings.Split(nn, '.');
      SuffixedAsWrittenParts(nn, j);
      SuffixedAsWrittenParts(nn, k);
      x, y := parts[0] + "-", "." + parts[1];
    } else {
      x, y := SplitAtDot(nn).0 + "-", SplitAtDot(nn).1;
    }
    if x + Pad2(j) + y == x + Pad2(k) + y {
      CancelEnds(x, Pad2(j), Pad2(k), y);
      Pad2Injective(j, k);
    }
  }

  lemma {:induction false} CancelEnds(x: string, p: string, q: string, y: string)
    requires x + p + y == x + q + y
    ensures p == q
  {
    assert |p| == |q|;
    assert p == (x + p + y)[|x|..|x| + |p|];
    assert q == (x + q + y)[|x|..|x| + |q|];
  }

  /** A name with a counter is never the bare name itself: the character
      where the bare name has its first dot is the counter's dash. */
  lemma {:induction false} SuffixNameNotBare(naming: Naming, nn: string, k: nat)
    requires SuffixName(naming, nn, k).Ok?
    ensures SuffixName(naming, nn, k).value != nn
  {
    var r := SuffixName(naming, nn, k).value;
    if naming == AsWritten {
      var parts := Strings.Split(nn, '.');
      SuffixedAsWrittenParts(nn, k);
      var n := |parts[0]|;
      assert r[n] == '-';
      assert nn == parts[0] + "." + Strings.Join(parts[1..], ".");
      assert nn[n] == '.';
    } else {
      var n := |SplitAtDot(nn).0|;
      assert r[n] == '-';
      assert n == |nn| || nn[n] == '.';
    }
  }

  /** As written, a name "S.v.<d>" with a dot-free `S` loses everything
      after its second dot once it gets a counter. */
  lemma {:induction false} AsWrittenDropsSecondDot(stem: string, d: char, k: nat)
    requires '.' !in stem && d != '.'
    ensures SuffixedAsWritten(stem + ".v." + [d], k) == Ok(stem + "-" + Pad2(k) + ".v")
  {
    Strings.SplitNoSep([d], '.');
    Strings.SplitPrefix("v", '.', [d]);
    assert "v" + ['.'] + [d] == "v." + [d];
    Strings.SplitPrefix(stem, '.', "v." + [d]);
    assert stem + ['.'] + ("v." + [d]) == stem + ".v." + [d];
    var parts := Strings.Split(stem + ".v." + [d], '.');
    assert parts == [stem, "v", [d]];
    assert parts[0] + "-" + Pad2(k) + "." + parts[1] == stem + "-" + Pad2(k) + ".v";
  }

  /** The four new names of `AsWrittenLosesFiles`, for any dot-free stamp. */
  function LossPairs(stamp: string, a: string, b: string): seq<(string, string)> {
    [(a + ".v.1", stamp + ".v.1"), (b + ".v.1", stamp + ".v.1"),
     (a + ".v.2", stamp + ".v.2"), (b + ".v.2", stamp + ".v.2")]
  }

  /** The four states the as-written loop goes through on `LossPairs`. */
  function LossState(stamp: string, a: string, b: string, i: nat): State {
    var n1, n2 := stamp + ".v.1", stamp + ".v.2";
    var k1, k2 := stamp + "-01.v", stamp + "-02.v";
    if i == 1 then State(map[n1 := 1], map[n1 := a + ".v.1"])
    else if i == 2 then State(map[n1 := 2], map[k1 := a + ".v.1", k2 := b + ".v.1"])
    else if i == 3 then State(map[n1 := 2, n2 := 1], map[k1 := a + ".v.1", k2 := b + ".v.1", n2 := a + ".v.2"])
    else State(map[n1 := 2, n2 := 2], map[k1 := a + ".v.2", k2 := b + ".v.2"])
  }

  lemma {:induction false} LossNames(stamp: string)
    requires '.' !in stamp
    ensures SuffixName(AsWritten, stamp + ".v.1", 1) == Ok(stamp + "-01.v")
    ensures SuffixName(AsWritten, stamp + ".v.1", 2) == Ok(stamp + "-02.v")
    ensures SuffixName(AsWritten, stamp + ".v.2", 1) == Ok(stamp + "-01.v")
    ensures SuffixName(AsWritten, stamp + ".v.2", 2) == Ok(stamp + "-02.v")
    ensures stamp + ".v.1" != stamp + ".v.2" && stamp + "-01.v" != stamp + "-02.v"
  {
    LossName(stamp, '1', ".v.1");
    LossName(stamp, '2', ".v.2");
    var n1, n2 := stamp + ".v.1", stamp + ".v.2";
    assert n1[|stamp| + 3] != n2[|stamp| + 3];
    assert (stamp + "-01.v")[|stamp| + 2] != (stamp + "-02.v")[|stamp| + 2];
  }

  /** The as-written names with counters 1 and 2 of "<stamp>.v.<d>". */
  lemma {:induction false} LossName(stamp: string, d: char, tail: string)
    requires '.' !in stamp && d != '.' && tail == ".v." + [d]
    ensures SuffixName(AsWritten, stamp + tail, 1) == Ok(stamp + "-01.v")
    ensures SuffixName(AsWritten, stamp + tail, 2) == Ok(stamp + "-02.v")
  {
    assert stamp + ".v." + [d] == stamp + tail;
    AsWrittenDropsSecondDot(stamp, d, 1);
    AsWrittenDropsSecondDot(stamp, d, 2);
    CounterTexts(stamp);
  }

  lemma {:induction false} CounterTexts(stamp: string)
    ensures stamp + "-" + Pad2(1) + ".v" == stamp + "-01.v"
    ensures stamp + "-" + Pad2(2) + ".v" == stamp + "-02.v"
  {
    assert Pad2(1) == "01" && Pad2(2) == "02";
    assert "-" + "01" + ".v" == "-01.v" && "-" + "02" + ".v" == "-02.v";
  }

  lemma {:induction false} LossStep2(stamp: string, a: string, b: string)
    requires '.' !in stamp
    ensures Step(AsWritten, LossState(stamp, a, b, 1), b + ".v.1", stamp + ".v.1") == Ok(LossState(stamp, a, b, 2))
  {
    LossNames(stamp);
    var n1 := stamp + ".v.1";
    assert LossState(stamp, a, b, 1).res - {n1} == map[];
    assert LossState(stamp, a, b, 1).dupl[n1 := 2] == LossState(stamp, a, b, 2).dupl;
  }

  lemma {:induction false} LossStep3(stamp: string, a: string, b: string)
    requires '.' !in stamp
    ensures Step(AsWritten, LossState(stamp, a, b, 2), a + ".v.2", stamp + ".v.2") == Ok(LossState(stamp, a, b, 3))
  {
    LossNames(stamp);
    var n2, k1 := stamp + ".v.2", stamp + "-01.v";
    assert |n2| < |k1|;
  }

  lemma {:induction false} LossStep4(stamp: string, a: string, b: string)
    requires '.' !in stamp
    ensures Step(AsWritten, LossState(stamp, a, b, 3), b + ".v.2", stamp + ".v.2") == Ok(LossState(stamp, a, b, 4))
  {
    LossNames(stamp);
    var n2, k1, k2 := stamp + ".v.2", stamp + "-01.v", stamp + "-02.v";
    assert |n2| < |k1| && |n2| < |k2|;
    var st := LossState(stamp, a, b, 3);
    assert st.res - {n2} == map[k1 := a + ".v.1", k2 := b + ".v.1"];
    assert st.dupl[n2 := 2] == LossState(stamp, a, b, 4).dupl;
    var moved := (st.res - {n2})[k1 := st.res[n2]];
    assert MoveFirst(AsWritten, st.res, n2) == Ok(moved);
    assert moved[k2 := b + ".v.2"] == LossState(stamp, a, b, 4).res;
  }

  lemma {:induction false} AsWrittenLosesPairs(stamp: string, a: string, b: string)
    requires '.' !in stamp
    ensures Fold(AsWritten, LossPairs(stamp, a, b)) == Ok(LossState(stamp, a, b, 4))
  {
    var p := LossPairs(stamp, a, b);
    assert p[..0] == [];
    FoldSnoc(AsWritten, p, 0);
    assert Fold(AsWritten, p[..1]) == Ok(LossState(stamp, a, b, 1));
    FoldSnoc(AsWritten, p, 1);
    LossStep2(stamp, a, b);
    FoldSnoc(AsWritten, p, 2);
    LossStep3(stamp, a, b);
    FoldSnoc(AsWritten, p, 3);
    LossStep4(stamp, a, b);
    assert p[..4] == p;
  }

  /** The two as-written findings. First: four files taken in the same
      second, named `a` and `b` followed by ".v.1" and by ".v.2" (say
      "data.v.1", "info.v.1", "data.v.2", "info.v.2"), all get names of the
      form "<stamp>-NN.v"; the later pair overwrites the earlier pair, so only
      two of the four files are renamed. */
  lemma {:induction false} AsWrittenLosesFiles(t: DateTime, a: string, b: string, stamp: string)
    requires Valid(t) && stamp == Stamp(t)
    ensures NewFileName(a + ".v.1", t) == stamp + ".v.1" && NewFileName(b + ".v.1", t) == stamp + ".v.1"
    ensures NewFileName(a + ".v.2", t) == stamp + ".v.2" && NewFileName(b + ".v.2", t) == stamp + ".v.2"
    ensures var r := Fold(AsWritten, LossPairs(stamp, a, b));
      r.Ok? && r.value.res == map[stamp + "-01.v" := a + ".v.2", stamp + "-02.v" := b + ".v.2"]
  {
    StampPlain(t);
    VersionTails();
    LowerTailKept(a, ".v.1", t, stamp);
    LowerTailKept(b, ".v.1", t, stamp);
    LowerTailKept(a, ".v.2", t, stamp);
    LowerTailKept(b, ".v.2", t, stamp);
    AsWrittenLosesPairs(stamp, a, b);
  }

  /** Both version suffixes are four characters without upper-case letters. */
  lemma VersionTails()
    ensures NoUpper(".v.1") && NoUpper(".v.2")
  {
  }

  predicate NoUpper(tail: string) {
    |tail| == 4 && forall i :: 0 <= i < 4 ==> !('A' <= tail[i] <= 'Z')
  }

  /** A name ending in four characters without upper-case letters keeps
      them after the stamp. */
  lemma {:induction false} LowerTailKept(stem: string, tail: string, t: DateTime, stamp: string)
    requires Valid(t) && stamp == Stamp(t) && NoUpper(tail)
    ensures NewFileName(stem + tail, t) == stamp + tail
  {
    var name := stem + tail;
    assert name[|name| - 4..] == tail;
    NewNameTail(name, tail, tail, t);
  }

  /** The new name of a file whose old name ends in `tail`. */
  lemma {:induction false} NewNameTail(name: string, tail: string, lower: string, t: DateTime)
    requires Valid(t) && |name| >= 4 && name[|name| - 4..] == tail
    requires Strings.Lower(tail) == lower
    ensures NewFileName(name, t) == Stamp(t) + lower
  {
    assert Strings.LastN(name, 4) == tail;
  }

  /** Second: two files taken in the same second whose names end in the same
      four characters without a dot ("README" and "OLD_README") make the
      script stop with `IndexError` when it tries to number them. */
  lemma {:induction false} AsWrittenCrashesWithoutDot(t: DateTime)
    requires Valid(t)
    ensures Fold(AsWritten, Pairs([("README", t), ("OLD_README", t)])).Err?
  {
    StampPlain(t);
    NewNameTail("README", "ADME", "adme", t);
    NewNameTail("OLD_README", "ADME", "adme", t);
    assert Pairs([("README", t), ("OLD_README", t)]) == [("README", Stamp(t) + "adme"), ("OLD_README", Stamp(t) + "adme")];
    AsWrittenCrashPairs(Stamp(t));
  }

  lemma {:induction false} AsWrittenCrashPairs(stamp: string)
    requires '.' !in stamp
    ensures Fold(AsWritten, [("README", stamp + "adme"), ("OLD_README", stamp + "adme")]).Err?
  {
    var nn := stamp + "adme";
    var p := [("README", nn), ("OLD_README", nn)];
    assert '.' !in nn;
    assert p[..0] == [];
    FoldSnoc(AsWritten, p, 0);
    assert Fold(AsWritten, p[..1]) == Ok(State(map[nn := 1], map[nn := "README"]));
    FoldSnoc(AsWritten, p, 1);
    assert p[..2] == p;
  }

  // The corrected naming keeps every file.

  /** How many of the first `i + 1` pairs share the new name of pair `i`:
      the counter pair `i` gets. */
  function Rank(p: seq<(string, string)>, i: nat): nat
    requires i < |p|
  {
    Count(p[..i + 1], p[i].1)
  }

  /** The key under which the corrected loop stores pair `i`: the bare new
      name when no other file has it, otherwise the name with its counter. */
  function Key(p: seq<(string, string)>, i: nat): string
    requires i < |p|
  {
    if Count(p, p[i].1) == 1 then p[i].1 else Suffixed(p[i].1, Rank(p, i))
  }

  /** No name with a counter is the bare new name of some file. */
  ghost predicate NoBareClash(p: seq<(string, string)>) {
    forall i, j, k :: 0 <= i < |p| && 0 <= j < |p| ==> Suffixed(p[i].1, k) != p[j].1
  }

  /** The keys of the first `n` files. */
  ghost function KeySet(p: seq<(string, string)>, n: nat): set<string>
    requires n <= |p|
  {
    if n == 0 then {} else KeySet(p, n - 1) + {Key(p, n - 1)}
  }

  lemma {:induction false} KeySetHas(p: seq<(string, string)>, n: nat, i: nat)
    requires i < n <= |p|
    ensures Key(p, i) in KeySet(p, n)
  {
    if i < n - 1 {
      KeySetHas(p, n - 1, i);
    }
  }

  /** The file whose key `k` is. */
  lemma {:induction false} KeyIndex(p: seq<(string, string)>, n: nat, k: string) returns (i: nat)
    requires n <= |p| && k in KeySet(p, n)
    ensures i < n && Key(p, i) == k
  {
    if k == Key(p, n - 1) {
      i := n - 1;
    } else {
      i := KeyIndex(p, n - 1, k);
    }
  }

  /** Every file is stored under its key... */
  ghost predicate KeepsEach(p: seq<(string, string)>, res: map<string, string>) {
    forall i :: 0 <= i < |p| ==> Key(p, i) in res && res[Key(p, i)] == p[i].0
  }

  /** ...and nothing else is stored. */
  ghost predicate KeepsAll(p: seq<(string, string)>, res: map<string, string>) {
    KeepsEach(p, res) && res.Keys <= KeySet(p, |p|)
  }

  lemma {:induction false} CountAppend(p: seq<(string, string)>, x: (string, string), n: string)
    ensures Count(p + [x], n) == Count(p, n) + (if x.1 == n then 1 else 0)
  {
    assert (p + [x])[..|p|] == p;
  }

  /** The counts of a prefix never exceed those of the whole. */
  lemma {:induction false} CountPrefix(p: seq<(string, string)>, a: nat, n: string)
    requires a <= |p|
    ensures Count(p[..a], n) <= Count(p, n)
    decreases |p| - a
  {
    if a < |p| {
      CountPrefix(p, a + 1, n);
      assert p[..a + 1][..a] == p[..a];
    } else {
      assert p[..a] == p;
    }
  }

  /** Two different pairs with the same new name make its count at least two,
      and the later one has the higher rank. */
  lemma {:induction false} RankIncreases(p: seq<(string, string)>, i: nat, j: nat)
    requires i < j < |p| && p[i].1 == p[j].1
    ensures Rank(p, i) < Rank(p, j) && Count(p, p[i].1) >= 2
  {
    var n := p[i].1;
    assert p[..j + 1][..j] == p[..j];
    assert Rank(p, j) == Count(p[..j], n) + 1;
    CountPrefix(p[..j], i + 1, n);
    assert p[..j][..i + 1] == p[..i + 1];
    RankBounds(p, i);
    RankBounds(p, j);
  }

  /** A rank is at least one and at most the count. */
  lemma {:induction false} RankBounds(p: seq<(string, string)>, i: nat)
    requires i < |p|
    ensures 1 <= Rank(p, i) <= Count(p, p[i].1)
  {
    assert p[..i + 1][..i] == p[..i];
    CountPrefix(p, i + 1, p[i].1);
  }

  /** Cutting at the first dot undoes inserting the counter. */
  lemma {:induction false} SuffixedInjective(m: string, j: nat, n: string, k: nat)
    requires Suffixed(m, j) == Suffixed(n, k)
    ensures m == n && j == k
  {
    var (a, b) := SplitAtDot(m);
    var (c, d) := SplitAtDot(n);
    var x, y := a + "-" + Pad2(j), c + "-" + Pad2(k);
    NoDotInDigits(Pad2(j));
    NoDotInDigits(Pad2(k));
    assert '.' !in x && '.' !in y;
    FirstDotUnique(x, b, y, d);
    LastDashUnique(a, Pad2(j), c, Pad2(k));
    Pad2Injective(j, k);
  }

  lemma {:induction false} NoDotInDigits(s: string)
    requires AllDigits(s)
    ensures '.' !in s && '-' !in s
  {
  }

  /** A dot-free part followed by a rest that is empty or starts with a dot
      is cut back into exactly those two parts. */
  lemma {:induction false} SplitAtDotOf(x: string, b: string)
    requires '.' !in x
    requires b == [] || b[0] == '.'
    ensures SplitAtDot(x + b) == (x, b)
    decreases |x|
  {
    if x != [] {
      assert x[0] in x;
      assert (x + b)[1..] == x[1..] + b;
      SplitAtDotOf(x[1..], b);
      assert [x[0]] + x[1..] == x;
    } else {
      assert x + b == b;
    }
  }

  lemma {:induction false} FirstDotUnique(x: string, b: string, y: string, d: string)
    requires '.' !in x && '.' !in y
    requires b == [] || b[0] == '.'
    requires d == [] || d[0] == '.'
    requires x + b == y + d
    ensures x == y && b == d
  {
    SplitAtDotOf(x, b);
    SplitAtDotOf(y, d);
  }

  /** The last dash of `a + "-" + u`, when `u` has none, is the one after
      `a`. */
  lemma {:induction false} LastDashAt(a: string, u: string)
    requires '-' !in u
    ensures Strings.RFind(a + "-" + u, '-') == |a|
  {
    var s := a + "-" + u;
    assert s[|a|] == '-';
    forall j | |a| < j < |s| ensures s[j] != '-' {
      assert s[j] == u[j - |a| - 1];
    }
    RFindIs(s, '-', |a|);
  }

  /** `rfind` finds an occurrence with none after it. */
  lemma {:induction false} RFindIs(s: string, c: char, k: int)
    requires 0 <= k < |s| && s[k] == c
    requires forall j :: k < j < |s| ==> s[j] != c
    ensures Strings.RFind(s, c) == k
  {
    assert s[k] in s;
  }

  lemma {:induction false} LastDashUnique(a: string, u: string, c: string, v: string)
    requires '-' !in u && '-' !in v
    requires a + "-" + u == c + "-" + v
    ensures a == c && u == v
  {
    var s := a + "-" + u;
    LastDashAt(a, u);
    LastDashAt(c, v);
    assert a == s[..|a|];
    assert c == (c + "-" + v)[..|c|];
    assert u == s[|a| + 1..];
    assert v == (c + "-" + v)[|c| + 1..];
  }

  /** Under `NoBareClash`, different files get different keys. */
  lemma {:induction false} KeysDistinct(p: seq<(string, string)>, i: nat, j: nat)
    requires NoBareClash(p) && i < |p| && j < |p| && i != j
    ensures Key(p, i) != Key(p, j)
  {
    if j < i {
      KeysDistinct(p, j, i);
      return;
    }
    var m, n := p[i].1, p[j].1;
    if Count(p, m) == 1 && Count(p, n) == 1 {
      if m == n { RankIncreases(p, i, j); }
    } else if Count(p, m) != 1 && Count(p, n) != 1 {
      if Key(p, i) == Key(p, j) {
        SuffixedInjective(m, Rank(p, i), n, Rank(p, j));
        RankIncreases(p, i, j);
      }
    }
  }

  lemma {:induction false} NoBareClashPrefix(q: seq<(string, string)>, x: (string, string))
    requires NoBareClash(q + [x])
    ensures NoBareClash(q)
  {
    var p := q + [x];
    forall i, j, k | 0 <= i < |q| && 0 <= j < |q|
      ensures Suffixed(q[i].1, k) != q[j].1
    {
      assert p[i] == q[i] && p[j] == q[j];
    }
  }

  /** A key that is the bare new name of the next file belongs to the only
      earlier file with that name. */
  lemma {:induction false} KeyNotBare(q: seq<(string, string)>, x: (string, string), i: nat)
    requires NoBareClash(q + [x]) && i < |q|
    ensures Key(q, i) == x.1 ==> q[i].1 == x.1 && Count(q, x.1) == 1
  {
    var p := q + [x];
    assert p[i] == q[i] && p[|q|] == x;
    assert Suffixed(p[i].1, Rank(q, i)) != p[|q|].1;
  }

  /** The key of an earlier file after one more file: it changes only for
      the single earlier file with the same new name, which gets "-01". */
  lemma {:induction false} KeyAppend(q: seq<(string, string)>, x: (string, string), i: nat)
    requires i < |q|
    ensures Key(q + [x], i) ==
      if q[i].1 == x.1 && Count(q, x.1) == 1 then Suffixed(x.1, 1) else Key(q, i)
  {
    var p := q + [x];
    var n := q[i].1;
    assert p[i] == q[i];
    CountAppend(q, x, n);
    assert p[..i + 1] == q[..i + 1];
    assert Rank(p, i) == Rank(q, i);
    RankBounds(q, i);
    if n == x.1 {
      assert Count(p, n) == Count(q, n) + 1;
      if Count(q, n) == 1 {
        assert Rank(q, i) == 1;
      }
    } else {
      assert Count(p, n) == Count(q, n);
    }
  }

  /** The key of the file just added. */
  lemma {:induction false} KeyLast(q: seq<(string, string)>, x: (string, string))
    ensures Key(q + [x], |q|) ==
      if Count(q, x.1) == 0 then x.1 else Suffixed(x.1, Count(q, x.1) + 1)
  {
    var p := q + [x];
    CountAppend(q, x, x.1);
    assert p[..|q| + 1] == p;
  }

  lemma {:induction false} CountWitness(q: seq<(string, string)>, n: string)
    requires Count(q, n) > 0
    ensures exists i :: 0 <= i < |q| && q[i].1 == n
    decreases |q|
  {
    var init := q[..|q| - 1];
    if q[|q| - 1].1 != n {
      CountWitness(init, n);
      var i :| 0 <= i < |init| && init[i].1 == n;
      assert q[i] == init[i];
    }
  }

  /** With a count of one, only one file has the name. */
  lemma {:induction false} OnlyOne(q: seq<(string, string)>, n: string, i: nat, j: nat)
    requires Count(q, n) == 1 && i < |q| && j < |q|
    ensures q[i].1 == n && q[j].1 == n ==> i == j
  {
    if q[i].1 == n && q[j].1 == n {
      if i < j {
        RankIncreases(q, i, j);
      } else if j < i {
        RankIncreases(q, j, i);
      }
    }
  }

  /** The facts `DuplCounts` establishes about a state's counters. */
  ghost predicate Counted(q: seq<(string, string)>, dupl: map<string, nat>) {
    forall k :: (k in dupl <==> Count(q, k) > 0) && (k in dupl ==> dupl[k] == Count(q, k))
  }

  /** When the new name is not shared by exactly one earlier file, the
      earlier keys stay as they are and none of them is the bare name. */
  lemma {:induction false} KeysKept(q: seq<(string, string)>, x: (string, string), res: map<string, string>)
    requires NoBareClash(q + [x]) && KeepsAll(q, res) && Count(q, x.1) != 1
    ensures x.1 !in res
    ensures forall i :: 0 <= i < |q| ==> Key(q + [x], i) == Key(q, i)
  {
    forall k | k in res ensures k != x.1 {
      var i := KeyIndex(q, |q|, k);
      KeyNotBare(q, x, i);
    }
    forall i | 0 <= i < |q| ensures Key(q + [x], i) == Key(q, i) {
      KeyAppend(q, x, i);
    }
  }

  /** Storing the new file under its key keeps every earlier file. */
  lemma {:induction false} InsertKeepsAll(q: seq<(string, string)>, x: (string, string), res: map<string, string>)
    requires NoBareClash(q + [x]) && KeepsAll(q, res)
    requires forall i :: 0 <= i < |q| ==> Key(q + [x], i) == Key(q, i)
    ensures KeepsAll(q + [x], res[Key(q + [x], |q|) := x.0])
  {
    InsertKeepsEach(q, x, res);
    InsertKeysIn(q, x, res);
  }

  lemma {:induction false} InsertKeepsEach(q: seq<(string, string)>, x: (string, string), res: map<string, string>)
    requires NoBareClash(q + [x]) && KeepsEach(q, res)
    requires forall i :: 0 <= i < |q| ==> Key(q + [x], i) == Key(q, i)
    ensures KeepsEach(q + [x], res[Key(q + [x], |q|) := x.0])
  {
    var p := q + [x];
    var n := Key(p, |q|);
    var res' := res[n := x.0];
    forall i | 0 <= i < |p| ensures Key(p, i) in res' && res'[Key(p, i)] == p[i].0 {
      if i < |q| {
        var k := Key(q, i);
        assert Key(p, i) == k;
        KeysDistinct(p, i, |q|);
        assert k != n;
        assert p[i] == q[i];
        assert k in res && res[k] == q[i].0;
      } else {
        assert i == |q| && p[i] == x;
      }
    }
  }

  lemma {:induction false} InsertKeysIn(q: seq<(string, string)>, x: (string, string), res: map<string, string>)
    requires res.Keys <= KeySet(q, |q|)
    requires forall i :: 0 <= i < |q| ==> Key(q + [x], i) == Key(q, i)
    ensures res[Key(q + [x], |q|) := x.0].Keys <= KeySet(q + [x], |q| + 1)
  {
    var p := q + [x];
    var n := Key(p, |q|);
    forall k | k in res[n := x.0] ensures k in KeySet(p, |p|) {
      if k == n {
        KeySetHas(p, |p|, |q|);
      } else {
        assert k in KeySet(q, |q|);
        var i := KeyIndex(q, |q|, k);
        assert Key(p, i) == k;
        KeySetHas(p, |p|, i);
      }
    }
  }

  /** A first file with its new name: stored under the bare name. */
  lemma {:induction false} StepFirst(q: seq<(string, string)>, src: string, nn: string, st: State)
    requires NoBareClash(q + [(src, nn)]) && KeepsAll(q, st.res) && Counted(q, st.dupl)
    requires Count(q, nn) == 0
    ensures Step(Corrected, st, src, nn) == Ok(State(st.dupl[nn := 1], st.res[nn := src]))
    ensures KeepsAll(q + [(src, nn)], st.res[nn := src])
  {
    KeysKept(q, (src, nn), st.res);
    KeyLast(q, (src, nn));
    InsertKeepsAll(q, (src, nn), st.res);
  }

  /** A later file with a new name: stored under the next counter. */
  lemma {:induction false} StepLater(q: seq<(string, string)>, src: string, nn: string, st: State)
    requires NoBareClash(q + [(src, nn)]) && KeepsAll(q, st.res) && Counted(q, st.dupl)
    requires Count(q, nn) >= 2
    ensures Step(Corrected, st, src, nn) ==
      Ok(State(st.dupl[nn := Count(q, nn) + 1], st.res[Suffixed(nn, Count(q, nn) + 1) := src]))
    ensures KeepsAll(q + [(src, nn)], st.res[Suffixed(nn, Count(q, nn) + 1) := src])
  {
    KeysKept(q, (src, nn), st.res);
    KeyLast(q, (src, nn));
    InsertKeepsAll(q, (src, nn), st.res);
  }

  /** A second file with a new name: the first moves to "-01", the second
      goes to "-02". */
  lemma {:induction false} StepSecond(q: seq<(string, string)>, src: string, nn: string, st: State)
    requires NoBareClash(q + [(src, nn)]) && KeepsAll(q, st.res) && Counted(q, st.dupl)
    requires Count(q, nn) == 1
    ensures Step(Corrected, st, src, nn).Ok?
    ensures KeepsAll(q + [(src, nn)], Step(Corrected, st, src, nn).value.res)
  {
    CountWitness(q, nn);
    var i0 :| 0 <= i0 < |q| && q[i0].1 == nn;
    RankBounds(q, i0);
    assert Key(q, i0) == nn;
    var moved := (st.res - {nn})[Suffixed(nn, 1) := q[i0].0];
    assert MoveFirst(Corrected, st.res, nn) == Ok(moved);
    var res := moved[Suffixed(nn, 2) := src];
    assert Step(Corrected, st, src, nn) == Ok(State(st.dupl[nn := 2], res));
    assert res == SecondRes(st.res, (src, nn), q[i0].0);
    SecondKeepsAll(q, (src, nn), st.res, i0);
  }

  /** The map after the second file with a new name: the first file moved to
      "-01", the second stored under "-02". */
  function SecondRes(res: map<string, string>, x: (string, string), first: string): map<string, string> {
    (res - {x.1})[Suffixed(x.1, 1) := first][Suffixed(x.1, 2) := x.0]
  }

  ghost predicate StoredAt(res: map<string, string>, p: seq<(string, string)>, i: nat)
    requires i < |p|
  {
    Key(p, i) in res && res[Key(p, i)] == p[i].0
  }

  lemma {:induction false} SecondKeepsAll(q: seq<(string, string)>, x: (string, string), res: map<string, string>, i0: nat)
    requires NoBareClash(q + [x]) && KeepsAll(q, res)
    requires Count(q, x.1) == 1 && i0 < |q| && q[i0].1 == x.1 && Key(q, i0) == x.1
    ensures KeepsAll(q + [x], SecondRes(res, x, q[i0].0))
  {
    var p := q + [x];
    var res' := SecondRes(res, x, q[i0].0);
    forall i | 0 <= i < |p| ensures Key(p, i) in res' && res'[Key(p, i)] == p[i].0 {
      if i == |q| {
        SecondKeepsNew(q, x, res, q[i0].0);
      } else if i == i0 {
        SecondKeepsFirst(q, x, res, i0);
      } else {
        SecondKeepsOther(q, x, res, i0, i);
      }
    }
    SecondOnlyKeys(q, x, res, i0);
  }

  lemma {:induction false} SecondKeepsNew(q: seq<(string, string)>, x: (string, string), res: map<string, string>, first: string)
    requires Count(q, x.1) == 1
    ensures StoredAt(SecondRes(res, x, first), q + [x], |q|)
  {
    KeyLast(q, x);
    assert (q + [x])[|q|] == x;
  }

  lemma {:induction false} SecondKeepsFirst(q: seq<(string, string)>, x: (string, string), res: map<string, string>, i0: nat)
    requires NoBareClash(q + [x])
    requires Count(q, x.1) == 1 && i0 < |q| && q[i0].1 == x.1
    ensures StoredAt(SecondRes(res, x, q[i0].0), q + [x], i0)
  {
    var p := q + [x];
    KeyLast(q, x);
    KeyAppend(q, x, i0);
    KeysDistinct(p, i0, |q|);
    assert p[i0] == q[i0];
  }

  lemma {:induction false} SecondKeepsOther(q: seq<(string, string)>, x: (string, string), res: map<string, string>, i0: nat, i: nat)
    requires NoBareClash(q + [x]) && KeepsEach(q, res)
    requires Count(q, x.1) == 1 && i0 < |q| && q[i0].1 == x.1
    requires i < |q| && i != i0
    ensures StoredAt(SecondRes(res, x, q[i0].0), q + [x], i)
  {
    var k := Key(q, i);
    assert k in res && res[k] == q[i].0;
    SecondOtherKey(q, x, i0, i);
    OtherKeyKept(res, x.1, Suffixed(x.1, 1), q[i0].0, Suffixed(x.1, 2), x.0, k);
    assert (q + [x])[i] == q[i];
  }

  lemma {:induction false} SecondOnlyKeys(q: seq<(string, string)>, x: (string, string), res: map<string, string>, i0: nat)
    requires res.Keys <= KeySet(q, |q|)
    requires Count(q, x.1) == 1 && i0 < |q| && q[i0].1 == x.1 && Key(q, i0) == x.1
    ensures SecondRes(res, x, q[i0].0).Keys <= KeySet(q + [x], |q + [x]|)
  {
    var p := q + [x];
    var res' := SecondRes(res, x, q[i0].0);
    forall k | k in res' ensures k in KeySet(p, |p|) {
      if k == Suffixed(x.1, 2) {
        KeyLast(q, x);
        KeySetHas(p, |p|, |q|);
      } else if k == Suffixed(x.1, 1) {
        KeyAppend(q, x, i0);
        KeySetHas(p, |p|, i0);
      } else {
        SecondOldKey(q, x, k, res);
      }
    }
  }

  lemma {:induction false} SecondOldKey(q: seq<(string, string)>, x: (string, string), k: string, res: map<string, string>)
    requires res.Keys <= KeySet(q, |q|)
    requires Count(q, x.1) == 1 && k in res && k != x.1
    ensures k in KeySet(q + [x], |q| + 1)
  {
    var i := KeyIndex(q, |q|, k);
    KeyAppend(q, x, i);
    KeySetHas(q + [x], |q| + 1, i);
  }

  /** Under the second file, a file with another new name keeps its key,
      which is none of the three names involved. */
  lemma {:induction false} SecondOtherKey(q: seq<(string, string)>, x: (string, string), i0: nat, i: nat)
    requires NoBareClash(q + [x])
    requires Count(q, x.1) == 1 && i0 < |q| && q[i0].1 == x.1
    requires i < |q| && i != i0
    ensures Key(q + [x], i) == Key(q, i)
    ensures Key(q, i) != x.1 && Key(q, i) != Suffixed(x.1, 1) && Key(q, i) != Suffixed(x.1, 2)
  {
    var p := q + [x];
    OnlyOne(q, x.1, i, i0);
    KeyNotBare(q, x, i);
    KeyAppend(q, x, i);
    KeyAppend(q, x, i0);
    KeyLast(q, x);
    KeysDistinct(p, i, i0);
    KeysDistinct(p, i, |q|);
  }

  lemma {:induction false} OtherKeyKept(res: map<string, string>, gone: string, n1: string, v1: string, n2: string, v2: string, k: string)
    requires k in res && k != gone && k != n1 && k != n2
    ensures var res' := (res - {gone})[n1 := v1][n2 := v2];
      k in res' && res'[k] == res[k]
  {
  }

  /** The corrected loop never fails and stores every file under its own
      key, as long as no name with a counter is some file's bare new name. */
  lemma {:induction false} CorrectedFold(p: seq<(string, string)>)
    requires NoBareClash(p)
    ensures Fold(Corrected, p).Ok? && KeepsAll(p, Fold(Corrected, p).value.res)
    decreases |p|
  {
    if p != [] {
      var q, x := p[..|p| - 1], p[|p| - 1];
      assert p == q + [x];
      NoBareClashPrefix(q, x);
      CorrectedFold(q);
      DuplCounts(Corrected, q);
      var st := Fold(Corrected, q).value;
      assert Fold(Corrected, p) == Step(Corrected, st, x.0, x.1);
      assert q + [(x.0, x.1)] == p;
      if Count(q, x.1) == 0 {
        StepFirst(q, x.0, x.1, st);
      } else if Count(q, x.1) == 1 {
        StepSecond(q, x.0, x.1, st);
      } else {
        StepLater(q, x.0, x.1, st);
      }
    }
  }

  /** A new name with a counter is at least five characters longer than its
      stamp, while a bare new name is at most four: the two never meet
      once the old name has two characters or more. */
  lemma {:induction false} SuffixedNotBare(a: string, t: string, b: string, u: string, k: nat)
    requires IsStampShaped(a) && IsStampShaped(b) && '.' !in a
    requires 2 <= |t| && |u| <= 4
    ensures Suffixed(a + t, k) != b + u
  {
    var (x, y) := SplitAtDot(t);
    var w := x + "-" + Pad2(k) + y;
    SuffixedAfterStamp(a, t, k);
    if a + w == b + u {
      StampPrefixUnique(a, w, b, u);
    }
  }

  /** A counter goes into the part after a dot-free stamp. */
  lemma {:induction false} SuffixedAfterStamp(a: string, t: string, k: nat)
    requires '.' !in a
    ensures var (x, y) := SplitAtDot(t);
      Suffixed(a + t, k) == a + (x + "-" + Pad2(k) + y)
  {
    var (x, y) := SplitAtDot(t);
    assert a + t == (a + x) + y;
    SplitAtDotOf(a + x, y);
    var p := Pad2(k);
    assert (a + x) + "-" + p + y == a + (x + "-" + p + y);
  }

  /** A new name is its stamp followed by a tail of at most four
      characters, and of at least two when the old name has two. */
  lemma {:induction false} NewFileNameParts(oldFileName: string, t: DateTime)
    requires Valid(t)
    ensures IsStampShaped(Stamp(t)) && '.' !in Stamp(t)
    ensures var r := NewFileName(oldFileName, t);
      r == Stamp(t) + r[|Stamp(t)|..] && |r[|Stamp(t)|..]| <= 4 &&
      (|oldFileName| >= 2 ==> |r[|Stamp(t)|..]| >= 2)
  {
    StampShaped(t);
    StampPlain(t);
  }

  /** For files whose old names have at least two characters, no name with
      a counter is ever some file's bare new name. */
  lemma {:induction false} NewNamesNoClash(srcList: seq<(string, DateTime)>)
    requires forall i :: 0 <= i < |srcList| ==> Valid(srcList[i].1) && |srcList[i].0| >= 2
    ensures NoBareClash(Pairs(srcList))
  {
    var p := Pairs(srcList);
    forall i, j, k: nat | 0 <= i < |p| && 0 <= j < |p| ensures Suffixed(p[i].1, k) != p[j].1 {
      var (o1, t1) := srcList[i];
      var (o2, t2) := srcList[j];
      NewFileNameParts(o1, t1);
      NewFileNameParts(o2, t2);
      var r1, r2 := NewFileName(o1, t1), NewFileName(o2, t2);
      SuffixedNotBare(Stamp(t1), r1[|Stamp(t1)|..], Stamp(t2), r2[|Stamp(t2)|..], k);
    }
  }

  /** With the counter placed before the first dot, `createNewFileNames`
      never fails, maps every file's own key to it, gives different files
      different keys and stores nothing else. */
  lemma {:induction false} CorrectedKeepsEveryFile(srcList: seq<(string, DateTime)>)
    requires forall i :: 0 <= i < |srcList| ==> Valid(srcList[i].1) && |srcList[i].0| >= 2
    ensures var p := Pairs(srcList);
      Fold(Corrected, p).Ok? &&
      (forall i :: 0 <= i < |p| ==>
        Key(p, i) in Fold(Corrected, p).value.res && Fold(Corrected, p).value.res[Key(p, i)] == srcList[i].0) &&
      (forall i, j :: 0 <= i < j < |p| ==> Key(p, i) != Key(p, j)) &&
      Fold(Corrected, p).value.res.Keys <= KeySet(p, |p|)
  {
    var p := Pairs(srcList);
    NewNamesNoClash(srcList);
    CorrectedFold(p);
    forall i, j | 0 <= i < j < |p| ensures Key(p, i) != Key(p, j) {
      KeysDistinct(p, i, j);
    }
  }

  /** The name a file is finally renamed to: its new name, or, when that
      already exists, the new name with the old one appended. */
  function FinalName(names: set<string>, newName: string, oldName: string): (r: string)
    ensures newName !in names ==> r == newName
    ensures newName in names ==> r == newName + oldName
  {
    if newName in names then newName + oldName else newName
  }

  /** The rename loop of `main` over the sorted keys of `d`: the names
      afterwards, and whether it ran to the end. Without "-c" nothing is
      renamed; a missing old name raises `OSError`, which the `except
      IOError` clause does not catch, so the run ends there. */
  function Apply(names: set<string>, d: map<string, string>, keys: seq<string>, perform: bool): (set<string>, bool)
    requires forall i :: 0 <= i < |keys| ==> keys[i] in d
    decreases |keys|
  {
    if keys == [] then (names, true)
    else
      var oldName := d[keys[0]];
      var newFinalName := FinalName(names, keys[0], oldName);
      if !perform then Apply(names, d, keys[1..], perform)
      else if oldName !in names then (names, false)
      else Apply(names - {oldName} + {newFinalName}, d, keys[1..], perform)
  }

  /** Without "-c" nothing changes and the loop runs to the end. */
  lemma {:induction false} ApplyDryRun(names: set<string>, d: map<string, string>, keys: seq<string>)
    requires forall i :: 0 <= i < |keys| ==> keys[i] in d
    ensures Apply(names, d, keys, false) == (names, true)
    decreases |keys|
  {
    if keys != [] {
      ApplyDryRun(names, d, keys[1..]);
    }
  }

  function OldNames(d: map<string, string>, keys: seq<string>): set<string>
    requires forall i :: 0 <= i < |keys| ==> keys[i] in d
  {
    set i | 0 <= i < |keys| :: d[keys[i]]
  }

  /** With "-c", old names that exist and differ, and new names that do not
      exist yet, every file is renamed to its new name: the old names are
      replaced by the keys. */
  lemma {:induction false} ApplyRenamesAll(names: set<string>, d: map<string, string>, keys: seq<string>)
    requires StringOrder.Distinct(keys)
    requires forall i :: 0 <= i < |keys| ==> keys[i] in d && keys[i] !in names && d[keys[i]] in names
    requires forall i, j :: 0 <= i < j < |keys| ==> d[keys[i]] != d[keys[j]]
    ensures Apply(names, d, keys, true) == (names - OldNames(d, keys) + set k | k in keys, true)
    decreases |keys|
  {
    if keys == [] {
      assert OldNames(d, keys) == {} && (set x | x in keys) == {};
      assert Apply(names, d, keys, true) == (names, true);
      assert names - {} + {} == names;
    } else {
      var k, rest := keys[0], keys[1..];
      var o := d[k];
      var names' := names - {o} + {k};
      RestRenamable(names, d, keys);
      assert Apply(names, d, keys, true) == Apply(names', d, rest, true);
      ApplyRenamesAll(names', d, rest);
      OldNamesCons(d, keys);
      KeysCons(keys);
      assert k !in OldNames(d, rest);
      RenameThenRest(names, o, k, OldNames(d, rest), set x | x in rest);
    }
  }

  /** After the first rename the other keys still meet the conditions. */
  lemma {:induction false} RestRenamable(names: set<string>, d: map<string, string>, keys: seq<string>)
    requires |keys| >= 1 && StringOrder.Distinct(keys)
    requires forall i :: 0 <= i < |keys| ==> keys[i] in d && keys[i] !in names && d[keys[i]] in names
    requires forall i, j :: 0 <= i < j < |keys| ==> d[keys[i]] != d[keys[j]]
    ensures var names', rest := names - {d[keys[0]]} + {keys[0]}, keys[1..];
      StringOrder.Distinct(rest) &&
      (forall i :: 0 <= i < |rest| ==> rest[i] in d && rest[i] !in names' && d[rest[i]] in names') &&
      (forall i, j :: 0 <= i < j < |rest| ==> d[rest[i]] != d[rest[j]])
  {
    var names', rest := names - {d[keys[0]]} + {keys[0]}, keys[1..];
    forall i | 0 <= i < |rest| ensures rest[i] !in names' && d[rest[i]] in names' {
      assert rest[i] == keys[i + 1];
    }
    forall i, j | 0 <= i < j < |rest| ensures d[rest[i]] != d[rest[j]] && rest[i] != rest[j] {
      assert rest[i] == keys[i + 1] && rest[j] == keys[j + 1];
    }
  }

  /** The old names are the first key's old name and the others', which
      do not include it. */
  lemma {:induction false} OldNamesCons(d: map<string, string>, keys: seq<string>)
    requires |keys| >= 1 && forall i :: 0 <= i < |keys| ==> keys[i] in d
    requires forall i, j :: 0 <= i < j < |keys| ==> d[keys[i]] != d[keys[j]]
    ensures OldNames(d, keys) == {d[keys[0]]} + OldNames(d, keys[1..])
    ensures d[keys[0]] !in OldNames(d, keys[1..])
  {
    var o, rest := d[keys[0]], keys[1..];
    forall x | x in OldNames(d, keys) ensures x in {o} + OldNames(d, rest) {
      var i :| 0 <= i < |keys| && d[keys[i]] == x;
      if i > 0 { assert rest[i - 1] == keys[i]; }
    }
    forall x | x in OldNames(d, rest) ensures x in OldNames(d, keys) {
      var i :| 0 <= i < |rest| && d[rest[i]] == x;
      assert keys[i + 1] == rest[i];
    }
    forall i | 0 <= i < |rest| ensures d[rest[i]] != o {
      assert rest[i] == keys[i + 1];
    }
  }

  lemma {:induction false} KeysCons(keys: seq<string>)
    requires |keys| >= 1
    ensures (set x | x in keys) == {keys[0]} + set x | x in keys[1..]
  {
    assert keys == [keys[0]] + keys[1..];
  }

  lemma {:induction false} RenameThenRest(names: set<string>, o: string, k: string, olds: set<string>, news: set<string>)
    requires o !in olds && k !in olds
    ensures names - {o} + {k} - olds + news == names - ({o} + olds) + ({k} + news)
  {
  }

  /** The loop of `main` after `createNewFileNames`: visits the new names in
      sorted order and renames each file, appending the old name when the
      new one already exists, and only with "-c". */
  method RenameFiles(fs: FileSystem, d: map<string, string>, perform: bool) returns (keys: seq<string>, ok: bool)
    modifies fs
    ensures StringOrder.Sorted(keys) && StringOrder.Distinct(keys)
    ensures forall k :: k in keys <==> k in d
    ensures (fs.names, ok) == Apply(old(fs.names), d, keys, perform)
  {
    keys := StringOrder.SortSet(d.Keys);
    ok := true;
    var i := 0;
    while i < |keys|
      invariant 0 <= i <= |keys|
      invariant Apply(old(fs.names), d, keys, perform) == Apply(fs.names, d, keys[i..], perform)
    {
      var newName := keys[i];
      var oldName := d[newName];
      var newFinalName := newName;
      if fs.Exists(newName) {
        newFinalName := newName + oldName;
      }
      assert keys[i..][1..] == keys[i + 1..];
      if perform {
        ok := fs.Rename(oldName, newFinalName);
        if !ok {
          return;
        }
      }
      i := i + 1;
    }
  }
}
