/** `md5check` and `md5_recursive_tester` (the same program under two sets of
    variable names): every checksum file `find` reports is checked with
    `md5sum -c` in its own directory, and `printer` tallies the checker's
    output lines by their ending and passes the other lines through. */
module Md5Check {
  import Strings
  import Paths
  import Digits

  const OK := "OK"
  const FAILED_OPEN := "FAILED open or read"
  const NO_SUCH_FILE := "No such file or directory"

  /** The keys of the `analyzer` dictionary. */
  const KEYS: seq<string> := [OK, FAILED_OPEN, NO_SUCH_FILE]

  // ---------------------------------------------------------------- printer

  /** The stripped line ends with one of the tallied endings. */
  predicate Recognised(l: string) {
    Strings.EndsWith(l, OK) || Strings.EndsWith(l, FAILED_OPEN) || Strings.EndsWith(l, NO_SUCH_FILE)
  }

  /** How many lines, stripped, end with `a`. */
  function Count(lines: seq<string>, a: string): nat {
    if lines == [] then 0
    else Count(lines[..|lines| - 1], a) + (if Strings.EndsWith(Strings.Strip(lines[|lines| - 1]), a) then 1 else 0)
  }

  /** The stripped lines that end with none of the tallied endings, in order. */
  function Printed(lines: seq<string>): seq<string> {
    if lines == [] then []
    else
      var l := Strings.Strip(lines[|lines| - 1]);
      Printed(lines[..|lines| - 1]) + (if Recognised(l) then [] else [l])
  }

  /** The summary line for a non-zero counter. */
  function ReportLine(a: string, n: nat): string {
    "'" + a + "'-ending entries: " + Digits.NatToString(n)
  }

  /** The summary lines: one per ending that occurred at least once. */
  function Reports(lines: seq<string>): set<string> {
    set a | a in KEYS && Count(lines, a) > 0 :: ReportLine(a, Count(lines, a))
  }

  /** A counter dictionary with exactly the three endings as keys. */
  predicate IsAnalyzer(analyzer: map<string, nat>) {
    analyzer.Keys == {OK, FAILED_OPEN, NO_SUCH_FILE}
  }

  /** The inner loop of `printer` for one stripped line: every ending the
      line has adds one to its counter, and the line is to be printed when
      it has none. */
  method TallyLine(analyzer: map<string, nat>, l: string) returns (counted: map<string, nat>, toPrint: bool)
    requires IsAnalyzer(analyzer)
    ensures IsAnalyzer(counted)
    ensures counted[OK] == analyzer[OK] + (if Strings.EndsWith(l, OK) then 1 else 0)
    ensures counted[FAILED_OPEN] == analyzer[FAILED_OPEN] + (if Strings.EndsWith(l, FAILED_OPEN) then 1 else 0)
    ensures counted[NO_SUCH_FILE] == analyzer[NO_SUCH_FILE] + (if Strings.EndsWith(l, NO_SUCH_FILE) then 1 else 0)
    ensures toPrint <==> !Recognised(l)
  {
    counted := analyzer;
    toPrint := true;
    var j := 0;
    while j < |KEYS|
      invariant j <= |KEYS|
      invariant IsAnalyzer(counted)
      invariant counted[OK] == analyzer[OK] + (if 0 < j && Strings.EndsWith(l, OK) then 1 else 0)
      invariant counted[FAILED_OPEN] == analyzer[FAILED_OPEN] + (if 1 < j && Strings.EndsWith(l, FAILED_OPEN) then 1 else 0)
      invariant counted[NO_SUCH_FILE] == analyzer[NO_SUCH_FILE] + (if 2 < j && Strings.EndsWith(l, NO_SUCH_FILE) then 1 else 0)
      invariant toPrint <==> !(0 < j && Strings.EndsWith(l, OK)) && !(1 < j && Strings.EndsWith(l, FAILED_OPEN)) &&
                             !(2 < j && Strings.EndsWith(l, NO_SUCH_FILE))
    {
      var a := KEYS[j];
      if Strings.EndsWith(l, a) {
        counted := counted[a := counted[a] + 1];
        toPrint := false;
      }
      j := j + 1;
    }
  }

  /** The closing loop of `printer`: a line for every non-zero counter. */
  method ReportCounters(analyzer: map<string, nat>) returns (reported: set<string>)
    requires IsAnalyzer(analyzer)
    ensures reported == set a | a in KEYS && analyzer[a] > 0 :: ReportLine(a, analyzer[a])
  {
    reported := {};
    var j := 0;
    while j < |KEYS|
      invariant j <= |KEYS|
      invariant reported == set a | a in KEYS[..j] && analyzer[a] > 0 :: ReportLine(a, analyzer[a])
    {
      assert KEYS[..j + 1] == KEYS[..j] + [KEYS[j]];
      var a := KEYS[j];
      if analyzer[a] > 0 {
        reported := reported + {ReportLine(a, analyzer[a])};
      }
      j := j + 1;
    }
    assert KEYS[..j] == KEYS;
  }

  /** `printer` over the lines of one output stream: each stripped line
      adds one to the counter of every ending it has, and is printed when it
      has none; then every non-zero counter is reported. The dictionary's
      iteration order is not modelled: the report is a set. */
  method Printer(lines: seq<string>) returns (analyzer: map<string, nat>, printed: seq<string>, reported: set<string>)
    ensures IsAnalyzer(analyzer)
    ensures analyzer[OK] == Count(lines, OK)
    ensures analyzer[FAILED_OPEN] == Count(lines, FAILED_OPEN)
    ensures analyzer[NO_SUCH_FILE] == Count(lines, NO_SUCH_FILE)
    ensures printed == Printed(lines)
    ensures reported == Reports(lines)
  {
    analyzer := map[OK := 0, FAILED_OPEN := 0, NO_SUCH_FILE := 0];
    printed := [];
    var i := 0;
    while i < |lines|
      invariant i <= |lines|
      invariant IsAnalyzer(analyzer)
      invariant analyzer[OK] == Count(lines[..i], OK)
      invariant analyzer[FAILED_OPEN] == Count(lines[..i], FAILED_OPEN)
      invariant analyzer[NO_SUCH_FILE] == Count(lines[..i], NO_SUCH_FILE)
      invariant printed == Printed(lines[..i])
    {
      analyzer, printed := PrinterLine(lines, i, analyzer, printed);
      i := i + 1;
    }
    assert lines[..i] == lines;
    reported := ReportCounters(analyzer);
    SameReports(lines, analyzer);
  }

  /** The body of `printer`'s loop for line `i`: the counters and the
      printed lines move from the first `i` lines to the first `i + 1`. */
  method PrinterLine(lines: seq<string>, i: nat, analyzer: map<string, nat>, printed: seq<string>)
    returns (analyzer': map<string, nat>, printed': seq<string>)
    requires i < |lines|
    requires IsAnalyzer(analyzer)
    requires analyzer[OK] == Count(lines[..i], OK)
    requires analyzer[FAILED_OPEN] == Count(lines[..i], FAILED_OPEN)
    requires analyzer[NO_SUCH_FILE] == Count(lines[..i], NO_SUCH_FILE)
    requires printed == Printed(lines[..i])
    ensures IsAnalyzer(analyzer')
    ensures analyzer'[OK] == Count(lines[..i + 1], OK)
    ensures analyzer'[FAILED_OPEN] == Count(lines[..i + 1], FAILED_OPEN)
    ensures analyzer'[NO_SUCH_FILE] == Count(lines[..i + 1], NO_SUCH_FILE)
    ensures printed' == Printed(lines[..i + 1])
  {
    var l := Strings.Strip(lines[i]);
    LineStep(lines, i);
    var toPrint;
    analyzer', toPrint := TallyLine(analyzer, l);
    printed' := printed;
    if toPrint {
      printed' := printed + [l];
    }
  }

  /** The summary `printer` builds from its counters is the one the counts
      determine. */
  lemma {:induction false} SameReports(lines: seq<string>, analyzer: map<string, nat>)
    requires IsAnalyzer(analyzer)
    requires analyzer[OK] == Count(lines, OK)
    requires analyzer[FAILED_OPEN] == Count(lines, FAILED_OPEN)
    requires analyzer[NO_SUCH_FILE] == Count(lines, NO_SUCH_FILE)
    ensures (set a | a in KEYS && analyzer[a] > 0 :: ReportLine(a, analyzer[a])) == Reports(lines)
  {
    assert forall a :: a in KEYS ==> analyzer[a] == Count(lines, a);
  }

  /** One more line adds to the counter of its ending, or to the printed
      lines. */
  lemma {:induction false} LineStep(lines: seq<string>, i: nat)
    requires i < |lines|
    ensures var l := Strings.Strip(lines[i]);
      forall a :: Count(lines[..i + 1], a) == Count(lines[..i], a) + (if Strings.EndsWith(l, a) then 1 else 0)
    ensures var l := Strings.Strip(lines[i]);
      Printed(lines[..i + 1]) == Printed(lines[..i]) + (if Recognised(l) then [] else [l])
  {
    assert lines[..i + 1][..i] == lines[..i];
  }

  /** No line ends with two of the tallied endings: their last characters
      differ. */
  lemma {:induction false} AtMostOneEnding(l: string)
    ensures !(Strings.EndsWith(l, OK) && Strings.EndsWith(l, FAILED_OPEN))
    ensures !(Strings.EndsWith(l, OK) && Strings.EndsWith(l, NO_SUCH_FILE))
    ensures !(Strings.EndsWith(l, FAILED_OPEN) && Strings.EndsWith(l, NO_SUCH_FILE))
  {
    if Strings.EndsWith(l, OK) {
      assert l[|l| - 1] == OK[1];
    }
    if Strings.EndsWith(l, FAILED_OPEN) {
      assert l[|l| - 1] == FAILED_OPEN[|FAILED_OPEN| - 1];
    }
    if Strings.EndsWith(l, NO_SUCH_FILE) {
      assert l[|l| - 1] == NO_SUCH_FILE[|NO_SUCH_FILE| - 1];
    }
  }

  /** Every line is either counted exactly once or printed: the three
      counters and the printed lines add up to the number of lines. */
  lemma {:induction false} TallyTotal(lines: seq<string>)
    ensures Count(lines, OK) + Count(lines, FAILED_OPEN) + Count(lines, NO_SUCH_FILE) + |Printed(lines)| == |lines|
    decreases |lines|
  {
    if lines != [] {
      TallyTotal(lines[..|lines| - 1]);
      AtMostOneEnding(Strings.Strip(lines[|lines| - 1]));
    }
  }

  /** The printed lines of all but the last line, then the last line if it
      is printed. */
  lemma {:induction false} PrintedLast(lines: seq<string>)
    requires lines != []
    ensures var n := |lines| - 1; var last := Strings.Strip(lines[n]);
      Printed(lines) == Printed(lines[..n]) + (if Recognised(last) then [] else [last])
  {
  }

  /** Every printed line is some input line, stripped, with none of the
      endings. */
  lemma {:induction false} PrintedSound(lines: seq<string>, l: string) returns (i: nat)
    requires l in Printed(lines)
    ensures i < |lines| && l == Strings.Strip(lines[i]) && !Recognised(l)
    decreases |lines|
  {
    var n := |lines| - 1;
    PrintedLast(lines);
    if !Recognised(Strings.Strip(lines[n])) && l == Strings.Strip(lines[n]) {
      i := n;
    } else {
      i := PrintedSound(lines[..n], l);
    }
  }

  /** Every input line with none of the endings is printed, stripped. */
  lemma {:induction false} PrintedComplete(lines: seq<string>, i: nat)
    requires i < |lines| && !Recognised(Strings.Strip(lines[i]))
    ensures Strings.Strip(lines[i]) in Printed(lines)
    decreases |lines|
  {
    var n := |lines| - 1;
    PrintedLast(lines);
    if i < n {
      PrintedComplete(lines[..n], i);
    }
  }

  // ------------------------------------------------------------------- main

  /** What `main` makes of one line of `find`'s output: the stripped entry,
      the directory it changes to, the checksum file's name and the command
      text. */
  datatype Plan = Plan(entry: string, directory: string, fileName: string, command: string)

  const MD5SUM_CHECK := "md5sum -c "

  function PlanOf(line: string): Plan {
    var entry := Strings.Strip(line);
    var fileName := Paths.Basename(entry);
    Plan(entry, Paths.Dirname(entry), fileName, MD5SUM_CHECK + fileName)
  }

  /** An entry as `find .` prints it (a '/' in it, the last one not doubled):
      the directory is not empty, and the file `md5sum` is asked to check, in
      that directory, is the entry that was found. */
  lemma {:induction false} FoundEntryRejoins(line: string)
    requires var e := Strings.Strip(line); '/' in e
    requires var e := Strings.Strip(line); var k := Strings.RFind(e, '/'); k == 0 || e[k - 1] != '/'
    ensures var p := PlanOf(line); p.directory != [] && Paths.Join(p.directory, p.fileName) == p.entry
  {
    var e := Strings.Strip(line);
    Paths.DirnameAtLastSlash(e);
    Paths.DirnameBasenameJoin(e);
  }

  /** `main`'s loop over the entries: each entry's plan in order, until an
      entry without a directory part, where `os.chdir('')` raises and ends
      the run. */
  method EntryPlans(lines: seq<string>) returns (plans: seq<Plan>, stopped: bool)
    ensures |plans| <= |lines|
    ensures forall k :: 0 <= k < |plans| ==> plans[k] == PlanOf(lines[k]) && plans[k].directory != []
    ensures stopped <==> |plans| < |lines|
    ensures stopped ==> PlanOf(lines[|plans|]).directory == []
  {
    plans := [];
    stopped := false;
    var i := 0;
    while i < |lines|
      invariant i <= |lines| && |plans| == i
      invariant forall k :: 0 <= k < i ==> plans[k] == PlanOf(lines[k]) && plans[k].directory != []
    {
      var p := PlanOf(lines[i]);
      if p.directory == [] {
        stopped := true;
        return;
      }
      plans := plans + [p];
      i := i + 1;
    }
  }

  /** The arguments `main` hands to `subprocess`: the command text split at
      white space. */
  function AsWrittenArgs(p: Plan): (args: seq<string>)
    ensures forall k :: 0 <= k < |args| ==> Strings.NoWhitespace(args[k])
  {
    Strings.SplitWhitespace(p.command)
  }

  /** The arguments as intended: the checksum file's name as one argument. */
  function CorrectedArgs(p: Plan): (args: seq<string>)
    ensures |args| == 3 && args[2] == p.fileName
  {
    ["md5sum", "-c", p.fileName]
  }

  /** The command text is the two leading words, each followed by a space,
      then the file name. */
  lemma {:induction false} CommandText(f: string)
    ensures MD5SUM_CHECK + f == "md5sum" + " " + ("-c" + " " + f)
  {
  }

  /** The two leading words of the command hold no white space. */
  lemma {:induction false} CommandWords()
    ensures "md5sum" != [] && Strings.NoWhitespace("md5sum")
    ensures "-c" != [] && Strings.NoWhitespace("-c")
  {
  }

  /** The command text splits into "md5sum", "-c" and the words of the
      file name. */
  lemma {:induction false} CommandSplitWords(f: string)
    ensures Strings.SplitWhitespace(MD5SUM_CHECK + f) == ["md5sum", "-c"] + Strings.SplitWhitespace(f)
  {
    var t := "-c" + " " + f;
    CommandWords();
    Strings.SplitWord("-c", f);
    Strings.SplitWord("md5sum", t);
    CommandText(f);
  }

  /** Splitting the command text for a file name without white space. */
  lemma {:induction false} CommandSplit(f: string)
    requires f != [] && Strings.NoWhitespace(f)
    ensures Strings.SplitWhitespace(MD5SUM_CHECK + f) == ["md5sum", "-c", f]
  {
    CommandSplitWords(f);
    Strings.SplitSingle(f);
  }

  /** For a file name without white space, splitting the command text gives
      exactly the intended arguments. */
  lemma {:induction false} ArgsAgree(line: string)
    requires var f := PlanOf(line).fileName; f != [] && Strings.NoWhitespace(f)
    ensures AsWrittenArgs(PlanOf(line)) == CorrectedArgs(PlanOf(line))
  {
    var p := PlanOf(line);
    assert p.command == MD5SUM_CHECK + p.fileName;
    CommandSplit(p.fileName);
  }

  /** The entry `./my sums.md5` names the file `my sums.md5`, two words and
      a space, which `AsWrittenSplitsName` applies to. */
  lemma {:induction false} SpacedEntry()
    ensures PlanOf("./my sums.md5").fileName == "my sums.md5"
  {
    var e := "./my sums.md5";
    assert Strings.Strip(e) == e by {
      assert e + "" == e;
      Strings.StripTrailing(e, "");
    }
    assert e[1] == '/' && '/' !in e[2..];
    assert Strings.RFind(e, '/') == 1;
    assert e[2..] == "my sums.md5";
  }

  /** Splitting the command text for a file name of two words. */
  lemma {:induction false} CommandSplitTwo(a: string, b: string)
    requires a != [] && Strings.NoWhitespace(a) && b != [] && Strings.NoWhitespace(b)
    ensures Strings.SplitWhitespace(MD5SUM_CHECK + (a + " " + b)) == ["md5sum", "-c", a, b]
  {
    CommandSplitWords(a + " " + b);
    Strings.SplitWord(a, b);
    Strings.SplitSingle(b);
  }

  /** A checksum file name made of two words and a space is passed to
      `md5sum` as two file names, neither of which is the one found. */
  lemma {:induction false} AsWrittenSplitsName(line: string, a: string, b: string)
    requires a != [] && Strings.NoWhitespace(a) && b != [] && Strings.NoWhitespace(b)
    requires PlanOf(line).fileName == a + " " + b
    ensures AsWrittenArgs(PlanOf(line)) == ["md5sum", "-c", a, b]
    ensures AsWrittenArgs(PlanOf(line)) != CorrectedArgs(PlanOf(line))
  {
    var p := PlanOf(line);
    assert p.command == MD5SUM_CHECK + (a + " " + b);
    CommandSplitTwo(a, b);
    assert |a| < |p.fileName|;
  }
}
