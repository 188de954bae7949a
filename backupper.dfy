/** `backupper`: the XML configuration, already parsed into sections of
    attribute maps, becomes an ordered list of `Command` records (tar, then
    optionally gzip and a gzip test) that an executor later runs. Running
    them, logging and the XML parser are not modelled. */
module Backupper {
  import opened Results
  import Strings
  import Paths
  import FileSys

  // ---------------------------------------------------------------- Command

  /** The state of a `Command`: where to run, what to run, where its
      standard output goes and the text written before that output. */
  datatype CommandValue = CommandValue(changeToDir: string, command: Option<string>, stdOutLogFile: Option<string>, logPrefix: string)

  class Command {
    var changeToDir: string
    var command: Option<string>
    var stdOutLogFile: Option<string>
    var logPrefix: string

    function Value(): CommandValue
      reads this
    {
      CommandValue(changeToDir, command, stdOutLogFile, logPrefix)
    }

    /** A new command has no command text, no log file and an empty log
        prefix. */
    constructor (changeToDir: string)
      ensures Value() == CommandValue(changeToDir, None, None, "")
    {
      this.changeToDir := changeToDir;
      command := None;
      stdOutLogFile := None;
      logPrefix := "";
    }

    method SetCommand(command: string)
      modifies this
      ensures Value() == old(Value()).(command := Some(command))
    {
      this.command := Some(command);
    }

    method SetStdOutLogFile(stdOutLogFile: string)
      modifies this
      ensures Value() == old(Value()).(stdOutLogFile := Some(stdOutLogFile))
    {
      this.stdOutLogFile := Some(stdOutLogFile);
    }

    method SetLogPrefix(logPrefix: string)
      modifies this
      ensures Value() == old(Value()).(logPrefix := logPrefix)
    {
      this.logPrefix := logPrefix;
    }
  }

  /** The states of a list of commands. */
  function Values(cs: seq<Command>): (vs: seq<CommandValue>)
    reads cs
    ensures |vs| == |cs| && forall k :: 0 <= k < |cs| ==> vs[k] == cs[k].Value()
  {
    if cs == [] then [] else [cs[0].Value()] + Values(cs[1..])
  }

  // ------------------------------------------------------ `%` with a mapping

  /** Prefixes the text of a successful result. */
  function Prepend(p: string, r: Result<string>): Result<string> {
    match r
    case Ok(v) => Ok(p + v)
    case Err(e) => Err(e)
  }

  /** How many characters come before the first ')' (all of them if none). */
  function KeyLength(t: string): (n: nat)
    ensures n <= |t| && (n < |t| ==> t[n] == ')')
    ensures forall i :: 0 <= i < n ==> t[i] != ')'
  {
    if t == [] || t[0] == ')' then 0 else 1 + KeyLength(t[1..])
  }

  /** `template % d` for a dictionary `d` of strings: every `%(key)s` becomes
      `d[key]`, `%%` becomes `%`; a key missing from `d` raises `KeyError`,
      and a '%' that starts neither form is an error of the model. */
  function Format(t: string, d: map<string, string>): Result<string>
    decreases |t|
  {
    if t == [] then Ok("")
    else if t[0] != '%' then Prepend([t[0]], Format(t[1..], d))
    else if |t| == 1 then Err("ValueError: incomplete format")
    else if t[1] == '%' then Prepend("%", Format(t[2..], d))
    else if t[1] != '(' then Err("unsupported conversion")
    else
      var n := KeyLength(t[2..]);
      var key := t[2..2 + n];
      if 2 + n == |t| then Err("ValueError: incomplete format key")
      else if 3 + n == |t| then Err("ValueError: incomplete format")
      else if t[3 + n] != 's' then Err("unsupported conversion")
      else if key !in d then Err("KeyError: " + key)
      else Prepend(d[key], Format(t[4 + n..], d))
  }

  /** Text without '%' formats to itself. */
  lemma {:induction false} FormatPlain(t: string, d: map<string, string>)
    requires '%' !in t
    ensures Format(t, d) == Ok(t)
    decreases |t|
  {
    if t != [] {
      FormatPlain(t[1..], d);
      assert [t[0]] + t[1..] == t;
    }
  }

  /** Text without '%' is copied in front of what follows. */
  lemma {:induction false} FormatPlainPrefix(pre: string, rest: string, d: map<string, string>)
    requires '%' !in pre
    ensures Format(pre + rest, d) == Prepend(pre, Format(rest, d))
    decreases |pre|
  {
    if pre == [] {
      assert pre + rest == rest;
      match Format(rest, d) {
        case Ok(v) => assert pre + v == v;
        case Err(_) =>
      }
    } else {
      var t := pre + rest;
      assert t[0] == pre[0] && t[1..] == pre[1..] + rest;
      FormatPlainPrefix(pre[1..], rest, d);
      match Format(rest, d) {
        case Ok(v) => Strings.AppendAssoc([pre[0]], pre[1..], v); assert [pre[0]] + pre[1..] == pre;
        case Err(_) =>
      }
    }
  }

  /** A `%(key)s` field for a key of `d` becomes `d[key]`. */
  lemma {:induction false} FormatField(key: string, post: string, d: map<string, string>)
    requires ')' !in key && key in d
    ensures Format("%(" + key + ")s" + post, d) == Prepend(d[key], Format(post, d))
  {
    var t := "%(" + key + ")s" + post;
    assert t[2..] == key + ")s" + post;
    var n := KeyLength(t[2..]);
    assert (key + ")s" + post)[|key|] == ')';
    assert forall i :: 0 <= i < |key| ==> t[2..][i] == key[i];
    assert n == |key|;
    assert t[2..2 + n] == key;
    assert t[3 + n] == 's';
    assert t[4 + n..] == post;
  }

  /** A template with one field and no other '%' is the text around the
      field with the field's value in between. */
  lemma {:induction false} FormatOneField(pre: string, key: string, post: string, d: map<string, string>)
    requires '%' !in pre && '%' !in post && ')' !in key && key in d
    ensures Format(pre + "%(" + key + ")s" + post, d) == Ok(pre + d[key] + post)
  {
    var field := "%(" + key + ")s" + post;
    assert pre + "%(" + key + ")s" + post == pre + field;
    FormatPlainPrefix(pre, field, d);
    FormatField(key, post, d);
    FormatPlain(post, d);
    Strings.AppendAssoc(pre, d[key], post);
  }

  // ------------------------------------------------------------ getCommands

  /** `d.get(key, None)` on an attribute map. */
  function Get(attrs: map<string, string>, key: string): Option<string> {
    if key in attrs then Some(attrs[key]) else None
  }

  /** Python's truth value of an optional string: present and not empty. */
  predicate Truthy(v: Option<string>) {
    v.Some? && v.value != ""
  }

  /** `"%s" % v`: the text, or "None" when absent. */
  function Text(v: Option<string>): string {
    if v.Some? then v.value else "None"
  }

  const FILELIST_LOG := "archive-filelist.log"

  /** A line of 78 '=' characters. */
  const RULE := Strings.Repeat('=', 78)

  /** The text written before the tar command's output in the file list. */
  function LogPrefix(command: string): string {
    "\n" + RULE + "\n" + command + "\n" + RULE + "\n"
  }

  /** The archive's base name: `archiveName`, or `srcDir` when that is
      missing or empty. */
  function ArchiveName(dir: map<string, string>): Option<string> {
    var a := Get(dir, "archiveName");
    if Truthy(a) then a else Get(dir, "srcDir")
  }

  /** Where the tar archive goes: destDir/dest/<archive name>.tar. */
  function TarPath(destDir: string, dest: string, archiveName: string): string {
    Paths.Join3(destDir, dest, archiveName + ".tar")
  }

  /** The `--exclude` options for the comma-separated items. */
  function ExcludeOptions(items: seq<string>): string {
    if items == [] then ""
    else "--exclude " + Strings.Strip(items[0]) + " " + ExcludeOptions(items[1..])
  }

  function ExcludeText(exclude: Option<string>): string {
    if Truthy(exclude) then ExcludeOptions(Strings.Split(exclude.value, ',')) else ""
  }

  const TYPE_ERROR := "TypeError: sequence item 0: expected string, NoneType found"
  const ATTRIBUTE_ERROR := "AttributeError: 'NoneType' object has no attribute 'split'"

  /** The tar command: the only one whose output goes to the file list,
      after a banner that names the command. */
  function TarCommand(destDir: string, changeTo: string, command: string): CommandValue {
    CommandValue(changeTo, Some(command), Some(Paths.Join(destDir, FILELIST_LOG)), LogPrefix(command))
  }

  /** The gzip and gzip-test commands: output not logged, no banner. */
  function PlainCommand(changeTo: string, command: string): CommandValue {
    CommandValue(changeTo, Some(command), None, "")
  }

  /** The fields the tar template may name. */
  function TarFields(tar: string, dir: map<string, string>): map<string, string> {
    map["archive" := tar, "dir" := Text(Get(dir, "srcDir")), "exclude" := ExcludeText(Get(dir, "exclude"))]
  }

  /** The commands for the comma-separated actions `ac`: the tar command,
      and with exactly three actions the gzip and gzip-test commands too. */
  function ActionCommands(destDir: string, changeTo: string, tar: string, dir: map<string, string>, ac: seq<string>)
    : Result<seq<CommandValue>>
    requires |ac| >= 1
  {
    match Format(Strings.Strip(ac[0]), TarFields(tar, dir))
    case Err(e) => Err(e)
    case Ok(command) =>
      if |ac| != 3 then Ok([TarCommand(destDir, changeTo, command)])
      else
        match Format(Strings.Strip(ac[1]), map["archive" := tar])
        case Err(e) => Err(e)
        case Ok(gzip) =>
          match Format(Strings.Strip(ac[2]), map["zipArchive" := tar + ".gz"])
          case Err(e) => Err(e)
          case Ok(test) => Ok([TarCommand(destDir, changeTo, command), PlainCommand(changeTo, gzip), PlainCommand(changeTo, test)])
  }

  /** `getCommands` for one `<dir>` element, as command states: no list
      exactly when neither `srcDir` nor `actions` is given; a missing
      archive name or a missing `actions` raises. */
  function CommandsFor(destDir: string, changeTo: string, dest: string, dir: map<string, string>)
    : (r: Result<Option<seq<CommandValue>>>)
    ensures r == Ok(None) <==> !Truthy(Get(dir, "srcDir")) && !Truthy(Get(dir, "actions"))
    ensures Truthy(Get(dir, "srcDir")) && Get(dir, "actions").None? ==> r == Err(ATTRIBUTE_ERROR)
    ensures Truthy(Get(dir, "actions")) && Get(dir, "srcDir").None? && !Truthy(Get(dir, "archiveName")) ==> r == Err(TYPE_ERROR)
  {
    var srcDir := Get(dir, "srcDir");
    var actions := Get(dir, "actions");
    if !Truthy(srcDir) && !Truthy(actions) then Ok(None)
    else
      var name := ArchiveName(dir);
      if name.None? then Err(TYPE_ERROR)
      else if actions.None? then Err(ATTRIBUTE_ERROR)
      else
        match ActionCommands(destDir, changeTo, TarPath(destDir, dest, name.value), dir, Strings.Split(actions.value, ','))
        case Err(e) => Err(e)
        case Ok(cs) => Ok(Some(cs))
  }

  /** The list `getCommands` returns: one command, or three for three
      actions; all change to the section's directory; only the first (tar)
      logs its output, to the file list, after a banner naming it. */
  lemma {:induction false} CommandsShape(destDir: string, changeTo: string, dest: string, dir: map<string, string>)
    requires var r := CommandsFor(destDir, changeTo, dest, dir); r.Ok? && r.value.Some?
    ensures Get(dir, "actions").Some?
    ensures var cs := CommandsFor(destDir, changeTo, dest, dir).value.value;
      && |cs| == (if |Strings.Split(Get(dir, "actions").value, ',')| == 3 then 3 else 1)
      && (forall k :: 0 <= k < |cs| ==> cs[k].changeToDir == changeTo && cs[k].command.Some?)
      && cs[0].stdOutLogFile == Some(Paths.Join(destDir, FILELIST_LOG))
      && cs[0].logPrefix == LogPrefix(cs[0].command.value)
      && (forall k :: 1 <= k < |cs| ==> cs[k].stdOutLogFile == None && cs[k].logPrefix == "")
  {
  }

  /** The command states of a `getCommands` outcome made of objects. */
  function Outcome(r: Result<Option<seq<Command>>>): Result<Option<seq<CommandValue>>>
    reads if r.Ok? && r.value.Some? then r.value.value else []
  {
    match r
    case Err(e) => Err(e)
    case Ok(None) => Ok(None)
    case Ok(Some(cs)) => Ok(Some(Values(cs)))
  }

  /** A new `Command` set up as the tar command. */
  method NewTarCommand(destDir: string, changeTo: string, command: string) returns (c: Command)
    ensures fresh(c) && c.Value() == TarCommand(destDir, changeTo, command)
  {
    c := new Command(changeTo);
    c.SetCommand(command);
    c.SetStdOutLogFile(Paths.Join(destDir, FILELIST_LOG));
    c.SetLogPrefix(LogPrefix(command));
  }

  /** A new `Command` that only runs `command`. */
  method NewPlainCommand(changeTo: string, command: string) returns (c: Command)
    ensures fresh(c) && c.Value() == PlainCommand(changeTo, command)
  {
    c := new Command(changeTo);
    c.SetCommand(command);
  }

  /** `getCommands`: the `Command` objects, in the order they run. */
  method GetCommands(destDir: string, changeTo: string, dest: string, dir: map<string, string>)
    returns (r: Result<Option<seq<Command>>>)
    ensures Outcome(r) == CommandsFor(destDir, changeTo, dest, dir)
    ensures r.Ok? && r.value.Some? ==> forall k :: 0 <= k < |r.value.value| ==> fresh(r.value.value[k])
  {
    var srcDir := Get(dir, "srcDir");
    var actions := Get(dir, "actions");
    if !Truthy(srcDir) && !Truthy(actions) {
      return Ok(None);
    }
    var name := ArchiveName(dir);
    if name.None? {
      return Err(TYPE_ERROR);
    }
    if actions.None? {
      return Err(ATTRIBUTE_ERROR);
    }
    var tar := TarPath(destDir, dest, name.value);
    var commands := RunActions(destDir, changeTo, tar, dir, Strings.Split(actions.value, ','));
    if commands.Err? {
      return Err(commands.error);
    }
    r := Ok(Some(commands.value));
  }

  /** The part of `getCommands` after the archive path is known: formats
      each action and makes its `Command`. */
  method RunActions(destDir: string, changeTo: string, tar: string, dir: map<string, string>, ac: seq<string>)
    returns (r: Result<seq<Command>>)
    requires |ac| >= 1
    ensures var spec := ActionCommands(destDir, changeTo, tar, dir, ac);
      && (r.Err? <==> spec.Err?)
      && (r.Err? ==> r.error == spec.error)
      && (r.Ok? ==> Values(r.value) == spec.value)
    ensures r.Ok? ==> forall k :: 0 <= k < |r.value| ==> fresh(r.value[k])
  {
    var command := Format(Strings.Strip(ac[0]), TarFields(tar, dir));
    if command.Err? {
      return Err(command.error);
    }
    var first := NewTarCommand(destDir, changeTo, command.value);
    if |ac| != 3 {
      r := Ok([first]);
      assert Values([first]) == [first.Value()];
      return;
    }
    var gzipCommand := Format(Strings.Strip(ac[1]), map["archive" := tar]);
    if gzipCommand.Err? {
      return Err(gzipCommand.error);
    }
    var gzip := NewPlainCommand(changeTo, gzipCommand.value);
    var testCommand := Format(Strings.Strip(ac[2]), map["zipArchive" := tar + ".gz"]);
    if testCommand.Err? {
      return Err(testCommand.error);
    }
    var test := NewPlainCommand(changeTo, testCommand.value);
    r := Ok([first, gzip, test]);
    assert Values([first, gzip, test]) == [first.Value(), gzip.Value(), test.Value()];
  }

  lemma {:induction false} ActionsTarField(destDir: string, changeTo: string, tar: string, dir: map<string, string>, ac: seq<string>, pre: string, post: string)
    requires |ac| >= 1 && Strings.Strip(ac[0]) == pre + "%(archive)s" + post
    requires '%' !in pre && '%' !in post
    ensures var r := ActionCommands(destDir, changeTo, tar, dir, ac);
      (|ac| != 3 ==> r.Ok?) && (r.Ok? ==> r.value[0].command == Some(pre + tar + post))
  {
    assert "%(" + "archive" + ")s" == "%(archive)s";
    assert pre + "%(" + "archive" + ")s" + post == pre + "%(archive)s" + post;
    FormatOneField(pre, "archive", post, TarFields(tar, dir));
  }

  lemma {:induction false} ActionsZipField(destDir: string, changeTo: string, tar: string, dir: map<string, string>, ac: seq<string>, pre: string, post: string)
    requires |ac| == 3 && Strings.Strip(ac[2]) == pre + "%(zipArchive)s" + post
    requires '%' !in pre && '%' !in post
    requires ActionCommands(destDir, changeTo, tar, dir, ac).Ok?
    ensures var r := ActionCommands(destDir, changeTo, tar, dir, ac);
      |r.value| == 3 && r.value[2].command == Some(pre + tar + ".gz" + post)
  {
    assert "%(" + "zipArchive" + ")s" == "%(zipArchive)s";
    assert pre + "%(" + "zipArchive" + ")s" + post == pre + "%(zipArchive)s" + post;
    FormatOneField(pre, "zipArchive", post, map["zipArchive" := tar + ".gz"]);
    Strings.AppendAssoc(pre, tar, ".gz");
  }

  /** The tar template's `%(archive)s` field becomes
      destDir/dest/<name>.tar, where the name is `archiveName` or, when that
      is missing or empty, `srcDir`. */
  lemma {:induction false} TarCommandArchive(destDir: string, changeTo: string, dest: string, dir: map<string, string>, pre: string, post: string)
    requires (Truthy(Get(dir, "srcDir")) || Truthy(Get(dir, "actions"))) && Get(dir, "actions").Some?
    requires Truthy(Get(dir, "archiveName")) || Get(dir, "srcDir").Some?
    requires Strings.Strip(Strings.Split(Get(dir, "actions").value, ',')[0]) == pre + "%(archive)s" + post
    requires '%' !in pre && '%' !in post
    ensures var name := if Truthy(Get(dir, "archiveName")) then Get(dir, "archiveName").value else Get(dir, "srcDir").value;
      var r := CommandsFor(destDir, changeTo, dest, dir);
      && (|Strings.Split(Get(dir, "actions").value, ',')| != 3 ==> r.Ok?)
      && (r.Ok? ==> r.value.Some? && r.value.value[0].command == Some(pre + TarPath(destDir, dest, name) + post))
  {
    var tar := TarPath(destDir, dest, ArchiveName(dir).value);
    ActionsTarField(destDir, changeTo, tar, dir, Strings.Split(Get(dir, "actions").value, ','), pre, post);
  }

  /** The gzip test template's `%(zipArchive)s` field becomes the tar path
      with ".gz" appended. */
  lemma {:induction false} ZipArchiveIsTarGz(destDir: string, changeTo: string, dest: string, dir: map<string, string>, pre: string, post: string)
    requires Get(dir, "actions").Some?
    requires var ac := Strings.Split(Get(dir, "actions").value, ',');
      |ac| == 3 && Strings.Strip(ac[2]) == pre + "%(zipArchive)s" + post
    requires '%' !in pre && '%' !in post
    requires CommandsFor(destDir, changeTo, dest, dir).Ok?
    ensures var r := CommandsFor(destDir, changeTo, dest, dir);
      r.value.Some? && |r.value.value| == 3
      && r.value.value[2].command == Some(pre + TarPath(destDir, dest, ArchiveName(dir).value) + ".gz" + post)
  {
    var tar := TarPath(destDir, dest, ArchiveName(dir).value);
    ActionsZipField(destDir, changeTo, tar, dir, Strings.Split(Get(dir, "actions").value, ','), pre, post);
  }

  /** Without an exclude list, or with an empty one, there are no exclude
      options. */
  lemma {:induction false} NoExcludeOptions(exclude: Option<string>)
    requires !Truthy(exclude)
    ensures ExcludeText(exclude) == ""
  {
  }

  /** The words of the exclude options: "--exclude" before each stripped
      item. */
  function ExcludeWords(items: seq<string>): (ws: seq<string>)
    ensures |ws| == 2 * |items|
  {
    if items == [] then [] else ["--exclude", Strings.Strip(items[0])] + ExcludeWords(items[1..])
  }

  /** Split at white space, as the executor does, the exclude options give
      each stripped item back after its own "--exclude", when the items hold
      no inner white space and none is empty. */
  lemma {:induction false} ExcludeOptionsSplit(items: seq<string>)
    requires forall k :: 0 <= k < |items| ==> Strings.Strip(items[k]) != [] && Strings.NoWhitespace(Strings.Strip(items[k]))
    ensures Strings.SplitWhitespace(ExcludeOptions(items)) == ExcludeWords(items)
    decreases |items|
  {
    if items != [] {
      ExcludeOptionsSplit(items[1..]);
      OptionWords(Strings.Strip(items[0]), ExcludeOptions(items[1..]));
    }
  }

  /** One "--exclude <item> " option splits into its two words. */
  lemma {:induction false} OptionWords(item: string, rest: string)
    requires item != [] && Strings.NoWhitespace(item)
    ensures Strings.SplitWhitespace("--exclude " + item + " " + rest) == ["--exclude", item] + Strings.SplitWhitespace(rest)
  {
    ExcludeSpace();
    assert "--exclude " + item + " " + rest == "--exclude" + " " + (item + " " + rest);
    Strings.SplitWord(item, rest);
    Strings.SplitWord("--exclude", item + " " + rest);
  }

  lemma {:induction false} ExcludeSpace()
    ensures "--exclude " == "--exclude" + " " && Strings.NoWhitespace("--exclude")
  {
  }

  // ---------------------------------------------------------------- process

  /** A `<commonDirs>` element: its attributes and its `<dir>` elements. */
  datatype Section = Section(attrs: map<string, string>, dirs: seq<map<string, string>>)

  /** A section is used only when it has a destination and a directory to
      change to. */
  predicate Accepted(s: Section) {
    Truthy(Get(s.attrs, "destination")) && Truthy(Get(s.attrs, "changeTo"))
  }

  /** The commands of a section's `<dir>` elements, in order; the first
      exception ends the section. */
  function SectionCommands(destDir: string, changeTo: string, dest: string, dirs: seq<map<string, string>>): Result<seq<CommandValue>> {
    if dirs == [] then Ok([])
    else
      match SectionCommands(destDir, changeTo, dest, dirs[..|dirs| - 1])
      case Err(e) => Err(e)
      case Ok(prev) =>
        match CommandsFor(destDir, changeTo, dest, dirs[|dirs| - 1])
        case Err(e) => Err(e)
        case Ok(None) => Ok(prev)
        case Ok(Some(cs)) => Ok(prev + cs)
  }

  /** What `process` has done after some sections: the commands gathered,
      the destination directories it made sure exist, and the exception
      that ended it, if any. */
  datatype Progress = Progress(commands: seq<CommandValue>, made: set<string>, error: Option<string>)

  /** What one more section does to the progress of `process`. */
  function Step(destDir: string, p: Progress, s: Section): Progress {
    if p.error.Some? || !Accepted(s) then p
    else
      var dest := Get(s.attrs, "destination").value;
      match SectionCommands(destDir, Get(s.attrs, "changeTo").value, dest, s.dirs)
      case Err(e) => Progress(p.commands, p.made, Some(e))
      case Ok(cs) => Progress(p.commands + cs, p.made + {Paths.Join(destDir, dest)}, None)
  }

  function ProcessSpec(destDir: string, sections: seq<Section>): Progress {
    if sections == [] then Progress([], {}, None)
    else Step(destDir, ProcessSpec(destDir, sections[..|sections| - 1]), sections[|sections| - 1])
  }

  lemma {:induction false} ProcessLast(destDir: string, sections: seq<Section>, s: Section)
    ensures ProcessSpec(destDir, sections + [s]) == Step(destDir, ProcessSpec(destDir, sections), s)
  {
    assert (sections + [s])[..|sections|] == sections;
  }

  /** Sections without a destination or a directory to change to add
      nothing. */
  lemma {:induction false} SkipsIncomplete(destDir: string, sections: seq<Section>, s: Section)
    requires !Accepted(s)
    ensures ProcessSpec(destDir, sections + [s]) == ProcessSpec(destDir, sections)
  {
    ProcessLast(destDir, sections, s);
  }

  /** A section adds the same commands and directories whatever came
      before it. */
  lemma {:induction false} StepAfter(destDir: string, pa: Progress, pb: Progress, s: Section)
    requires pa.error.None? && pb.error.None?
    requires Step(destDir, Progress(pa.commands + pb.commands, pa.made + pb.made, None), s).error.None?
    ensures Step(destDir, pb, s).error.None?
    ensures Step(destDir, Progress(pa.commands + pb.commands, pa.made + pb.made, None), s)
         == Progress(pa.commands + Step(destDir, pb, s).commands, pa.made + Step(destDir, pb, s).made, None)
  {
    if Accepted(s) {
      var dest := Get(s.attrs, "destination").value;
      var sc := SectionCommands(destDir, Get(s.attrs, "changeTo").value, dest, s.dirs);
      assert sc.Ok?;
      assert (pa.commands + pb.commands) + sc.value == pa.commands + (pb.commands + sc.value);
      assert (pa.made + pb.made) + {Paths.Join(destDir, dest)} == pa.made + (pb.made + {Paths.Join(destDir, dest)});
    }
  }

  /** The commands keep the order of the sections: processing two runs of
      sections gives the first run's commands, then the second's. */
  lemma {:induction false} ProcessAppend(destDir: string, a: seq<Section>, b: seq<Section>)
    requires ProcessSpec(destDir, a + b).error.None?
    ensures ProcessSpec(destDir, a).error.None? && ProcessSpec(destDir, b).error.None?
    ensures ProcessSpec(destDir, a + b)
         == Progress(ProcessSpec(destDir, a).commands + ProcessSpec(destDir, b).commands,
                     ProcessSpec(destDir, a).made + ProcessSpec(destDir, b).made, None)
    decreases |b|
  {
    if b == [] {
      assert a + b == a;
      assert ProcessSpec(destDir, a).commands + [] == ProcessSpec(destDir, a).commands;
      assert ProcessSpec(destDir, a).made + {} == ProcessSpec(destDir, a).made;
    } else {
      var b' := b[..|b| - 1];
      var s := b[|b| - 1];
      assert b == b' + [s];
      assert a + b == (a + b') + [s];
      ProcessLast(destDir, a + b', s);
      ProcessLast(destDir, b', s);
      ProcessAppend(destDir, a, b');
      StepAfter(destDir, ProcessSpec(destDir, a), ProcessSpec(destDir, b'), s);
    }
  }

  /** The `<dir>` loop of `process` for one section. */
  method SectionRun(destDir: string, changeTo: string, dest: string, dirs: seq<map<string, string>>)
    returns (cs: seq<Command>, error: Option<string>)
    ensures var r := SectionCommands(destDir, changeTo, dest, dirs);
      (error.Some? <==> r.Err?) && (r.Err? ==> error.value == r.error) && (r.Ok? ==> Values(cs) == r.value)
    ensures forall k :: 0 <= k < |cs| ==> fresh(cs[k])
  {
    cs := [];
    error := None;
    var i := 0;
    while i < |dirs|
      invariant i <= |dirs|
      invariant SectionCommands(destDir, changeTo, dest, dirs[..i]) == Ok(Values(cs))
      invariant forall k :: 0 <= k < |cs| ==> fresh(cs[k])
    {
      SectionSnoc(destDir, changeTo, dest, dirs, i, Values(cs));
      var r := GetCommands(destDir, changeTo, dest, dirs[i]);
      if r.Err? {
        SectionStaysFailed(destDir, changeTo, dest, dirs, i + 1);
        return cs, Some(r.error);
      }
      if r.value.Some? {
        ValuesAppend(cs, r.value.value);
        cs := cs + r.value.value;
      }
      i := i + 1;
    }
    assert dirs[..i] == dirs;
  }

  /** The section's commands after one more `<dir>`. */
  lemma {:induction false} SectionSnoc(destDir: string, changeTo: string, dest: string, dirs: seq<map<string, string>>, i: nat, prev: seq<CommandValue>)
    requires i < |dirs| && SectionCommands(destDir, changeTo, dest, dirs[..i]) == Ok(prev)
    ensures var c, n := CommandsFor(destDir, changeTo, dest, dirs[i]), SectionCommands(destDir, changeTo, dest, dirs[..i + 1]);
      && (c.Err? ==> n == Err(c.error))
      && (c == Ok(None) ==> n == Ok(prev))
      && (c.Ok? && c.value.Some? ==> n == Ok(prev + c.value.value))
  {
    assert dirs[..i + 1][..i] == dirs[..i];
  }

  lemma {:induction false} ValuesAppend(a: seq<Command>, b: seq<Command>)
    ensures Values(a + b) == Values(a) + Values(b)
  {
  }

  /** Once a `<dir>` has raised, the section's outcome is that exception. */
  lemma {:induction false} SectionStaysFailed(destDir: string, changeTo: string, dest: string, dirs: seq<map<string, string>>, i: nat)
    requires 0 < i <= |dirs| && SectionCommands(destDir, changeTo, dest, dirs[..i]).Err?
    ensures SectionCommands(destDir, changeTo, dest, dirs) == SectionCommands(destDir, changeTo, dest, dirs[..i])
    decreases |dirs| - i
  {
    if i < |dirs| {
      assert dirs[..i + 1][..i] == dirs[..i];
      SectionStaysFailed(destDir, changeTo, dest, dirs, i + 1);
    } else {
      assert dirs[..i] == dirs;
    }
  }

  /** One section of `process`: an accepted section yields its commands
      and makes its destination directory if that is missing. `done` are
      the sections before it and `base` the names that existed at the
      start. */
  method ProcessSection(fs: FileSys.FileSystem, destDir: string, sections: seq<Section>, i: nat, ghost base: set<string>)
    returns (cs: seq<Command>, error: Option<string>)
    requires i < |sections|
    requires var p := ProcessSpec(destDir, sections[..i]);
      p.error.None? && fs.names == base + p.made
    modifies fs
    ensures var p, p' := ProcessSpec(destDir, sections[..i]), ProcessSpec(destDir, sections[..i + 1]);
      error == p'.error && fs.names == base + p'.made && (error.None? ==> p'.commands == p.commands + Values(cs))
    ensures forall k :: 0 <= k < |cs| ==> fresh(cs[k])
  {
    ghost var done := sections[..i];
    var s := sections[i];
    assert sections[..i + 1] == done + [s];
    ghost var before := ProcessSpec(destDir, done);
    ProcessLast(destDir, done, s);
    cs := [];
    error := None;
    var dest := Get(s.attrs, "destination");
    var changeTo := Get(s.attrs, "changeTo");
    if Truthy(dest) && Truthy(changeTo) {
      var e;
      cs, e := SectionRun(destDir, changeTo.value, dest.value, s.dirs);
      if e.Some? {
        assert Step(destDir, before, s) == Progress(before.commands, before.made, e);
        return [], e;
      }
      var destCheck := Paths.Join(destDir, dest.value);
      assert Step(destDir, before, s) == Progress(before.commands + Values(cs), before.made + {destCheck}, None);
      if !fs.Exists(destCheck) {
        var _ := fs.MakeDir(destCheck);
      }
    } else {
      assert Step(destDir, before, s) == before;
    }
  }

  /** `process`: the sections in order; each accepted section's `<dir>`
      commands are added and its destination directory is made if missing;
      the first exception ends the run. */
  method Process(fs: FileSys.FileSystem, destDir: string, sections: seq<Section>)
    returns (commands: seq<Command>, error: Option<string>)
    modifies fs
    ensures var p := ProcessSpec(destDir, sections);
      error == p.error && fs.names == old(fs.names) + p.made && (error.None? ==> Values(commands) == p.commands)
    ensures forall k :: 0 <= k < |commands| ==> fresh(commands[k])
  {
    commands := [];
    error := None;
    var i := 0;
    while i < |sections|
      invariant i <= |sections|
      invariant var p := ProcessSpec(destDir, sections[..i]);
        p.error.None? && fs.names == old(fs.names) + p.made && Values(commands) == p.commands
      invariant forall k :: 0 <= k < |commands| ==> fresh(commands[k])
    {
      var cs, e := ProcessSection(fs, destDir, sections, i, old(fs.names));
      if e.Some? {
        ProcessStaysFailed(destDir, sections, i + 1);
        return commands, e;
      }
      ValuesAppend(commands, cs);
      commands := commands + cs;
      i := i + 1;
    }
    assert sections[..i] == sections;
  }

  /** Once a section has raised, later sections change nothing. */
  lemma {:induction false} ProcessStaysFailed(destDir: string, sections: seq<Section>, i: nat)
    requires 0 < i <= |sections| && ProcessSpec(destDir, sections[..i]).error.Some?
    ensures ProcessSpec(destDir, sections) == ProcessSpec(destDir, sections[..i])
    decreases |sections| - i
  {
    if i < |sections| {
      assert sections[..i + 1][..i] == sections[..i];
      ProcessStaysFailed(destDir, sections, i + 1);
    } else {
      assert sections[..i] == sections;
    }
  }

  // -------------------------------------------------------- generateMD5Sums

  const MD5_LOG := "md5checksum.log"

  /** The archive's name relative to the backup directory: every occurrence
      of `dstDir` is removed, then one leading '/'. */
  function RelativeName(dstDir: string, f: string): Result<string> {
    var relat := Strings.Replace(f, dstDir, "");
    if relat == [] then Err("IndexError: string index out of range")
    else if relat[0] == '/' then Ok(relat[1..])
    else Ok(relat)
  }

  /** For a file inside the backup directory whose relative part does not
      repeat the directory's path, the relative name is that part. */
  lemma {:induction false} RelativeNameInside(dstDir: string, rel: string)
    requires dstDir != [] && !Strings.Contains("/" + rel, dstDir)
    ensures RelativeName(dstDir, dstDir + "/" + rel) == Ok(rel)
  {
    var f := dstDir + "/" + rel;
    assert f[..|dstDir|] == dstDir;
    assert f[|dstDir|..] == "/" + rel;
    Strings.ReplaceAbsent("/" + rel, dstDir, "");
    assert Strings.Replace(f, dstDir, "") == "" + ("/" + rel);
    assert "" + ("/" + rel) == "/" + rel;
    assert ("/" + rel)[1..] == rel;
  }

  /** The `md5sum` command made for one archive. */
  function Md5SumCommand(dstDir: string, f: string): (r: Result<CommandValue>)
    ensures r.Ok? <==> RelativeName(dstDir, f).Ok?
    ensures r.Ok? ==> r.value.changeToDir == dstDir && r.value.stdOutLogFile == Some(Paths.Join(dstDir, MD5_LOG))
    ensures r.Ok? ==> r.value.logPrefix == "" && r.value.command.Some?
  {
    match RelativeName(dstDir, f)
    case Err(e) => Err(e)
    case Ok(rel) => Ok(CommandValue(dstDir, Some("md5sum " + rel), Some(Paths.Join(dstDir, MD5_LOG)), ""))
  }

  /** The command for an archive `<dstDir>/<rel>`: `md5sum rel`, run in the
      backup directory, logging to md5checksum.log without a prefix. */
  lemma {:induction false} Md5SumCommandInside(dstDir: string, rel: string)
    requires dstDir != [] && !Strings.Contains("/" + rel, dstDir)
    ensures Md5SumCommand(dstDir, dstDir + "/" + rel) ==
      Ok(CommandValue(dstDir, Some("md5sum " + rel), Some(Paths.Join(dstDir, MD5_LOG)), ""))
  {
    RelativeNameInside(dstDir, rel);
  }
}
