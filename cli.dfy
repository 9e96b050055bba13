/** `main` of excel-to-json.js: how the command-line arguments are read, the
    listing of spreadsheet files printed when there are none, and the call of
    the converter. The directory listing, the existence test, the parsed sheet
    and the default output path are inputs. */
module Cli {
  import opened Wrappers
  import opened Text
  import opened Seqs
  import opened Translation
  import opened Records
  import opened Converter

  /** `s.split(sep)` for a one-character separator: the texts between the
      occurrences of sep, so one more part than there are separators. */
  function Split(s: string, sep: char): (parts: seq<string>)
    ensures |parts| >= 1
    ensures sep in s ==> |parts| >= 2
    ensures forall k :: 0 <= k < |parts| ==> sep !in parts[k]
  {
    if s == [] then [""]
    else
      var rest := Split(s[1..], sep);
      if s[0] == sep then [""] + rest
      else [[s[0]] + rest[0]] + rest[1..]
  }

  /** `parts.join(sep)`. */
  function Join(parts: seq<string>, sep: char): string
    requires |parts| >= 1
  {
    if |parts| == 1 then parts[0] else parts[0] + [sep] + Join(parts[1..], sep)
  }

  /** Joining the parts again gives back the text that was split. */
  lemma {:induction false} SplitJoin(s: string, sep: char)
    ensures Join(Split(s, sep), sep) == s
  {
    if s != [] {
      SplitJoin(s[1..], sep);
      var rest := Split(s[1..], sep);
      if s[0] != sep {
        if |rest| > 1 {
          assert ([[s[0]] + rest[0]] + rest[1..])[1..] == rest[1..];
        }
      }
    }
  }

  /** The first part is the text before the first separator. */
  lemma {:induction false} SplitHead(v: string, w: string, sep: char)
    requires sep !in v
    requires w == [] || w[0] == sep
    ensures Split(v + w, sep)[0] == v
  {
    if v == [] {
      assert v + w == w;
    } else {
      assert (v + w)[1..] == v[1..] + w;
      SplitHead(v[1..], w, sep);
    }
  }

  /** Text up to the first separator is the first part; the rest is split on. */
  lemma {:induction false} SplitAtFirst(v: string, w: string, sep: char)
    requires sep !in v
    ensures Split(v + [sep] + w, sep) == [v] + Split(w, sep)
  {
    if v == [] {
      assert v + [sep] + w == [sep] + w;
      assert ([sep] + w)[1..] == w;
    } else {
      assert (v + [sep] + w)[1..] == v[1..] + [sep] + w;
      assert v[0] != sep && sep !in v[1..];
      SplitAtFirst(v[1..], w, sep);
      assert [v[0]] + v[1..] == v;
    }
  }

  /** The two flags never overlap, so the order of the tests does not matter. */
  predicate IsTranslateFlag(arg: string)
    ensures IsTranslateFlag(arg) ==> !StartsWith(arg, "--engine=")
  {
    assert arg == "--translate" ==> arg[2] != "--engine="[2];
    arg == "--translate"
  }

  predicate IsEngineArg(arg: string)
    ensures IsEngineArg(arg) ==> |arg| >= 9 && arg[8] == '='
  {
    StartsWith(arg, "--engine=")
  }

  /** The arguments `filteredArgs` keeps: neither flag. */
  predicate IsPositional(arg: string)
    ensures IsPositional(arg) ==> arg != "--translate"
    ensures arg == [] || arg[0] != '-' ==> IsPositional(arg)
  {
    !IsTranslateFlag(arg) && !IsEngineArg(arg)
  }

  /** `engineArg.split('=')[1]`: never holds an `=`, and is shorter than the
      argument by at least `--engine=`. */
  function EngineTag(arg: string): (tag: string)
    requires IsEngineArg(arg)
    ensures '=' !in tag
    ensures |tag| <= |arg| - 9
  {
    assert arg == "--engine" + ['='] + arg[9..];
    SplitAtFirst("--engine", arg[9..], '=');
    SplitPartLength(arg[9..], '=');
    Split(arg, '=')[1]
  }

  /** No part of a split is longer than the text. */
  lemma {:induction false} SplitPartLength(s: string, sep: char)
    ensures forall k :: 0 <= k < |Split(s, sep)| ==> |Split(s, sep)[k]| <= |s|
  {
    if s != [] {
      SplitPartLength(s[1..], sep);
    }
  }

  /** The engine tag: the text between the first and the second `=` of
      `--engine=...`, whatever follows the second. */
  lemma EngineTagBetweenEquals(v: string, w: string)
    requires '=' !in v
    requires w == [] || w[0] == '='
    ensures IsEngineArg("--engine=" + v + w)
    ensures EngineTag("--engine=" + v + w) == v
  {
    var arg := "--engine=" + v + w;
    assert arg[..9] == "--engine=";
    assert arg == "--engine" + ['='] + (v + w);
    SplitAtFirst("--engine", v + w, '=');
    SplitHead(v, w, '=');
  }

  /** What `main` makes of its arguments. */
  datatype Command =
    | ShowUsage
    | Convert(source: string, output: Option<string>, translateHeaders: bool, tag: string)

  /** The reading of `process.argv.slice(2)`: no argument shows the usage;
      otherwise the source is the first argument, translation is on when some
      argument is `--translate`, the engine tag comes from the first
      `--engine=` argument (`vitalets` without one), and the output path is
      the second argument left once both flags are removed, unless that is
      missing or empty (then the default path is used: None). */
  function ParseArgs(args: seq<string>): (command: Command)
    ensures command.ShowUsage? <==> args == []
    ensures command.Convert? ==> command.source == args[0]
    ensures command.Convert? ==> (command.translateHeaders <==> "--translate" in args)
    ensures command.Convert? && command.output.Some? ==>
      command.output.value != "" && command.output.value in args && IsPositional(command.output.value)
    ensures command.Convert? && command.tag != "vitalets" ==> '=' !in command.tag
  {
    if |args| == 0 then ShowUsage
    else
      var tag := match Find(args, IsEngineArg)
        case Some(engineArg) => EngineTag(engineArg)
        case None => "vitalets";
      var filtered := Filter(args, IsPositional);
      FilterSelectsMembers(args, IsPositional);
      var output := if |filtered| > 1 && filtered[1] != "" then Some(filtered[1]) else None;
      Convert(args[0], output, "--translate" in args, tag)
  }

  /** The source path is always the first argument, whatever it is, and
      translation is on exactly when some argument is `--translate`. */
  lemma ParseArgsSourceAndFlag(args: seq<string>)
    requires |args| > 0
    ensures ParseArgs(args).Convert?
    ensures ParseArgs(args).source == args[0]
    ensures ParseArgs(args).translateHeaders <==> exists i :: 0 <= i < |args| && args[i] == "--translate"
  {
  }

  /** The engine tag is taken from the first `--engine=` argument. */
  lemma ParseArgsEngine(args: seq<string>, i: nat, v: string, w: string)
    requires i < |args| && args[i] == "--engine=" + v + w
    requires '=' !in v && (w == [] || w[0] == '=')
    requires forall k :: 0 <= k < i ==> !IsEngineArg(args[k])
    ensures ParseArgs(args).Convert? && ParseArgs(args).tag == v
  {
    EngineTagBetweenEquals(v, w);
    FindFirst(args, IsEngineArg, i);
  }

  /** Without an `--engine=` argument the engine is `vitalets`. */
  lemma ParseArgsDefaultEngine(args: seq<string>)
    requires |args| > 0
    requires forall k :: 0 <= k < |args| ==> !IsEngineArg(args[k])
    ensures ParseArgs(args).tag == "vitalets"
  {
  }

  /** Flags anywhere, in front of the source path too, leave the positional
      arguments, and so the output path, as they were: the output path is the
      second positional argument. */
  lemma ParseArgsOutput(pre: seq<string>, first: string, flags: seq<string>, output: string, rest: seq<string>)
    requires forall k :: 0 <= k < |pre| ==> !IsPositional(pre[k])
    requires IsPositional(first) && IsPositional(output) && output != ""
    requires forall k :: 0 <= k < |flags| ==> !IsPositional(flags[k])
    ensures ParseArgs(pre + [first] + flags + [output] + rest).output == Some(output)
  {
    var args := pre + [first] + flags + [output] + rest;
    assert args == pre + ([first] + (flags + ([output] + rest)));
    FilterAppend(pre, [first] + (flags + ([output] + rest)), IsPositional);
    FilterAppend([first], flags + ([output] + rest), IsPositional);
    FilterAppend(flags, [output] + rest, IsPositional);
    FilterAppend([output], rest, IsPositional);
    FilterNone(pre, IsPositional);
    FilterNone(flags, IsPositional);
    assert Filter([first], IsPositional) == [first];
    assert Filter([output], IsPositional) == [output];
  }

  /** An empty second positional argument is falsy in `filteredArgs[1] || ...`,
      so the default output path is used. */
  lemma ParseArgsEmptyOutput(args: seq<string>)
    requires |Filter(args, IsPositional)| > 1 && Filter(args, IsPositional)[1] == ""
    ensures ParseArgs(args).Convert? && ParseArgs(args).output == None
  {
  }

  /** With at most one positional argument there is no explicit output path. */
  lemma ParseArgsNoOutput(args: seq<string>)
    requires |args| > 0
    requires |Filter(args, IsPositional)| <= 1
    ensures ParseArgs(args).output == None
  {
  }

  /** The case-insensitive `.xlsx` / `.xls` suffix test. Full Unicode
      lower-casing maps no other character onto these ASCII letters, so the
      ASCII lower-casing gives the same answer. */
  predicate IsExcelFile(name: string)
    ensures IsExcelFile(name) ==>
      |name| >= 4 && (name[|name| - 4] == '.' || (|name| >= 5 && name[|name| - 5] == '.'))
  {
    EndsWith(ToLower(name), ".xlsx") || EndsWith(ToLower(name), ".xls")
  }

  /** The spreadsheet files of a directory listing, in listing order. */
  function ExcelFiles(files: seq<string>): (excel: seq<string>)
    ensures forall k :: 0 <= k < |excel| ==> IsExcelFile(excel[k])
  {
    Filter(files, IsExcelFile)
  }

  /** A name is listed exactly when it is in the directory and has a
      spreadsheet suffix in any letter case. */
  lemma ExcelFilesMembership(files: seq<string>, name: string)
    ensures name in ExcelFiles(files) <==> name in files && IsExcelFile(name)
  {
    FilterMembership(files, IsExcelFile, name);
  }

  /** The listing keeps the directory's order. */
  lemma ExcelFilesAppend(a: seq<string>, b: seq<string>)
    ensures ExcelFiles(a + b) == ExcelFiles(a) + ExcelFiles(b)
  {
    FilterAppend(a, b, IsExcelFile);
  }

  /** The test ignores letter case: lower-casing the name first changes
      nothing. */
  lemma ExcelFileCaseInsensitive(name: string)
    ensures IsExcelFile(name) <==> IsExcelFile(ToLower(name))
  {
    ToLowerIdempotent(name);
  }

  /** Any name ending in `.xlsx` or `.xls`, in any mix of letter cases, is listed. */
  lemma ExcelSuffixAnyCase(stem: string, ext: string)
    requires ToLower(ext) == ".xlsx" || ToLower(ext) == ".xls"
    ensures IsExcelFile(stem + ext)
  {
    var lowered := ToLower(stem + ext);
    assert lowered == ToLower(stem) + ToLower(ext);
    assert lowered[|lowered| - |ext|..] == ToLower(ext);
  }

  /** How a run of the program ends. */
  datatype Outcome =
    | Usage(excelFiles: seq<string>)  // no arguments: usage and the spreadsheet files
    | Converted(conversion: Conversion)
    | Failed(error: Error)            // reported, then `process.exit(1)`

  function ExitCode(outcome: Outcome): (code: int)
    ensures code == 0 || code == 1
    ensures code == 1 <==> outcome.Failed?
  {
    if outcome.Failed? then 1 else 0
  }

  /** `main`. The source's existence and its parsed sheet concern args[0];
      derive is the default output path of a source path. */
  method RunCli(translator: Translator, derive: string -> string, args: seq<string>,
                listing: seq<string>, sourceExists: bool, sheet: seq<Row>)
    returns (outcome: Outcome)
    ensures args == [] ==> outcome == Usage(ExcelFiles(listing))
    ensures args != [] && !sourceExists ==> outcome == Failed(SourceNotFound(args[0]))
    ensures args != [] && sourceExists && sheet == [] ==> outcome == Failed(EmptySheet)
    ensures args != [] && sourceExists && sheet != [] ==>
      var command := ParseArgs(args);
      outcome == Converted(Conversion(
        Kept(HeadersFor(translator, sheet[0], command.translateHeaders, command.tag), sheet[1..]),
        if command.output.Some? then command.output.value else derive(args[0])))
    ensures ExitCode(outcome) == 1 <==> args != [] && (!sourceExists || sheet == [])
  {
    var command := ParseArgs(args);
    if command.ShowUsage? {
      return Usage(ExcelFiles(listing));
    }
    var r := ExcelToJsonWithDefault(translator, derive, command.source, sourceExists, sheet,
                                    command.output, command.translateHeaders, command.tag);
    match r
    case Success(conversion) => outcome := Converted(conversion);
    case Failure(error) => outcome := Failed(error);
  }
}
