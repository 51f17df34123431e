// The command line: each positional token names a log file, optionally
// followed by `--as <title>` to give the run a display name other than
// the file name.  Two usage errors stop the program before any file is
// read: `--as` with nothing after it, and no file at all.

module CommandLine {
  import opened Wrappers

  const AsFlag := "--as"

  /** One log file and the name its column is shown under. */
  datatype Run = Run(file: string, name: string)

  datatype UsageError = MissingTitle | NoFiles

  /** The runs named by `args` (the arguments after the program name), in order. */
  function ArgRuns(args: seq<string>): (r: Result<seq<Run>, UsageError>)
    ensures r.Success? ==> |r.value| <= |args|
    ensures r.Success? && args != [] ==> |r.value| > 0 && r.value[0].file == args[0]
    ensures r.Failure? ==> r.error == MissingTitle
    decreases |args|
  {
    if args == [] then Success([])
    else if |args| >= 2 && args[1] == AsFlag then
      if |args| >= 3 then
        match ArgRuns(args[3..])
        case Success(rest) => Success([Run(args[0], args[2])] + rest)
        case Failure(e) => Failure(e)
      else Failure(MissingTitle)
    else
      match ArgRuns(args[1..])
      case Success(rest) => Success([Run(args[0], args[0])] + rest)
      case Failure(e) => Failure(e)
  }

  /** The outcome of the argument scan together with the "at least one file" check. */
  function ParseResult(args: seq<string>): (r: Result<seq<Run>, UsageError>) {
    match ArgRuns(args)
    case Failure(e) => Failure(e)
    case Success(runs) => if runs == [] then Failure(NoFiles) else Success(runs)
  }

  /** `runs` followed by the runs of `tail`, or the error of `tail`. */
  function Prepend(runs: seq<Run>, tail: Result<seq<Run>, UsageError>): (r: Result<seq<Run>, UsageError>) {
    match tail
    case Success(rest) => Success(runs + rest)
    case Failure(e) => Failure(e)
  }

  lemma PrependAppend(a: seq<Run>, b: seq<Run>, tail: Result<seq<Run>, UsageError>)
    ensures Prepend(a, Prepend(b, tail)) == Prepend(a + b, tail)
    ensures Prepend([], tail) == tail
  {
    if tail.Success? {
      assert a + (b + tail.value) == (a + b) + tail.value;
      assert [] + tail.value == tail.value;
    }
  }

  /** How the scan of `args[i..]` begins: one run of one or three tokens, or the missing-title error. */
  lemma ArgRunsStep(args: seq<string>, i: nat)
    requires i < |args|
    ensures i + 1 < |args| && args[i + 1] == AsFlag && i + 2 < |args| ==>
      ArgRuns(args[i..]) == Prepend([Run(args[i], args[i + 2])], ArgRuns(args[i + 3..]))
    ensures i + 1 < |args| && args[i + 1] == AsFlag && i + 2 >= |args| ==>
      ArgRuns(args[i..]) == Failure(MissingTitle)
    ensures !(i + 1 < |args| && args[i + 1] == AsFlag) ==>
      ArgRuns(args[i..]) == Prepend([Run(args[i], args[i])], ArgRuns(args[i + 1..]))
  {
    assert args[i..][1..] == args[i + 1..];
    assert i + 2 < |args| ==> args[i..][3..] == args[i + 3..];
  }

  /** The argument loop of `main`, which pushes one run per file and skips over `--as <title>`. */
  method ParseArgs(args: seq<string>) returns (r: Result<seq<Run>, UsageError>)
    ensures r == ParseResult(args)
  {
    var runs: seq<Run> := [];
    var i := 0;
    PrependAppend([], [], ArgRuns(args));
    assert args[0..] == args;
    while i < |args|
      invariant 0 <= i <= |args|
      invariant Prepend(runs, ArgRuns(args[i..])) == ArgRuns(args)
      invariant |runs| > 0 || i == 0
    {
      ArgRunsStep(args, i);
      var file := args[i];
      var name := file;
      if i + 1 < |args| && args[i + 1] == AsFlag {
        if i + 2 < |args| {
          i := i + 2;
          name := args[i];
        } else {
          return Failure(MissingTitle);
        }
      }
      PrependAppend(runs, [Run(file, name)], ArgRuns(args[i + 1..]));
      runs := runs + [Run(file, name)];
      i := i + 1;
    }
    assert args[i..] == [];
    assert runs + [] == runs;
    if |runs| == 0 {
      return Failure(NoFiles);
    }
    r := Success(runs);
  }

  /** Every run's file is one of the arguments. */
  lemma {:induction false} RunFilesAreArgs(args: seq<string>)
    requires ArgRuns(args).Success?
    ensures forall i :: 0 <= i < |ArgRuns(args).value| ==> ArgRuns(args).value[i].file in args
    decreases |args|
  {
    if args != [] {
      var runs := ArgRuns(args).value;
      var skip := if |args| >= 3 && args[1] == AsFlag then 3 else 1;
      var tail := args[skip..];
      RunFilesAreArgs(tail);
      assert runs == [runs[0]] + ArgRuns(tail).value;
      forall i | 0 <= i < |runs| ensures runs[i].file in args {
        if i > 0 {
          assert runs[i] == ArgRuns(tail).value[i - 1];
          assert runs[i].file in tail;
        }
      }
    }
  }

  /** The arguments that name `runs`: a file alone when its name is its file, else `file --as name`. */
  function ArgsOf(runs: seq<Run>): (r: seq<string>) {
    if runs == [] then []
    else
      (if runs[0].name == runs[0].file then [runs[0].file]
       else [runs[0].file, AsFlag, runs[0].name]) + ArgsOf(runs[1..])
  }

  /** Writing runs out as arguments and scanning them back gives the same runs, provided no file is called `--as`. */
  lemma {:induction false} ArgRunsOfArgsOf(runs: seq<Run>)
    requires forall k :: 0 <= k < |runs| ==> runs[k].file != AsFlag
    ensures ArgRuns(ArgsOf(runs)) == Success(runs)
  {
    if runs != [] {
      var head := if runs[0].name == runs[0].file then [runs[0].file]
                  else [runs[0].file, AsFlag, runs[0].name];
      var tail := ArgsOf(runs[1..]);
      ArgRunsOfArgsOf(runs[1..]);
      var args := head + tail;
      assert args == ArgsOf(runs);
      if runs[0].name == runs[0].file {
        assert args[1..] == tail;
        assert tail != [] ==> tail[0] == runs[1].file by {
          if tail != [] { ArgsOfHead(runs[1..]); }
        }
      } else {
        assert args[3..] == tail;
      }
      assert [runs[0]] + runs[1..] == runs;
    }
  }

  lemma ArgsOfHead(runs: seq<Run>)
    requires runs != []
    ensures ArgsOf(runs) != [] && ArgsOf(runs)[0] == runs[0].file
  {
  }

  /** Every file argument becomes a run, so NoFiles happens exactly for an empty argument list. */
  lemma NoFilesIffEmpty(args: seq<string>)
    ensures ParseResult(args) == Failure(NoFiles) <==> args == []
  {
  }

  /**
   * A trailing `--as` right after a file is a usage error, whatever runs,
   * written out as arguments, came before.
   */
  lemma {:induction false} TrailingAsIsMissingTitle(runs: seq<Run>, file: string)
    requires forall k :: 0 <= k < |runs| ==> runs[k].file != AsFlag
    requires file != AsFlag
    ensures ParseResult(ArgsOf(runs) + [file, AsFlag]) == Failure(MissingTitle)
  {
    if runs == [] {
      assert ArgsOf(runs) + [file, AsFlag] == [file, AsFlag];
    } else {
      var head := if runs[0].name == runs[0].file then [runs[0].file]
                  else [runs[0].file, AsFlag, runs[0].name];
      TrailingAsIsMissingTitle(runs[1..], file);
      var rest := ArgsOf(runs[1..]) + [file, AsFlag];
      var args := ArgsOf(runs) + [file, AsFlag];
      assert args == head + rest;
      assert rest[0] == (if runs[1..] == [] then file else runs[1].file) by {
        if runs[1..] != [] { ArgsOfHead(runs[1..]); }
      }
      if runs[0].name == runs[0].file {
        assert args[1..] == rest;
      } else {
        assert args[3..] == rest;
      }
    }
  }

  /** Conversely, the usage error MissingTitle only ever comes from a last argument `--as`. */
  lemma {:induction false} MissingTitleEndsWithAs(args: seq<string>)
    requires ParseResult(args) == Failure(MissingTitle)
    ensures |args| >= 2 && args[|args| - 1] == AsFlag
    decreases |args|
  {
    if |args| >= 3 && args[1] == AsFlag {
      MissingTitleEndsWithAs(args[3..]);
      assert args[|args| - 1] == args[3..][|args| - 4];
    } else if !(|args| >= 2 && args[1] == AsFlag) {
      MissingTitleEndsWithAs(args[1..]);
      assert args[|args| - 1] == args[1..][|args| - 2];
    }
  }

  /** `a --as b --as`: the second `--as` has no file after it, so it is taken as a file of its own. */
  lemma SecondAsBecomesAFile()
    ensures ParseResult(["a", "--as", "b", "--as"]) == Success([Run("a", "b"), Run("--as", "--as")])
  {
    var args := ["a", "--as", "b", "--as"];
    ArgRunsStep(args, 0);
    ArgRunsStep(args, 3);
    assert args[4..] == [];
    assert [Run("--as", "--as")] + [] == [Run("--as", "--as")];
    assert [Run("a", "b")] + [Run("--as", "--as")] == [Run("a", "b"), Run("--as", "--as")];
  }

  /** A file without `--as` keeps its own name; the next one takes its title. */
  lemma MixedTitles()
    ensures ParseResult(["base.log", "new.log", "--as", "New"]) ==
      Success([Run("base.log", "base.log"), Run("new.log", "New")])
  {
    var args := ["base.log", "new.log", "--as", "New"];
    ArgRunsStep(args, 0);
    ArgRunsStep(args, 1);
    assert args[4..] == [];
    assert [Run("new.log", "New")] + [] == [Run("new.log", "New")];
    assert [Run("base.log", "base.log")] + [Run("new.log", "New")] ==
      [Run("base.log", "base.log"), Run("new.log", "New")];
  }
}
