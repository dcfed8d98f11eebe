/** One pass of the read-eval loop of `main`: what the shell does with one line.

    The line is given (reading it is not modelled). HOME is a parameter (None
    when unset) and the `access(path, X_OK)` check is the oracle canExec. The
    side effects of the chosen action (exiting, `chdir`, `fork`/`execv`) are not
    performed: the action names them, with the text the shell writes to
    standard error. */
module Dispatch {
  import opened Optional
  import opened CStrings
  import opened Tokenizer
  import opened Paths
  import opened Resolver

  /** MAX_ARGS, the number of slots of argv. */
  const MaxArgs: int := 128
  /** PATH_BUF, the size of the buffer for an executable's path name. */
  const PathBuf: int := 4096

  const HomeNotSetText: string := "cd: HOME not set\n"
  const UnknownSuffix: string := "]: Unknown Command\n"

  /** What one line makes the shell do. */
  datatype Action =
    | Skip                                  // an empty or blank line: prompt again
    | Exit                                  // leave the loop
    | Cd(target: string)                    // chdir to target
    | CdHomeNotSet                          // cd without argument and HOME unset
    | UnknownCommand(message: string)       // no executable found: message on stderr
    | Run(path: string, args: seq<string>)  // fork, execv(path, args), wait, report

  /** `print_unknown`: the diagnostic for a command without executable. */
  function UnknownCommandText(cmd: string): (m: string)
  {
    "[" + cmd + UnknownSuffix
  }

  /** What the shell writes to standard error for an action. */
  function ErrorText(a: Action): (m: string)
  {
    match a
    case CdHomeNotSet => HomeNotSetText
    case UnknownCommand(message) => message
    case _ => ""
  }

  /** `builtin_cd`: the directory argument when there is one, otherwise HOME. */
  function CdAction(args: seq<string>, home: Option<string>): (a: Action)
  {
    if |args| >= 2 then Cd(args[1])
    else match home
      case None => CdHomeNotSet
      case Some(h) => Cd(h)
  }

  /** The routing of `main` for the tokens of a line: no token, `exit`, `cd`,
      or an external command looked up by `find_executable` in PATH_BUF bytes. */
  function Dispatch(args: seq<string>, home: Option<string>, canExec: string -> bool): (a: Action)
  {
    if args == [] then Skip
    else if args[0] == "exit" then Exit
    else if args[0] == "cd" then CdAction(args, home)
    else match FindExecutable(args[0], home, PathBuf, canExec)
      case None => UnknownCommand(UnknownCommandText(args[0]))
      case Some(path) => Run(path, args)
  }

  /** One pass of the loop for the C string in line: a blank line is skipped,
      otherwise its tokens are dispatched. */
  function Cycle(line: seq<char>, home: Option<string>, canExec: string -> bool): (a: Action)
    requires '\0' in line
  {
    if AllSep(CStr(line)) then Skip else Dispatch(Tokens(CStr(line), MaxArgs), home, canExec)
  }

  /** `print_unknown` writes '[', the command and the fixed suffix; the command is
      read back from the message. */
  lemma UnknownCommandTextParts(cmd: string)
    ensures var m := UnknownCommandText(cmd);
      |m| == |cmd| + 1 + |UnknownSuffix| && m[0] == '[' &&
      m[1..|cmd| + 1] == cmd && m[|cmd| + 1..] == UnknownSuffix
  {
  }

  /** A first token "exit" ends the loop, whatever follows it. */
  lemma ExitWhateverFollows(rest: seq<string>, home: Option<string>, canExec: string -> bool)
    ensures Dispatch(["exit"] + rest, home, canExec) == Exit
  {
  }

  /** `cd` with an argument goes there, whatever HOME is and says nothing. */
  lemma CdArgument(args: seq<string>, home: Option<string>, canExec: string -> bool)
    requires |args| >= 2 && args[0] == "cd"
    ensures Dispatch(args, home, canExec) == Cd(args[1])
    ensures ErrorText(Dispatch(args, home, canExec)) == ""
  {
  }

  /** `cd` alone goes to HOME when it is set, even when it is empty. */
  lemma CdHome(home: string, canExec: string -> bool)
    ensures Dispatch(["cd"], Some(home), canExec) == Cd(home)
  {
  }

  /** Only `cd` without argument and with HOME unset gives "cd: HOME not set". */
  lemma HomeNotSetIff(args: seq<string>, home: Option<string>, canExec: string -> bool)
    ensures Dispatch(args, home, canExec) == CdHomeNotSet <==> args == ["cd"] && home == None
    ensures ErrorText(Dispatch(args, home, canExec)) == HomeNotSetText <==> args == ["cd"] && home == None
  {
    if args == ["cd"] && home == None {
    } else if args != [] && args[0] != "exit" && args[0] != "cd" {
      var m := ErrorText(Dispatch(args, home, canExec));
      if Dispatch(args, home, canExec).UnknownCommand? {
        UnknownCommandTextParts(args[0]);
        assert m[0] == '[' != HomeNotSetText[0];
      }
    } else if args != [] && args[0] == "cd" && |args| == 1 {
      assert args == ["cd"];
    }
  }

  /** The command is reported unknown exactly when it is no builtin and
      `find_executable` finds nothing; the message names the command. */
  lemma UnknownIffNotFound(args: seq<string>, home: Option<string>, canExec: string -> bool, m: string)
    ensures Dispatch(args, home, canExec) == UnknownCommand(m) <==>
      args != [] && args[0] != "exit" && args[0] != "cd" &&
      FindExecutable(args[0], home, PathBuf, canExec) == None &&
      m == "[" + args[0] + "]: Unknown Command\n"
  {
  }

  /** An external command is launched exactly when it is no builtin and
      `find_executable` finds it; the argument vector is the token list itself. */
  lemma RunIffFound(args: seq<string>, home: Option<string>, canExec: string -> bool, path: string, argv: seq<string>)
    ensures Dispatch(args, home, canExec) == Run(path, argv) <==>
      args != [] && args[0] != "exit" && args[0] != "cd" &&
      FindExecutable(args[0], home, PathBuf, canExec) == Some(path) && argv == args
  {
  }

  /** A launched path passed the check, fits PATH_BUF with its terminator, and is
      the command in the first searched directory where it passes. */
  lemma RunChecked(args: seq<string>, home: Option<string>, canExec: string -> bool)
    requires Dispatch(args, home, canExec).Run?
    ensures var path := Dispatch(args, home, canExec).path;
      var dirs := SearchDirs(home);
      canExec(path) && |path| < PathBuf &&
      exists i :: 0 <= i < |dirs| && path == JoinPath(dirs[i], args[0]) &&
        forall j :: 0 <= j < i ==> !Usable(dirs[j], args[0], PathBuf, canExec)
  {
    FindNoneIff(args[0], home, PathBuf, canExec);
  }

  /** The blank-line check of `main` is subsumed by its no-token check: a blank
      line has no token either. */
  lemma BlankCheckRedundant(line: seq<char>, home: Option<string>, canExec: string -> bool)
    requires '\0' in line
    ensures Cycle(line, home, canExec) == Dispatch(Tokens(CStr(line), MaxArgs), home, canExec)
  {
    BlankLineNoTokens(CStr(line), MaxArgs);
  }

  /** A launched command gets the first words of the line, at most MAX_ARGS - 1
      of them, each a clean word; further words are dropped. */
  lemma RunGetsFirstWords(line: seq<char>, home: Option<string>, canExec: string -> bool)
    requires '\0' in line
    requires Cycle(line, home, canExec).Run?
    ensures var args := Cycle(line, home, canExec).args;
      var ws := Words(CStr(line));
      1 <= |args| <= MaxArgs - 1 && args == ws[..Min(|ws|, MaxArgs - 1)] &&
      forall i :: 0 <= i < |args| ==> IsWord(args[i])
  {
    BlankCheckRedundant(line, home, canExec);
    TokensClean(CStr(line), MaxArgs);
  }

  /** A line makes the shell exit exactly when its first word is "exit". */
  lemma ExitIff(line: seq<char>, home: Option<string>, canExec: string -> bool)
    requires '\0' in line
    ensures Cycle(line, home, canExec) == Exit <==>
      Words(CStr(line)) != [] && Words(CStr(line))[0] == "exit"
  {
    BlankCheckRedundant(line, home, canExec);
    var t := Tokens(CStr(line), MaxArgs);
    if Words(CStr(line)) != [] {
      assert t[0] == Words(CStr(line))[0];
    }
  }

  /** The line "  ls   -l  " runs `ls` with the arguments "ls" and "-l" when it is
      found. As in Tokenizer.LsExample, the line is a parameter whose C string is
      the literal, which spares the solver unfolding Words on the literal. */
  lemma LsRuns(line: seq<char>, home: Option<string>, canExec: string -> bool, path: string)
    requires '\0' in line && CStr(line) == "  ls   -l  "
    requires FindExecutable("ls", home, PathBuf, canExec) == Some(path)
    ensures Cycle(line, home, canExec) == Run(path, ["ls", "-l"])
  {
    LsExample(CStr(line));
    BlankCheckRedundant(line, home, canExec);
  }

  /** The tokens as the C strings argv[0], ..., argv[argc - 1] point to in the
      buffer after `parse_line`. */
  method ReadTokens(line: array<char>, argv: array<int>, maxArgs: int, argc: int,
                    ghost orig: seq<char>, ghost av0: seq<int>) returns (args: seq<string>)
    requires '\0' in orig
    requires Parsed(orig, maxArgs, line[..], av0, argv[..], argc)
    ensures args == Tokens(CStr(orig), maxArgs)
  {
    ghost var t := Tokens(CStr(orig), maxArgs);
    args := [];
    var i := 0;
    while i < argc
      invariant 0 <= i <= argc == |t|
      invariant args == t[..i]
    {
      TokenAt(orig, maxArgs, line[..], av0, argv[..], argc, i);
      args := args + [CStr(line[argv[i]..])];
      i := i + 1;
    }
  }

  /** One pass of `main` on the line buffer: the blank-line check, `parse_line`
      into a fresh argv of MAX_ARGS slots, the no-token check, and the routing on
      the tokens read back from the buffer. */
  method RunCycle(line: array<char>, home: Option<string>, canExec: string -> bool) returns (a: Action)
    requires '\0' in line[..]
    modifies line
    ensures a == Cycle(old(line[..]), home, canExec)
    ensures AllSep(CStr(old(line[..]))) ==> line[..] == old(line[..])
    ensures !AllSep(CStr(old(line[..]))) ==>
      line[..] == CutLine(old(line[..]), CStr(old(line[..])), |Tokens(CStr(old(line[..])), MaxArgs)|)
  {
    ghost var orig := line[..];
    var blank := StartsEmptyOrWs(line[..]);
    if blank {
      return Skip;
    }
    var argv := new int[MaxArgs];
    ghost var av0 := argv[..];
    var argc := ParseLine(line, argv, MaxArgs);
    if argc == 0 {
      return Skip;
    }
    var args := ReadTokens(line, argv, MaxArgs, argc, orig, av0);
    a := Dispatch(args, home, canExec);
  }
}
