/**
 * The command-line side of the star shell: splitting a line into words,
 * expanding an alias, and deciding which built-in or external command the
 * line stands for.  The environment variables and the configuration maps are
 * parameters; running the chosen command is not part of this module.
 */
module Shell {
  import opened Wrappers
  import opened GoStrings
  import Star

  /** The environment variables the shell consults for the home directory. */
  datatype Env = Env(home: string, userProfile: string)

  // ---------------------------------------------------------------------------
  // Home directory and prompt helpers
  // ---------------------------------------------------------------------------

  /** getHomeDirectory: HOME, else USERPROFILE, else the current directory ".". */
  function HomeDirectory(env: Env): (r: string)
    ensures r != ""
    ensures env.home != "" ==> r == env.home
    ensures env.home == "" && env.userProfile != "" ==> r == env.userProfile
    ensures env.home == "" && env.userProfile == "" ==> r == "."
  {
    var home := if env.home == "" then env.userProfile else env.home;
    if home == "" then "." else home
  }

  /**
   * replaceHomeWithTilde: a path below the home directory is shown with "~"
   * in place of the home prefix.  Unlike HomeDirectory there is no "."
   * fallback: with both variables empty the home prefix is empty, and every
   * path gets a leading "~".
   */
  function ReplaceHomeWithTilde(path: string, env: Env): (r: string)
    ensures var home := if env.home == "" then env.userProfile else env.home;
      && (HasPrefix(path, home) ==> |r| >= 1 && r[0] == '~' && home + r[1..] == path)
      && (!HasPrefix(path, home) ==> r == path)
    ensures env.home == "" && env.userProfile == "" ==> r == "~" + path
  {
    var home := if env.home == "" then env.userProfile else env.home;
    if HasPrefix(path, home) then "~" + TrimPrefix(path, home) else path
  }

  /** getColor: the configured prompt colour for `name`, or `fallback` when none is configured. */
  function GetColor(promptColors: map<string, string>, name: string, fallback: string): (r: string)
    ensures name in promptColors ==> r == promptColors[name]
    ensures name !in promptColors ==> r == fallback
  {
    if name in promptColors then promptColors[name] else fallback
  }

  // ---------------------------------------------------------------------------
  // Parsing and dispatch (executeCommand)
  // ---------------------------------------------------------------------------

  /** What `star` was asked to do. */
  datatype StarRequest = StarInstall(pkg: Star.Package) | StarList | StarUninstall(pkg: Star.Package)

  /** The usage errors `star` reports without calling the package manager. */
  datatype UsageError = MissingSubcommand | MissingRepository | UnknownSubcommand

  /** The action a line of input stands for. */
  datatype Command =
    | NoOp                            // a blank line
    | ChangeDirectory(dir: string)
    | ListDirectory
    | ClearScreen
    | RunStar(request: StarRequest)
    | StarUsage(problem: UsageError)
    | External(name: string, args: seq<string>)
    | Panic                           // the Go code indexes past the end of a slice

  predicate IsBuiltin(word: string) {
    word == "cd" || word == "ls" || word == "dir" || word == "clear" || word == "cls" || word == "star"
  }

  /**
   * The words of a line after alias expansion: when the first word is an
   * alias, it is replaced by the words of its value, once (the first word of
   * the value is not looked up again), and the other words follow in order.
   */
  function Arguments(input: string, aliases: map<string, string>): (args: seq<string>)
    ensures Fields(input) == [] ==> args == []
    ensures Fields(input) != [] && Fields(input)[0] in aliases ==>
      args == Fields(aliases[Fields(input)[0]]) + Fields(input)[1..]
    ensures Fields(input) != [] && Fields(input)[0] !in aliases ==> args == Fields(input)
    ensures forall k :: 0 <= k < |args| ==> IsField(args[k])
  {
    var fields := Fields(input);
    if fields == [] then []
    else if fields[0] in aliases then Fields(aliases[fields[0]]) + fields[1..]
    else fields
  }

  /** The directory `cd` goes to: "." without an argument, the home directory for exactly "~". */
  function CdTarget(args: seq<string>, env: Env): (dir: string)
    ensures |args| < 2 ==> dir == "."
    ensures |args| >= 2 && args[1] == "~" ==> dir == HomeDirectory(env)
    ensures |args| >= 2 && args[1] != "~" ==> dir == args[1]
  {
    var dir := if |args| > 1 then args[1] else ".";
    if dir == "~" then HomeDirectory(env) else dir
  }

  /**
   * The package a `user/repo` argument names: the text before the first "/"
   * and the text between the first and the second.  None when there is no
   * "/", where the Go code indexes past the end of the split.
   */
  function RepoPackage(arg: string): (r: Option<Star.Package>)
    ensures r.None? <==> '/' !in arg
    ensures r.Some? ==> var parts := Split(arg, '/');
      r.value == Star.Package(parts[0], parts[1], "", "")
  {
    var parts := Split(arg, '/');
    if |parts| < 2 then None else Some(Star.Package(parts[0], parts[1], "", ""))
  }

  /** The `star` built-in, given the expanded words (the first is "star"). */
  function StarCommand(args: seq<string>): (r: Command)
    requires |args| >= 1
    ensures r.RunStar? || r.StarUsage? || r.Panic?
    ensures |args| < 2 ==> r == StarUsage(MissingSubcommand)
    ensures r.Panic? <==>
      |args| >= 3 && (args[1] == "install" || args[1] == "uninstall") && '/' !in args[2]
    ensures r == StarUsage(UnknownSubcommand) <==>
      |args| >= 2 && args[1] != "install" && args[1] != "list" && args[1] != "uninstall"
    ensures |args| == 2 && (args[1] == "install" || args[1] == "uninstall") ==>
      r == StarUsage(MissingRepository)
    ensures |args| >= 2 && args[1] == "list" ==> r == RunStar(StarList)
    // a repository argument with a "/" names the package RepoPackage reads from it
    ensures |args| >= 3 && args[1] == "install" && '/' in args[2] ==>
      r == RunStar(StarInstall(RepoPackage(args[2]).value))
    ensures |args| >= 3 && args[1] == "uninstall" && '/' in args[2] ==>
      r == RunStar(StarUninstall(RepoPackage(args[2]).value))
  {
    if |args| < 2 then StarUsage(MissingSubcommand)
    else if args[1] == "install" then
      if |args| < 3 then StarUsage(MissingRepository)
      else match RepoPackage(args[2])
        case None => Panic
        case Some(pkg) => RunStar(StarInstall(pkg))
    else if args[1] == "list" then RunStar(StarList)
    else if args[1] == "uninstall" then
      if |args| < 3 then StarUsage(MissingRepository)
      else match RepoPackage(args[2])
        case None => Panic
        case Some(pkg) => RunStar(StarUninstall(pkg))
    else StarUsage(UnknownSubcommand)
  }

  /** executeCommand, up to the point where it acts: which command a line stands for. */
  function Dispatch(input: string, aliases: map<string, string>, env: Env): (r: Command)
    ensures Fields(input) == [] ==> r == NoOp
    // an alias whose value has no words, used alone, leaves no command word
    ensures Fields(input) != [] && Arguments(input, aliases) == [] ==> r == Panic
    // built-ins never reach the process launcher, every other word does
    ensures var args := Arguments(input, aliases);
      args != [] ==> (r.External? <==> !IsBuiltin(args[0]))
    ensures r.External? ==> var args := Arguments(input, aliases);
      args != [] && r.name == args[0] && r.args == args[1..]
    ensures r.ChangeDirectory? ==> var args := Arguments(input, aliases);
      args != [] && args[0] == "cd" && r.dir == CdTarget(args, env)
    ensures r.RunStar? || r.StarUsage? ==> var args := Arguments(input, aliases);
      args != [] && args[0] == "star"
    // each built-in word selects its own command
    ensures var args := Arguments(input, aliases);
      args != [] && args[0] == "cd" ==> r == ChangeDirectory(CdTarget(args, env))
    ensures var args := Arguments(input, aliases);
      args != [] && (args[0] == "ls" || args[0] == "dir") ==> r == ListDirectory
    ensures var args := Arguments(input, aliases);
      args != [] && (args[0] == "clear" || args[0] == "cls") ==> r == ClearScreen
    ensures var args := Arguments(input, aliases);
      args != [] && args[0] == "star" ==> r == StarCommand(args)
  {
    var args := Arguments(input, aliases);
    if Fields(input) == [] then NoOp
    else if args == [] then Panic
    else if args[0] == "cd" then ChangeDirectory(CdTarget(args, env))
    else if args[0] == "ls" || args[0] == "dir" then ListDirectory
    else if args[0] == "clear" || args[0] == "cls" then ClearScreen
    else if args[0] == "star" then StarCommand(args)
    else External(args[0], args[1..])
  }

  // ---------------------------------------------------------------------------
  // Properties of whole lines
  // ---------------------------------------------------------------------------

  lemma WordsOfStarLine(sub: string, arg: string)
    requires IsField(sub) && IsField(arg)
    ensures Fields("star " + sub + " " + arg) == ["star", sub, arg]
  {
    var ws := ["star", sub, arg];
    assert Join(ws, " ") == "star " + sub + " " + arg by {
      assert Join(ws[2..], " ") == arg;
      assert ws[1..][1..] == ws[2..];
    }
    FieldsOfJoin(ws);
  }

  /**
   * `star install user/repo` (or `uninstall`) with no alias for "star" asks
   * the package manager about the package (user, repo).
   */
  lemma {:induction false} StarLineNamesPackage(sub: string, user: string, repo: string, aliases: map<string, string>, env: Env)
    requires sub == "install" || sub == "uninstall"
    requires "star" !in aliases
    requires NoSpace(user) && NoSpace(repo) && '/' !in user && '/' !in repo
    ensures var pkg := Star.Package(user, repo, "", "");
      Dispatch("star " + sub + " " + user + "/" + repo, aliases, env)
        == RunStar(if sub == "install" then StarInstall(pkg) else StarUninstall(pkg))
  {
    var arg := user + "/" + repo;
    RepoArgument(user, repo);
    assert "star " + sub + " " + user + "/" + repo == "star " + sub + " " + arg;
    WordsOfStarLine(sub, arg);
  }

  lemma RepoArgument(user: string, repo: string)
    requires NoSpace(user) && NoSpace(repo) && '/' !in user && '/' !in repo
    ensures IsField(user + "/" + repo)
    ensures Split(user + "/" + repo, '/') == [user, repo]
  {
    var arg := user + "/" + repo;
    forall i | 0 <= i < |arg|
      ensures !IsSpace(arg[i])
    {
      if i < |user| {
        assert arg[i] == user[i];
      } else if i > |user| {
        assert arg[i] == repo[i - |user| - 1];
      }
    }
    assert Join([user, repo], "/") == arg;
    SplitOfJoin([user, repo], '/');
  }

  /** A repository argument without "/" makes `star install` index past the split and panic. */
  lemma {:induction false} StarLineWithoutSlashPanics(sub: string, arg: string, aliases: map<string, string>, env: Env)
    requires sub == "install" || sub == "uninstall"
    requires "star" !in aliases
    requires IsField(arg) && '/' !in arg
    ensures Dispatch("star " + sub + " " + arg, aliases, env) == Panic
  {
    WordsOfStarLine(sub, arg);
  }

  /** A blank line, however much white space it holds, does nothing. */
  lemma {:induction false} BlankLineIsNoOp(input: string, aliases: map<string, string>, env: Env)
    requires forall i :: 0 <= i < |input| ==> IsSpace(input[i])
    ensures Dispatch(input, aliases, env) == NoOp
  {
    FieldsKeepNonSpace(input);
    BlankHasNoNonSpace(input);
    ConcatOfFields(Fields(input));
  }

  lemma {:induction false} BlankHasNoNonSpace(input: string)
    requires forall i :: 0 <= i < |input| ==> IsSpace(input[i])
    ensures NonSpace(input) == []
  {
    if input != [] {
      BlankHasNoNonSpace(input[1..]);
    }
  }

  lemma ConcatOfFields(ws: seq<string>)
    requires forall k :: 0 <= k < |ws| ==> IsField(ws[k])
    ensures Concat(ws) == [] <==> ws == []
  {
    if ws != [] {
      assert |Concat(ws)| >= |ws[0]| > 0;
    }
  }
}
