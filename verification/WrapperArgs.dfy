/**
 The argument handling of the lint wrapper (tools/argument-comment-lint/wrapper_common.py):
 arguments are split at the first separator and scanned for the options they set, and defaults
 are filled in for what is missing.
 */
module WrapperArgs {
  import opened JsonValue

  datatype Awaited = ManifestPath | PackageSelection | LibrarySelection

  /** What the arguments before the separator set, and the option still waiting for its value. */
  datatype Flags = Flags(
    manifest: bool, package: bool, noDeps: bool, library: bool, fix: bool, awaiting: Option<Awaited>)

  datatype Parsed = Parsed(lint: seq<string>, cargo: seq<string>, flags: Flags, target: bool)

  const NONE := Flags(false, false, false, false, false, None)

  const SEPARATOR := "--"

  predicate StartsWith(arg: string, prefix: string) {
    |prefix| <= |arg| && arg[..|prefix|] == prefix
  }

  predicate SelectsTarget(arg: string) {
    arg in ["--all-targets", "--lib", "--bins", "--tests", "--examples", "--benches", "--doc"]
    || arg in ["--bin", "--test", "--example", "--bench"]
    || StartsWith(arg, "--bin=") || StartsWith(arg, "--test=")
    || StartsWith(arg, "--example=") || StartsWith(arg, "--bench=")
  }

  /** What an argument before the separator asks for. */
  datatype Asks = Awaits(value: Awaited) | Manifest | Package | Fix | NoDeps | Library | Nothing

  function OptionOf(arg: string): Asks {
    if arg == "--manifest-path" then Awaits(ManifestPath)
    else if StartsWith(arg, "--manifest-path=") then Manifest
    else if arg == "-p" || arg == "--package" then Awaits(PackageSelection)
    else if StartsWith(arg, "--package=") then Package
    else if arg == "--fix" then Fix
    else if arg == "--workspace" then Package
    else if arg == "--no-deps" then NoDeps
    else if arg == "--lib" || arg == "--lib-path" then Awaits(LibrarySelection)
    else if StartsWith(arg, "--lib=") || StartsWith(arg, "--lib-path=") then Library
    else Nothing
  }

  function ReadOption(f: Flags, option: Asks): Flags {
    match option
    case Awaits(value) => f.(awaiting := Some(value))
    case Manifest => f.(manifest := true)
    case Package => f.(package := true)
    case Fix => f.(fix := true)
    case NoDeps => f.(noDeps := true)
    case Library => f.(library := true)
    case Nothing => f
  }

  /** What an option that awaits a value asks for once it has one. */
  function WithValue(awaited: Awaited): Asks {
    match awaited
    case ManifestPath => Manifest
    case PackageSelection => Package
    case LibrarySelection => Library
  }

  function ReadLint(f: Flags, arg: string): Flags {
    match f.awaiting
    case None => ReadOption(f, OptionOf(arg))
    case Some(awaited) => ReadOption(f.(awaiting := None), WithValue(awaited))
  }

  // ---------------------------------------------------------------- specification of parsing

  function Before(args: seq<string>): seq<string> {
    if args == [] then []
    else if SEPARATOR in args then Before(args[..|args| - 1])
    else args
  }

  function After(args: seq<string>): seq<string> {
    if args == [] || SEPARATOR !in args[..|args| - 1] then []
    else After(args[..|args| - 1]) + [args[|args| - 1]]
  }

  function FlagsOf(lint: seq<string>): Flags {
    if lint == [] then NONE else ReadLint(FlagsOf(lint[..|lint| - 1]), lint[|lint| - 1])
  }

  predicate TargetSelected(cargo: seq<string>) {
    exists arg | arg in cargo :: SelectsTarget(arg)
  }

  function Parse(args: seq<string>): Parsed {
    Parsed(Before(args), After(args), FlagsOf(Before(args)), TargetSelected(After(args)))
  }

  /** One more argument, as the loop of the parser takes it. */
  lemma ParseAppend(args: seq<string>, arg: string)
    ensures
      var p := Parse(args);
      Parse(args + [arg]) ==
        if SEPARATOR in args then p.(cargo := p.cargo + [arg], target := p.target || SelectsTarget(arg))
        else if arg == SEPARATOR then p
        else p.(lint := p.lint + [arg], flags := ReadLint(p.flags, arg))
  {
    hide SelectsTarget, ReadLint;
    var more := args + [arg];
    assert more[..|more| - 1] == args;
    if SEPARATOR !in args {
      BeforeWhole(args);
      if arg == SEPARATOR {
        assert more[|args|] == SEPARATOR;
      } else {
        BeforeWhole(more);
      }
    }
  }

  method ParseWrapperArgs(argv: seq<string>) returns (parsed: Parsed)
    ensures parsed == Parse(argv) && Means(argv, parsed)
  {
    hide SelectsTarget, Parse, ReadOption, OptionOf, Means;
    parsed := Parsed([], [], NONE, false);
    NothingParsed();
    var afterSeparator := false;
    for i := 0 to |argv|
      invariant afterSeparator <==> SEPARATOR in argv[..i]
      invariant parsed == Parse(argv[..i])
    {
      assert argv[..i + 1] == argv[..i] + [argv[i]];
      var arg := argv[i];
      ParseAppend(argv[..i], arg);
      if afterSeparator {
        parsed := parsed.(cargo := parsed.cargo + [arg]);
        if SelectsTarget(arg) {
          parsed := parsed.(target := true);
        }
        continue;
      }
      if arg == SEPARATOR {
        afterSeparator := true;
        continue;
      }
      parsed := parsed.(lint := parsed.lint + [arg]);
      if parsed.flags.awaiting.Some? {
        var awaited := parsed.flags.awaiting.value;
        parsed := parsed.(flags := ReadOption(parsed.flags.(awaiting := None), WithValue(awaited)));
        continue;
      }
      parsed := parsed.(flags := ReadOption(parsed.flags, OptionOf(arg)));
    }
    assert argv[..|argv|] == argv;
    ParsedMeans(argv);
  }

  lemma NothingParsed()
    ensures Parse([]) == Parsed([], [], NONE, false)
  {
  }

  lemma {:induction false} BeforeWhole(args: seq<string>)
    requires "--" !in args
    ensures Before(args) == args && After(args) == []
  {
  }

  /** Splitting undoes joining. */
  lemma {:induction false} SplitJoined(lint: seq<string>, cargo: seq<string>)
    requires "--" !in lint
    ensures Before(lint + ["--"] + cargo) == lint && After(lint + ["--"] + cargo) == cargo
  {
    var args := lint + [SEPARATOR] + cargo;
    assert args[|lint|] == SEPARATOR;
    var front := args[..|args| - 1];
    if cargo == [] {
      assert front == lint;
      BeforeWhole(lint);
    } else {
      assert front == lint + [SEPARATOR] + cargo[..|cargo| - 1];
      SplitJoined(lint, cargo[..|cargo| - 1]);
      assert front[|lint|] == SEPARATOR;
    }
  }

  lemma {:induction false} BeforeHasNoSeparator(args: seq<string>)
    ensures "--" !in Before(args)
  {
    if args != [] && SEPARATOR in args {
      BeforeHasNoSeparator(args[..|args| - 1]);
    }
  }

  /** The separator cuts the arguments in two and nothing else is lost. */
  lemma {:induction false} SplitExact(args: seq<string>)
    requires "--" in args
    ensures args == Before(args) + ["--"] + After(args)
  {
    var front, last := args[..|args| - 1], args[|args| - 1];
    assert args == front + [last];
    if SEPARATOR in front {
      SplitExact(front);
    } else {
      BeforeWhole(front);
    }
  }

  // ---------------------------------------------------------------- what the flags mean

  datatype Flag = ManifestFlag | PackageFlag | LibraryFlag | NoDepsFlag | FixFlag

  predicate On(f: Flags, flag: Flag) {
    match flag
    case ManifestFlag => f.manifest
    case PackageFlag => f.package
    case LibraryFlag => f.library
    case NoDepsFlag => f.noDeps
    case FixFlag => f.fix
  }

  /** An argument that sets the flag by itself. */
  predicate Says(arg: string, flag: Flag) {
    match flag
    case ManifestFlag => "--manifest-path=" <= arg
    case PackageFlag => "--package=" <= arg || arg == "--workspace"
    case LibraryFlag => "--lib=" <= arg || "--lib-path=" <= arg
    case NoDepsFlag => arg == "--no-deps"
    case FixFlag => arg == "--fix"
  }

  /** An argument that sets the flag once the next argument has given it a value. */
  predicate Takes(arg: string, flag: Flag) {
    match flag
    case ManifestFlag => arg == "--manifest-path"
    case PackageFlag => arg == "-p" || arg == "--package"
    case LibraryFlag => arg == "--lib" || arg == "--lib-path"
    case NoDepsFlag => false
    case FixFlag => false
  }

  predicate TakesValue(arg: string) {
    exists flag :: Takes(arg, flag)
  }

  /** The argument is the value of the one before it. */
  predicate IsValue(lint: seq<string>, i: nat)
    requires i < |lint|
  {
    i > 0 && TakesValue(lint[i - 1]) && !IsValue(lint, i - 1)
  }

  /** The argument sets the flag, as the value of the one before it or by itself. */
  predicate Sets(lint: seq<string>, i: nat, flag: Flag)
    requires i < |lint|
  {
    if IsValue(lint, i) then Takes(lint[i - 1], flag) else Says(lint[i], flag)
  }

  function FlagOf(awaited: Awaited): Flag {
    match awaited
    case ManifestPath => ManifestFlag
    case PackageSelection => PackageFlag
    case LibrarySelection => LibraryFlag
  }

  /** An option at the end of the arguments is still waiting for its value. */
  predicate Awaiting(lint: seq<string>, awaited: Option<Awaited>) {
    if lint == [] || IsValue(lint, |lint| - 1) || !TakesValue(lint[|lint| - 1]) then awaited == None
    else awaited.Some? && Takes(lint[|lint| - 1], FlagOf(awaited.value))
  }

  lemma {:induction false} IsValueOfPrefix(lint: seq<string>, n: nat, i: nat)
    requires i < n <= |lint|
    ensures IsValue(lint[..n], i) == IsValue(lint, i)
  {
    hide TakesValue;
    if i > 0 {
      IsValueOfPrefix(lint, n, i - 1);
    }
  }

  /** What earlier arguments set does not depend on the later ones. */
  lemma SetsOfPrefix(lint: seq<string>, n: nat, i: nat, flag: Flag)
    requires i < n <= |lint|
    ensures Sets(lint[..n], i, flag) == Sets(lint, i, flag)
  {
    hide Says, Takes, TakesValue;
    IsValueOfPrefix(lint, n, i);
  }

  /** An argument is read as a value exactly if it is one. */
  lemma ReadAsValue(lint: seq<string>)
    requires lint != [] && Awaiting(lint[..|lint| - 1], FlagsOf(lint[..|lint| - 1]).awaiting)
    ensures IsValue(lint, |lint| - 1) <==> FlagsOf(lint[..|lint| - 1]).awaiting.Some?
  {
    hide FlagsOf, Takes, TakesValue;
    var n := |lint| - 1;
    if n > 0 {
      IsValueOfPrefix(lint, n, n - 1);
      assert lint[..n][n - 1] == lint[n - 1];
    }
  }

  /** What each reading of an argument sets. */
  predicate AsksFor(option: Asks, flag: Flag) {
    match flag
    case ManifestFlag => option == Manifest
    case PackageFlag => option == Package
    case LibraryFlag => option == Library
    case NoDepsFlag => option == NoDeps
    case FixFlag => option == Fix
  }

  lemma ReadOptionSets(f: Flags, option: Asks, flag: Flag)
    ensures On(ReadOption(f, option), flag) <==> On(f, flag) || AsksFor(option, flag)
    ensures ReadOption(f, option).awaiting == if option.Awaits? then Some(option.value) else f.awaiting
  {
  }

  /** No argument takes a value for two flags. */
  lemma TakesOnce(arg: string, flag: Flag, other: Flag)
    requires Takes(arg, flag) && Takes(arg, other)
    ensures flag == other
  {
    assert |"--manifest-path"| == 15 && |"--package"| == 9 && |"--lib"| == 5 && |"--lib-path"| == 10 && |"-p"| == 2;
  }

  /** One more argument sets its own flag and no other. */
  lemma LastSets(lint: seq<string>, flag: Flag)
    requires lint != [] && Awaiting(lint[..|lint| - 1], FlagsOf(lint[..|lint| - 1]).awaiting)
    ensures
      var n := |lint| - 1;
      On(FlagsOf(lint), flag) <==> On(FlagsOf(lint[..n]), flag) || Sets(lint, n, flag)
  {
    hide FlagsOf, OptionOf, IsValue, Says, Takes, TakesValue, ReadOption, On;
    var n := |lint| - 1;
    var f := FlagsOf(lint[..n]);
    FlagsLast(lint);
    ReadAsValue(lint);
    match f.awaiting {
      case None =>
        ReadOptionSets(f, OptionOf(lint[n]), flag);
        OptionIff(lint[n], flag);
      case Some(awaited) =>
        assert lint[..n][n - 1] == lint[n - 1];
        ReadOptionSets(f.(awaiting := None), WithValue(awaited), flag);
        ValueIff(lint[n - 1], awaited, flag);
        AwaitingIsNoFlag(f, flag);
    }
  }

  lemma AwaitingIsNoFlag(f: Flags, flag: Flag)
    ensures On(f.(awaiting := None), flag) == On(f, flag)
  {
  }

  lemma ValueIff(arg: string, awaited: Awaited, flag: Flag)
    requires Takes(arg, FlagOf(awaited))
    ensures AsksFor(WithValue(awaited), flag) <==> Takes(arg, flag)
  {
    hide Takes;
    if Takes(arg, flag) {
      TakesOnce(arg, flag, FlagOf(awaited));
    }
  }

  lemma LastAwaits(lint: seq<string>)
    requires lint != [] && Awaiting(lint[..|lint| - 1], FlagsOf(lint[..|lint| - 1]).awaiting)
    ensures Awaiting(lint, FlagsOf(lint).awaiting)
  {
    hide FlagsOf, OptionOf, IsValue, Takes, TakesValue, ReadOption;
    var n := |lint| - 1;
    var f := FlagsOf(lint[..n]);
    FlagsLast(lint);
    ReadAsValue(lint);
    match f.awaiting {
      case None =>
        ReadOptionSets(f, OptionOf(lint[n]), FixFlag);
        AwaitsIff(lint[n]);
      case Some(awaited) =>
        ReadOptionSets(f.(awaiting := None), WithValue(awaited), FixFlag);
    }
  }

  lemma AwaitsIff(arg: string)
    ensures OptionOf(arg).Awaits? <==> TakesValue(arg)
    ensures OptionOf(arg).Awaits? ==> Takes(arg, FlagOf(OptionOf(arg).value))
  {
    hide OptionOf;
    OptionWords(arg);
    if OptionOf(arg).Awaits? {
      assert Takes(arg, FlagOf(OptionOf(arg).value));
    }
  }

  lemma FlagsLast(lint: seq<string>)
    requires lint != []
    ensures FlagsOf(lint) == ReadLint(FlagsOf(lint[..|lint| - 1]), lint[|lint| - 1])
  {
  }

  /** An option by its spelling; no argument is two of them. */
  lemma OptionWords(arg: string)
    ensures OptionOf(arg) == Manifest <==> "--manifest-path=" <= arg
    ensures OptionOf(arg) == Package <==> "--package=" <= arg || arg == "--workspace"
    ensures OptionOf(arg) == Library <==> "--lib=" <= arg || "--lib-path=" <= arg
    ensures OptionOf(arg) == NoDeps <==> arg == "--no-deps"
    ensures OptionOf(arg) == Fix <==> arg == "--fix"
    ensures OptionOf(arg) == Awaits(ManifestPath) <==> arg == "--manifest-path"
    ensures OptionOf(arg) == Awaits(PackageSelection) <==> arg == "-p" || arg == "--package"
    ensures OptionOf(arg) == Awaits(LibrarySelection) <==> arg == "--lib" || arg == "--lib-path"
  {
    StartsIff(arg, "--manifest-path=");
    StartsIff(arg, "--package=");
    StartsIff(arg, "--lib=");
    StartsIff(arg, "--lib-path=");
    hide StartsWith;
    assert "--manifest-path="[2] == 'm' && "--package="[2] == 'p' && "--lib="[2] == 'l' && "--lib-path="[2] == 'l';
    assert "--workspace"[2] == 'w' && "--no-deps"[2] == 'n' && "--fix"[2] == 'f';
    assert "--manifest-path"[2] == 'm' && "--package"[2] == 'p' && "--lib"[2] == 'l' && "--lib-path"[2] == 'l';
    assert "-p"[1] == 'p' && "--lib"[1] == '-' && "--lib="[5] == '=' && "--lib-path"[5] == '-';
    assert |"--lib"| == 5 && |"--lib="| == 6 && |"--lib-path"| == 10 && |"--lib-path="| == 11;
  }

  lemma OptionIff(arg: string, flag: Flag)
    ensures AsksFor(OptionOf(arg), flag) <==> Says(arg, flag)
  {
    hide OptionOf;
    OptionWords(arg);
  }

  lemma StartsIff(arg: string, prefix: string)
    ensures StartsWith(arg, prefix) <==> prefix <= arg
  {
  }

  /** A flag is set exactly if some argument sets it, and the last option may be waiting for its value. */
  lemma {:induction false} FlagsIff(lint: seq<string>, flag: Flag)
    ensures On(FlagsOf(lint), flag) <==> exists i :: 0 <= i < |lint| && Sets(lint, i, flag)
    ensures Awaiting(lint, FlagsOf(lint).awaiting)
  {
    hide FlagsOf, Sets, Awaiting, On;
    if lint == [] {
      NothingSet(flag);
    } else {
      var n := |lint| - 1;
      FlagsIff(lint[..n], flag);
      LastSets(lint, flag);
      LastAwaits(lint);
      forall i | 0 <= i < n ensures Sets(lint[..n], i, flag) == Sets(lint, i, flag) {
        SetsOfPrefix(lint, n, i, flag);
      }
    }
  }

  lemma NothingSet(flag: Flag)
    ensures !On(FlagsOf([]), flag) && Awaiting([], FlagsOf([]).awaiting)
  {
  }

  /** An argument up to its first equals sign. */
  function NameOf(arg: string): string {
    if arg == "" || arg[0] == '=' then "" else [arg[0]] + NameOf(arg[1..])
  }

  lemma {:induction false} NameOfIff(arg: string, name: string)
    requires '=' !in name
    ensures NameOf(arg) == name <==> arg == name || name + "=" <= arg
  {
    if name == "" {
      assert name + "=" == "=";
    } else if arg != "" && arg[0] == name[0] {
      NameOfIff(arg[1..], name[1..]);
      assert arg == [arg[0]] + arg[1..] && name == [name[0]] + name[1..];
      assert name[1..] + "=" <= arg[1..] <==> name + "=" <= arg by {
        var w := name + "=";
        assert w[1..] == name[1..] + "=" && w[0] == name[0];
      }
    } else if arg != "" {
      assert (name + "=")[0] == name[0];
    }
  }

  /** Which cargo arguments choose the targets: seven words, and four options with or without a value. */
  lemma TargetIff(arg: string)
    ensures SelectsTarget(arg) <==>
      (arg in ["--all-targets", "--lib", "--bins", "--tests", "--examples", "--benches", "--doc"]
       || NameOf(arg) in ["--bin", "--test", "--example", "--bench"])
  {
    hide NameOf;
    StartsIff(arg, "--bin=");
    StartsIff(arg, "--test=");
    StartsIff(arg, "--example=");
    StartsIff(arg, "--bench=");
    assert "--bin" + "=" == "--bin=" && "--test" + "=" == "--test=";
    assert "--example" + "=" == "--example=" && "--bench" + "=" == "--bench=";
    NameOfIff(arg, "--bin");
    NameOfIff(arg, "--test");
    NameOfIff(arg, "--example");
    NameOfIff(arg, "--bench");
  }

  // ---------------------------------------------------------------- what parsing finds

  /** The arguments are split at the first separator, if there is one. */
  predicate SplitsInto(args: seq<string>, lint: seq<string>, cargo: seq<string>) {
    "--" !in lint && ((args == lint && cargo == []) || args == lint + ["--"] + cargo)
  }

  lemma SplitIff(args: seq<string>, lint: seq<string>, cargo: seq<string>)
    ensures SplitsInto(args, lint, cargo) <==> Before(args) == lint && After(args) == cargo
  {
    hide Before, After;
    BeforeHasNoSeparator(args);
    if "--" in args {
      SplitExact(args);
    } else {
      BeforeWhole(args);
    }
    if SplitsInto(args, lint, cargo) {
      if args == lint && cargo == [] {
        BeforeWhole(args);
      } else {
        SplitJoined(lint, cargo);
      }
    }
  }

  /** A cargo argument that selects targets. */
  predicate Targets(arg: string) {
    arg in ["--all-targets", "--lib", "--bins", "--tests", "--examples", "--benches", "--doc"]
    || NameOf(arg) in ["--bin", "--test", "--example", "--bench"]
  }

  /** What the arguments say: how they split, which flags some argument sets, and whether targets are selected. */
  ghost predicate Means(args: seq<string>, p: Parsed) {
    SplitsInto(args, p.lint, p.cargo)
    && (forall flag :: On(p.flags, flag) <==> exists i :: 0 <= i < |p.lint| && Sets(p.lint, i, flag))
    && Awaiting(p.lint, p.flags.awaiting)
    && (p.target <==> exists arg :: arg in p.cargo && Targets(arg))
  }

  lemma ParsedMeans(args: seq<string>)
    ensures Means(args, Parse(args))
  {
    hide Before, After, FlagsOf, Awaiting, Sets, On, SelectsTarget, Targets, SplitsInto;
    var p := Parse(args);
    SplitIff(args, p.lint, p.cargo);
    FlagsIff(p.lint, FixFlag);
    forall flag ensures On(p.flags, flag) <==> exists i :: 0 <= i < |p.lint| && Sets(p.lint, i, flag) {
      FlagsIff(p.lint, flag);
    }
    forall arg ensures SelectsTarget(arg) <==> Targets(arg) {
      TargetIff(arg);
      TargetsMeans(arg);
    }
  }

  lemma TargetsMeans(arg: string)
    ensures Targets(arg) <==>
      (arg in ["--all-targets", "--lib", "--bins", "--tests", "--examples", "--benches", "--doc"]
       || NameOf(arg) in ["--bin", "--test", "--example", "--bench"])
  {
  }

  lemma OneAwaited(lint: seq<string>, a: Option<Awaited>, b: Option<Awaited>)
    requires Awaiting(lint, a) && Awaiting(lint, b)
    ensures a == b
  {
    hide Takes, IsValue, TakesValue;
    if a.Some? && b.Some? {
      TakesOnce(lint[|lint| - 1], FlagOf(a.value), FlagOf(b.value));
    }
  }

  lemma SameFlags(f: Flags, g: Flags)
    requires f.awaiting == g.awaiting && forall flag :: On(f, flag) <==> On(g, flag)
    ensures f == g
  {
    assert On(f, ManifestFlag) <==> On(g, ManifestFlag);
    assert On(f, PackageFlag) <==> On(g, PackageFlag);
    assert On(f, LibraryFlag) <==> On(g, LibraryFlag);
    assert On(f, NoDepsFlag) <==> On(g, NoDepsFlag);
    assert On(f, FixFlag) <==> On(g, FixFlag);
  }

  /** Parsing finds exactly what the arguments say. */
  lemma ParseIff(args: seq<string>, p: Parsed)
    ensures Parse(args) == p <==> Means(args, p)
  {
    ParsedMeans(args);
    if Means(args, p) {
      var q := Parse(args);
      SplitIff(args, p.lint, p.cargo);
      hide Before, After, FlagsOf, Awaiting, Sets, On, SelectsTarget, Targets, SplitsInto;
      assert q.lint == p.lint && q.cargo == p.cargo;
      OneAwaited(p.lint, p.flags.awaiting, q.flags.awaiting);
      SameFlags(p.flags, q.flags);
    }
  }

  // ---------------------------------------------------------------- filling in defaults

  /** The defaults that go before the arguments. */
  function Defaults(parsed: Parsed, path: string): seq<string> {
    (if parsed.flags.manifest then [] else ["--manifest-path", path])
    + (if parsed.flags.package || parsed.flags.manifest then [] else ["--workspace"])
    + (if parsed.flags.noDeps then [] else ["--no-deps"])
  }

  function CargoArgs(parsed: Parsed): seq<string> {
    parsed.cargo + if parsed.flags.fix || parsed.target then [] else ["--all-targets"]
  }

  function Build(parsed: Parsed, path: string): seq<string> {
    Defaults(parsed, path) + parsed.lint + if CargoArgs(parsed) == [] then [] else [SEPARATOR] + CargoArgs(parsed)
  }

  method BuildFinalArgs(parsed: Parsed, path: string) returns (final: seq<string>)
    ensures final == Build(parsed, path) && Completes(parsed, path, final)
  {
    final := [];
    var cargo := parsed.cargo;
    if !parsed.flags.manifest {
      final := final + ["--manifest-path", path];
    }
    if !parsed.flags.package && !parsed.flags.manifest {
      final := final + ["--workspace"];
    }
    if !parsed.flags.noDeps {
      final := final + ["--no-deps"];
    }
    assert final == Defaults(parsed, path);
    if !parsed.flags.fix && !parsed.target {
      cargo := cargo + ["--all-targets"];
    }
    assert cargo == CargoArgs(parsed);
    final := final + parsed.lint;
    if cargo != [] {
      final := final + ([SEPARATOR] + cargo);
    }
    BuildIff(parsed, path, final);
  }

  // ---------------------------------------------------------------- reading the defaults back

  /** Flags set by either of two argument lists; the second decides what is still awaited. */
  function Join(f: Flags, g: Flags): Flags {
    Flags(f.manifest || g.manifest, f.package || g.package, f.noDeps || g.noDeps,
          f.library || g.library, f.fix || g.fix, g.awaiting)
  }

  lemma {:induction false} FlagsJoin(a: seq<string>, b: seq<string>)
    requires FlagsOf(a).awaiting.None?
    ensures FlagsOf(a + b) == Join(FlagsOf(a), FlagsOf(b))
  {
    if b == [] {
      assert a + b == a;
    } else {
      var front, last := b[..|b| - 1], b[|b| - 1];
      FlagsJoin(a, front);
      assert (a + b)[..|a + b| - 1] == a + front;
      ReadJoin(FlagsOf(a), FlagsOf(front), last);
    }
  }

  lemma ReadJoin(f: Flags, g: Flags, arg: string)
    ensures ReadLint(Join(f, g), arg) == Join(f, ReadLint(g, arg))
  {
    hide OptionOf, ReadOption;
    match g.awaiting {
      case None =>
        ReadOptionJoin(f, g, OptionOf(arg));
      case Some(awaited) =>
        ReadOptionJoin(f, g.(awaiting := None), WithValue(awaited));
    }
  }

  lemma ReadOptionJoin(f: Flags, g: Flags, option: Asks)
    ensures ReadOption(Join(f, g), option) == Join(f, ReadOption(g, option))
  {
    match option {
      case Awaits(value) =>
      case Manifest =>
      case Package =>
      case Fix =>
      case NoDeps =>
      case Library =>
      case Nothing =>
    }
  }

  lemma FlagsOfOne(arg: string)
    ensures FlagsOf([arg]) == ReadLint(NONE, arg)
  {
    assert [arg][..0] == [];
  }

  /** The three defaults set what they are there for and leave nothing awaited. */
  lemma DefaultsRead(path: string)
    ensures FlagsOf(["--manifest-path", path]) == NONE.(manifest := true)
    ensures FlagsOf(["--workspace"]) == NONE.(package := true)
    ensures FlagsOf(["--no-deps"]) == NONE.(noDeps := true)
  {
    hide FlagsOf;
    FlagsOfOne("--workspace");
    FlagsOfOne("--no-deps");
    assert FlagsOf(["--manifest-path", path]) == NONE.(manifest := true) by { ManifestRead(path); }
    assert "--workspace"[2] == 'w' && "--no-deps"[2] == 'n' && "--manifest-path="[2] == 'm'
        && "--package="[2] == 'p' && "--lib="[2] == 'l';
  }

  lemma ManifestRead(path: string)
    ensures FlagsOf(["--manifest-path", path]) == NONE.(manifest := true)
  {
    FlagsOfOne("--manifest-path");
    assert ["--manifest-path", path][..1] == ["--manifest-path"];
  }

  lemma DefaultFlags(parsed: Parsed, path: string)
    ensures
      var f := parsed.flags;
      FlagsOf(Defaults(parsed, path))
        == NONE.(manifest := !f.manifest, package := !f.package && !f.manifest, noDeps := !f.noDeps)
  {
    hide FlagsOf;
    DefaultsRead(path);
    NoFlags();
    var a := if parsed.flags.manifest then [] else ["--manifest-path", path];
    var b := if parsed.flags.package || parsed.flags.manifest then [] else ["--workspace"];
    var c := if parsed.flags.noDeps then [] else ["--no-deps"];
    FlagsJoin(a, b);
    FlagsJoin(a + b, c);
  }

  lemma NoFlags()
    ensures FlagsOf([]) == NONE
  {
  }

  /** The words added in front: the manifest path, the workspace and `--no-deps`, each where it is missing. */
  predicate Fills(f: Flags, path: string, added: seq<string>) {
    |added| == (if f.manifest then 0 else if f.package then 2 else 3) + (if f.noDeps then 0 else 1)
    && (!f.manifest ==> added[0] == "--manifest-path" && added[1] == path)
    && (!f.manifest && !f.package ==> added[2] == "--workspace")
    && (!f.noDeps ==> added[|added| - 1] == "--no-deps")
  }

  /** Parsing the final arguments: the user's arguments keep their meaning and the defaults are in place. */
  lemma ParseBuilt(args: seq<string>, path: string) returns (added: seq<string>)
    requires path != "--" || Parse(args).flags.manifest
    ensures
      var p, q := Parse(args), Parse(Build(Parse(args), path));
      Fills(p.flags, path, added) && q.lint == added + p.lint
      && q.cargo == p.cargo + (if p.flags.fix || p.target then [] else ["--all-targets"])
      && q.flags == p.flags.(manifest := true, package := p.flags.package || !p.flags.manifest, noDeps := true)
      && (q.target <==> p.target || !p.flags.fix)
  {
    hide FlagsOf, Before, After, SelectsTarget;
    var p := Parse(args);
    added := Defaults(p, path);
    var lint := added + p.lint;
    DefaultFlags(p, path);
    FlagsJoin(added, p.lint);
    BeforeHasNoSeparator(args);
    DefaultsHaveNoSeparator(p, path);
    assert SEPARATOR !in lint;
    if CargoArgs(p) == [] {
      assert Build(p, path) == lint;
      BeforeWhole(lint);
    } else {
      assert Build(p, path) == lint + [SEPARATOR] + CargoArgs(p);
      SplitJoined(lint, CargoArgs(p));
    }
    AllTargetsSelected(p);
  }

  lemma DefaultsHaveNoSeparator(parsed: Parsed, path: string)
    requires path != SEPARATOR || parsed.flags.manifest
    ensures SEPARATOR !in Defaults(parsed, path)
  {
    assert |"--manifest-path"| == 15 && |"--workspace"| == 11 && |"--no-deps"| == 9 && |SEPARATOR| == 2;
  }

  lemma AllTargetsSelected(parsed: Parsed)
    requires parsed.target <==> TargetSelected(parsed.cargo)
    ensures TargetSelected(CargoArgs(parsed)) <==> parsed.target || !parsed.flags.fix
  {
    assert SelectsTarget("--all-targets");
  }

  /**
   Wrapping twice is wrapping once, unless the manifest path that has to be added reads as the
   separator.
   */
  lemma WrapTwiceIff(args: seq<string>, path: string)
    ensures
      var final := Build(Parse(args), path);
      Build(Parse(final), path) == final <==> path != "--" || Parse(args).flags.manifest
  {
    hide Parse, Build;
    var p := Parse(args);
    if path != SEPARATOR || p.flags.manifest {
      WrapTwice(args, path);
    } else {
      SeparatorPathGrows(p);
    }
  }

  lemma WrapTwice(args: seq<string>, path: string)
    requires path != "--" || Parse(args).flags.manifest
    ensures Build(Parse(Build(Parse(args), path)), path) == Build(Parse(args), path)
  {
    hide Parse;
    var p := Parse(args);
    var added := ParseBuilt(args, path);
    var q := Parse(Build(p, path));
    FillsIsDefaults(p, path, added);
    assert Defaults(q, path) == [] && CargoArgs(q) == q.cargo == CargoArgs(p);
    assert [] + q.lint == Defaults(p, path) + p.lint;
  }

  /** The words added are the defaults, and no others. */
  lemma FillsIsDefaults(p: Parsed, path: string, added: seq<string>)
    requires Fills(p.flags, path, added)
    ensures added == Defaults(p, path)
  {
  }

  /** The words added behind: the cargo arguments after a separator, with all targets where neither is asked for. */
  predicate Closes(p: Parsed, tail: seq<string>) {
    if p.flags.fix || p.target then
      (p.cargo == [] ==> tail == []) && (p.cargo != [] ==> tail == ["--"] + p.cargo)
    else tail == ["--"] + p.cargo + ["--all-targets"]
  }

  /** The final arguments, word by word: what is missing, what was given, and the cargo arguments. */
  ghost predicate Completes(p: Parsed, path: string, final: seq<string>) {
    exists added, tail :: Fills(p.flags, path, added) && Closes(p, tail) && final == added + p.lint + tail
  }

  lemma ClosesIff(p: Parsed, tail: seq<string>)
    ensures Closes(p, tail) <==> tail == if CargoArgs(p) == [] then [] else [SEPARATOR] + CargoArgs(p)
  {
    assert p.cargo + [] == p.cargo;
    assert ["--"] + p.cargo + ["--all-targets"] == ["--"] + (p.cargo + ["--all-targets"]);
  }

  lemma BuildIff(p: Parsed, path: string, final: seq<string>)
    ensures final == Build(p, path) <==> Completes(p, path, final)
  {
    var tail := if CargoArgs(p) == [] then [] else [SEPARATOR] + CargoArgs(p);
    ClosesIff(p, tail);
    assert Fills(p.flags, path, Defaults(p, path));
    assert Build(p, path) == Defaults(p, path) + p.lint + tail;
    hide Fills, Closes, Build, Defaults, CargoArgs;
    if Completes(p, path, final) {
      var added, rest :| Fills(p.flags, path, added) && Closes(p, rest) && final == added + p.lint + rest;
      FillsIsDefaults(p, path, added);
      ClosesIff(p, rest);
    }
  }

  /** With the separator as its path, everything after the first two words becomes a cargo argument. */
  lemma SeparatorPathGrows(p: Parsed)
    requires !p.flags.manifest
    ensures var final := Build(p, SEPARATOR); |Build(Parse(final), SEPARATOR)| > |final|
  {
    hide FlagsOf, Before, After, SelectsTarget;
    var final := Build(p, SEPARATOR);
    assert final[..2] == ["--manifest-path", SEPARATOR];
    assert final == ["--manifest-path"] + [SEPARATOR] + final[2..];
    assert |"--manifest-path"| == 15 && |SEPARATOR| == 2;
    SplitJoined(["--manifest-path"], final[2..]);
    FlagsOfOne("--manifest-path");
  }

  /** No arguments and the separator as manifest path: the output changes when it is wrapped again. */
  lemma SeparatorPathExample()
    ensures
      var final := Build(Parse([]), SEPARATOR);
      Build(Parse(final), SEPARATOR) != final
  {
    hide Build, Parse;
    NothingParsed();
    WrapTwiceIff([], SEPARATOR);
  }
}
