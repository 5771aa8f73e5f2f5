/** Removing recognised flags from an argument vector in place. */
module GoogleMockFlags {

  import opened Wrappers

  datatype Flags = Flags(catchLeakedMocks: bool, verbose: string)

  // ----- One argument

  /** The text after "=", or the empty text when the value may be left out. */
  function ParseFlagValue(str: string, flag: string, defOptional: bool): Option<string> {
    var flagStr := "--gmock_" + flag;
    if !(flagStr <= str) then None
    else
      var flagEnd := str[|flagStr|..];
      if defOptional && flagEnd == "" then Some("")
      else if flagEnd == "" || flagEnd[0] != '=' then None
      else Some(flagEnd[1..])
  }

  /** A bool flag is off when its value starts with '0', 'f' or 'F', and on otherwise. */
  function ParseBoolFlag(str: string, flag: string): Option<bool> {
    match ParseFlagValue(str, flag, true)
    case None => None
    case Some(v) => Some(!(v != "" && (v[0] == '0' || v[0] == 'f' || v[0] == 'F')))
  }

  function ParseStringFlag(str: string, flag: string): Option<string> {
    ParseFlagValue(str, flag, false)
  }

  function BoolOf(arg: string): Option<bool> { ParseBoolFlag(arg, "catch_leaked_mocks") }

  function StringOf(arg: string): Option<string> { ParseStringFlag(arg, "verbose") }

  predicate Recognised(arg: Option<string>) {
    arg.Some? && (BoolOf(arg.value).Some? || StringOf(arg.value).Some?)
  }

  /** The flags after one argument; the string flag is tried only if the bool flag is not recognised. */
  function Apply(flags: Flags, arg: Option<string>): Flags {
    if arg.None? then flags
    else if BoolOf(arg.value).Some? then flags.(catchLeakedMocks := BoolOf(arg.value).value)
    else if StringOf(arg.value).Some? then flags.(verbose := StringOf(arg.value).value)
    else flags
  }

  // ----- All of them

  /** The unrecognised arguments, in order. */
  function Kept(args: seq<Option<string>>): (r: seq<Option<string>>)
    ensures |r| <= |args|
  {
    if args == [] then []
    else (if Recognised(args[0]) then [] else [args[0]]) + Kept(args[1..])
  }

  function ApplyAll(flags: Flags, args: seq<Option<string>>): Flags
    decreases |args|
  {
    if args == [] then flags else ApplyAll(Apply(flags, args[0]), args[1..])
  }

  /** Entry i gone, the entries up to and including the one at n moved down, the one at n still there too. */
  function Shifted(s: seq<Option<string>>, i: nat, n: nat): (r: seq<Option<string>>)
    requires i < n < |s|
    ensures |r| == |s| && forall k :: 0 <= k < |s| ==> r[k] == s[if i <= k < n then k + 1 else k]
  {
    s[..i] + s[i + 1..n + 1] + s[n..]
  }

  /** Shifts the remainder of the list left by one; the trailing NULL moves along. */
  method ShiftLeft(argv: array<Option<string>>, i: nat, argc: nat)
    requires i < argc < argv.Length
    modifies argv
    ensures argv[..] == Shifted(old(argv[..]), i, argc)
  {
    var j := i;
    while j != argc
      invariant i <= j <= argc
      invariant forall k :: 0 <= k < argv.Length ==> argv[k] == old(argv[if i <= k < j then k + 1 else k])
      decreases argc - j
    {
      argv[j] := argv[j + 1];
      j := j + 1;
    }
  }

  /** The vector midway: the first argument, the kept ones, the ones to come, NULLs, and what lies beyond. */
  ghost predicate Layout(s: seq<Option<string>>, first: Option<string>, kept: seq<Option<string>>,
                         rest: seq<Option<string>>, beyond: seq<Option<string>>)
  {
    && 1 + |kept| + |rest| + |beyond| < |s|
    && s[0] == first && s[1..1 + |kept|] == kept && s[1 + |kept|..1 + |kept| + |rest|] == rest
    && (forall k :: 1 + |kept| + |rest| <= k < |s| - |beyond| ==> s[k].None?)
    && s[|s| - |beyond|..] == beyond
  }

  lemma LayoutKeep(s: seq<Option<string>>, first: Option<string>, kept: seq<Option<string>>,
                   rest: seq<Option<string>>, beyond: seq<Option<string>>)
    requires Layout(s, first, kept, rest, beyond) && rest != []
    ensures 1 + |kept| < |s| && s[1 + |kept|] == rest[0]
    ensures Layout(s, first, kept + [rest[0]], rest[1..], beyond)
  {
    assert s[1 + |kept|] == s[1 + |kept|..1 + |kept| + |rest|][0];
    assert s[2 + |kept|..1 + |kept| + |rest|] == s[1 + |kept|..1 + |kept| + |rest|][1..];
  }

  lemma LayoutRemove(s: seq<Option<string>>, first: Option<string>, kept: seq<Option<string>>,
                     rest: seq<Option<string>>, beyond: seq<Option<string>>, i: nat, n: nat)
    requires Layout(s, first, kept, rest, beyond) && rest != []
    requires i == 1 + |kept| && n == i + |rest|
    ensures n < |s| && Layout(Shifted(s, i, n), first, kept, rest[1..], beyond)
  {
    var s' := Shifted(s, i, n);
    assert s'[1..i] == s[1..i];
    forall k | 0 <= k < |rest| - 1 ensures s'[i..n - 1][k] == rest[1..][k] {
      assert s[i..n][k + 1] == rest[k + 1];
    }
    assert s'[i..n - 1] == rest[1..];
    assert s'[|s| - |beyond|..] == s[|s| - |beyond|..];
  }

  lemma LayoutDone(s: seq<Option<string>>, first: Option<string>, kept: seq<Option<string>>,
                   beyond: seq<Option<string>>)
    requires Layout(s, first, kept, [], beyond)
    ensures s[..1 + |kept|] == [first] + kept
    ensures forall k :: 1 + |kept| <= k < |s| - |beyond| ==> s[k].None?
    ensures s[|s| - |beyond|..] == beyond
  {
  }

  /** The loop of InitGoogleMockImpl: recognised arguments take effect and disappear; the others close up. */
  method Compact(argc: nat, argv: array<Option<string>>, flags: Flags) returns (newArgc: nat, newFlags: Flags)
    requires 0 < argc < argv.Length && argv[argc].None?
    modifies argv
    ensures newArgc == 1 + |Kept(old(argv[1..argc]))| <= argc
    ensures Layout(argv[..], old(argv[0]), Kept(old(argv[1..argc])), [], old(argv[argc + 1..]))
    ensures newFlags == ApplyAll(flags, old(argv[1..argc]))
  {
    hide Recognised, Apply, Kept, ApplyAll, Layout, Shifted, Progress;
    newArgc, newFlags := argc, flags;
    ghost var first, args, beyond := argv[0], argv[1..argc], argv[argc + 1..];
    ghost var kept: seq<Option<string>>, rest := [], args;
    var i := 1;
    LayoutStart(argv[..], argc);
    ProgressStart(args, flags);
    while i != newArgc
      invariant 1 <= i <= newArgc <= argc
      invariant |kept| == i - 1 && |rest| == newArgc - i
      invariant Layout(argv[..], first, kept, rest, beyond)
      invariant Progress(args, flags, kept, rest, newFlags)
      decreases newArgc - i, newArgc
    {
      ProgressStep(args, flags, kept, rest, newFlags);
      LayoutKeep(argv[..], first, kept, rest, beyond);
      var arg := argv[i];
      assert arg == rest[0];
      if Recognised(arg) {
        newFlags := Apply(newFlags, arg);
        LayoutRemove(argv[..], first, kept, rest, beyond, i, newArgc);
        ShiftLeft(argv, i, newArgc);
        newArgc := newArgc - 1;
      } else {
        kept := kept + [arg];
        i := i + 1;
      }
      rest := rest[1..];
    }
    assert rest == [];
    ProgressDone(args, flags, kept, newFlags);
  }

  lemma LayoutStart(s: seq<Option<string>>, argc: nat)
    requires 0 < argc < |s| && s[argc].None?
    ensures Layout(s, s[0], [], s[1..argc], s[argc + 1..])
  {
  }

  method InitGoogleMockImpl(argc: int, argv: array<Option<string>>, flags: Flags)
    returns (newArgc: int, newFlags: Flags)
    requires argc > 0 ==> argc < argv.Length && argv[argc].None?
    modifies argv
    ensures argc <= 0 ==> newArgc == argc && newFlags == flags && argv[..] == old(argv[..])
    ensures argc > 0 ==>
      && newArgc == 1 + |Kept(old(argv[1..argc]))| <= argc
      && argv[..newArgc] == [old(argv[0])] + Kept(old(argv[1..argc]))
      && (forall k :: newArgc <= k <= argc ==> argv[k].None?)
      && argv[argc + 1..] == old(argv[argc + 1..])
      && newFlags == ApplyAll(flags, old(argv[1..argc]))
  {
    hide Kept, ApplyAll, Layout;
    if argc <= 0 {
      return argc, flags;
    }
    ghost var first, args, beyond := argv[0], argv[1..argc], argv[argc + 1..];
    newArgc, newFlags := Compact(argc, argv, flags);
    LayoutDone(argv[..], first, Kept(args), beyond);
    assert argv[..][..newArgc] == argv[..newArgc] && argv[..][argc + 1..] == argv[argc + 1..];
    assert forall k :: 0 <= k < argv.Length ==> argv[..][k] == argv[k];
  }

  /** What is kept and applied so far, and what the rest will add, make up the whole. */
  ghost predicate Progress(args: seq<Option<string>>, flags: Flags, kept: seq<Option<string>>,
                           rest: seq<Option<string>>, current: Flags)
  {
    kept + Kept(rest) == Kept(args) && ApplyAll(current, rest) == ApplyAll(flags, args)
  }

  lemma ProgressStart(args: seq<Option<string>>, flags: Flags)
    ensures Progress(args, flags, [], args, flags)
  {
    hide Kept, ApplyAll;
  }

  lemma ProgressStep(args: seq<Option<string>>, flags: Flags, kept: seq<Option<string>>,
                     rest: seq<Option<string>>, current: Flags)
    requires Progress(args, flags, kept, rest, current) && rest != []
    ensures Recognised(rest[0]) ==> Progress(args, flags, kept, rest[1..], Apply(current, rest[0]))
    ensures !Recognised(rest[0]) ==> Progress(args, flags, kept + [rest[0]], rest[1..], current)
  {
    KeptStep(rest);
    ApplyStep(rest, current);
    hide Kept, ApplyAll, Recognised, Apply;
    if !Recognised(rest[0]) {
      assert (kept + [rest[0]]) + Kept(rest[1..]) == kept + ([rest[0]] + Kept(rest[1..]));
    }
  }

  lemma ProgressDone(args: seq<Option<string>>, flags: Flags, kept: seq<Option<string>>, current: Flags)
    requires Progress(args, flags, kept, [], current)
    ensures kept == Kept(args) && current == ApplyAll(flags, args)
  {
  }

  lemma KeptStep(rest: seq<Option<string>>)
    requires rest != []
    ensures Recognised(rest[0]) ==> Kept(rest) == Kept(rest[1..])
    ensures !Recognised(rest[0]) ==> Kept(rest) == [rest[0]] + Kept(rest[1..])
  {
    hide Recognised;
    assert [] + Kept(rest[1..]) == Kept(rest[1..]);
  }

  lemma ApplyStep(rest: seq<Option<string>>, current: Flags)
    requires rest != []
    ensures ApplyAll(current, rest) ==
              ApplyAll(if Recognised(rest[0]) then Apply(current, rest[0]) else current, rest[1..])
  {
    hide BoolOf, StringOf;
  }

  // ----- What the flags end up as

  /** The value of the last argument that sets the bool flag. */
  function LastBool(args: seq<Option<string>>): Option<bool> {
    if args == [] then None
    else
      var last := args[|args| - 1];
      if last.Some? && BoolOf(last.value).Some? then BoolOf(last.value) else LastBool(args[..|args| - 1])
  }

  /** The value of the last argument that sets the string flag and not the bool flag. */
  function LastString(args: seq<Option<string>>): Option<string> {
    if args == [] then None
    else
      var last := args[|args| - 1];
      if last.Some? && BoolOf(last.value).None? && StringOf(last.value).Some? then StringOf(last.value)
      else LastString(args[..|args| - 1])
  }

  lemma {:induction false} ApplyAllSnoc(flags: Flags, args: seq<Option<string>>, last: Option<string>)
    ensures ApplyAll(flags, args + [last]) == Apply(ApplyAll(flags, args), last)
    decreases |args|
  {
    hide Apply;
    if args == [] {
      assert args + [last] == [last] && [last][1..] == [];
    } else {
      assert (args + [last])[1..] == args[1..] + [last] && (args + [last])[0] == args[0];
      ApplyAllSnoc(Apply(flags, args[0]), args[1..], last);
    }
  }

  /** Each flag holds the value of its last recognised occurrence, or what it held before. */
  lemma {:induction false} LastOccurrenceWins(flags: Flags, args: seq<Option<string>>)
    ensures ApplyAll(flags, args).catchLeakedMocks ==
              if LastBool(args).Some? then LastBool(args).value else flags.catchLeakedMocks
    ensures ApplyAll(flags, args).verbose == if LastString(args).Some? then LastString(args).value else flags.verbose
    decreases |args|
  {
    hide BoolOf, StringOf;
    if args != [] {
      var n := |args| - 1;
      assert args == args[..n] + [args[n]];
      ApplyAllSnoc(flags, args[..n], args[n]);
      LastOccurrenceWins(flags, args[..n]);
    }
  }

  /** No argument sets both flags, so the order in which they are tried does not matter. */
  lemma FlagsAreDisjoint(arg: string)
    ensures !(BoolOf(arg).Some? && StringOf(arg).Some?)
  {
    assert "--gmock_" + "catch_leaked_mocks" <= arg ==> arg[8] == 'c';
    assert "--gmock_" + "verbose" <= arg ==> arg[8] == 'v';
  }

  /** An argument is taken exactly when it has one of these three forms. */
  lemma RecognisedIff(arg: string)
    ensures Recognised(Some(arg)) <==>
      || arg == "--gmock_catch_leaked_mocks"
      || "--gmock_catch_leaked_mocks=" <= arg
      || "--gmock_verbose=" <= arg
  {
    ValueIff(arg, "catch_leaked_mocks");
    ValueIff(arg, "verbose");
    assert "--gmock_" + "catch_leaked_mocks" == "--gmock_catch_leaked_mocks";
    assert "--gmock_" + "catch_leaked_mocks" + "=" == "--gmock_catch_leaked_mocks=";
    assert "--gmock_" + "verbose" + "=" == "--gmock_verbose=";
    hide ParseFlagValue;
  }

  lemma ValueIff(arg: string, flag: string)
    ensures ParseFlagValue(arg, flag, true).Some? <==> arg == "--gmock_" + flag || "--gmock_" + flag + "=" <= arg
    ensures ParseFlagValue(arg, flag, false).Some? <==> "--gmock_" + flag + "=" <= arg
  {
    NameThenEquals("--gmock_" + flag, arg);
  }

  lemma NameThenEquals(name: string, arg: string)
    ensures name + "=" <= arg <==> name <= arg && arg[|name|..] != "" && arg[|name|..][0] == '='
    ensures name <= arg && arg[|name|..] == "" <==> arg == name
  {
    if name <= arg {
      assert arg == name + arg[|name|..];
    }
    if name + "=" <= arg {
      assert (name + "=")[..|name|] == name;
      assert arg[|name|] == (name + "=")[|name|];
    }
  }

  /** A second call finds nothing to remove and nothing to set. */
  lemma {:induction false} SecondCallChangesNothing(flags: Flags, args: seq<Option<string>>)
    ensures Kept(Kept(args)) == Kept(args)
    ensures ApplyAll(flags, Kept(args)) == flags
    decreases |args|
  {
    hide Recognised, Apply;
    if args != [] {
      KeptStep(args);
      SecondCallChangesNothing(flags, args[1..]);
      if !Recognised(args[0]) {
        KeptStep(Kept(args));
        ApplyStep(Kept(args), flags);
        assert Kept(args)[1..] == Kept(args[1..]);
      }
    }
  }

  lemma ValueIs(flag: string, v: string)
    ensures ParseFlagValue("--gmock_" + flag + "=" + v, flag, false) == Some(v)
    ensures ParseFlagValue("--gmock_" + flag + "=" + v, flag, true) == Some(v)
    ensures ParseFlagValue("--gmock_" + flag, flag, true) == Some("")
    ensures ParseFlagValue("--gmock_" + flag, flag, false) == None
  {
    var name := "--gmock_" + flag;
    var arg := name + "=" + v;
    assert arg == name + ("=" + v);
    assert name <= arg && arg[|name|..] == "=" + v && ("=" + v)[1..] == v;
    assert name[|name|..] == "";
  }

  /** The bool flag is false exactly for a value that starts with '0', 'f' or 'F', and true for every other form. */
  lemma BoolFlagIs(flags: Flags, v: string)
    ensures Apply(flags, Some("--gmock_catch_leaked_mocks")) == flags.(catchLeakedMocks := true)
    ensures Apply(flags, Some("--gmock_catch_leaked_mocks=" + v)) ==
              flags.(catchLeakedMocks := v == "" || v[0] !in "0fF")
  {
    assert "--gmock_" + "catch_leaked_mocks" == "--gmock_catch_leaked_mocks";
    assert "--gmock_" + "catch_leaked_mocks" + "=" == "--gmock_catch_leaked_mocks=";
    ValueIs("catch_leaked_mocks", v);
    hide ParseFlagValue;
  }

  /** The string flag takes whatever stands behind the "=". */
  lemma StringFlagIs(flags: Flags, v: string)
    ensures Apply(flags, Some("--gmock_verbose=" + v)) == flags.(verbose := v)
    ensures Apply(flags, Some("--gmock_verbose")) == flags
  {
    assert "--gmock_" + "verbose" == "--gmock_verbose" && "--gmock_" + "verbose" + "=" == "--gmock_verbose=";
    ValueIs("verbose", v);
    FlagsAreDisjoint("--gmock_verbose=" + v);
    RecognisedIff("--gmock_verbose");
    hide ParseFlagValue, BoolOf;
  }
}
