/**
  The command-line handling of milcheck's entry point (src/main.rs): the
  parser is built with the help, version and license flags, and the first
  decisive token decides between exiting after printing, a usage error, or
  going on with the mirror check. Printing and exiting are returned as an
  `Outcome`.
*/
module Dispatch {
  import opened Wrappers
  import opened Cli
  import opened Strings

  /** What is printed before exiting with status 0. */
  datatype Action = ShowHelp(binary: string) | ShowVersion | ShowLicense

  /** Go on with the mirror check, print and exit with status 0, or report a usage error (status 1). */
  datatype Outcome = Proceed | Exit(action: Action) | UsageError(message: string)

  /** The flag table `main` builds: `help()`, then `version()`, then `license()`. */
  const ProgramFlags: seq<Flag> := [
    Flag("help", 'h', "help", false),
    Flag("version", 'v', "version", false),
    Flag("license", 'L', "license", false)
  ]

  predicate IsExitFlag(id: string) {
    id == "help" || id == "version" || id == "license"
  }

  /** A token that ends the scan: anything but an option with some other identifier. */
  predicate Decisive(flags: seq<Flag>, t: Token)
    requires t.Option? ==> t.flag < |flags|
  {
    !t.Option? || IsExitFlag(flags[t.flag].id)
  }

  function UnknownOptionMessage(option: string, binary: string): string {
    "unknown option \"" + option + "\", run " + binary + " --help"
  }

  function UnexpectedArgumentMessage(arg: string, binary: string): string {
    "unexpected argument \"" + arg + "\", run " + binary + " --help"
  }

  /** What a decisive token decides. */
  function Verdict(flags: seq<Flag>, t: Token, binary: string): (r: Outcome)
    requires t.Option? ==> t.flag < |flags|
    requires Decisive(flags, t)
    ensures r != Proceed
    ensures r.Exit? <==> t.Option?
    ensures r.UsageError? ==> EndsWith(r.message, "\", run " + binary + " --help")
  {
    match t
    case Option(k, _) =>
      if flags[k].id == "help" then Exit(ShowHelp(binary))
      else if flags[k].id == "version" then Exit(ShowVersion)
      else Exit(ShowLicense)
    case UnknownOpt(o) => UsageError(UnknownOptionMessage(o, binary))
    case Argument(a) => UsageError(UnexpectedArgumentMessage(a, binary))
  }

  /** `handle_args`: the tokens in order, returning at the first decisive one. */
  function HandleArgs(flags: seq<Flag>, tokens: seq<Token>, binary: string): (r: Outcome)
    requires Indexed(flags, tokens)
    ensures r == Proceed <==> forall i | 0 <= i < |tokens| :: !Decisive(flags, tokens[i])
  {
    if tokens == [] then Proceed
    else
      assert Indexed(flags, tokens[1..]) by {
        forall i | 0 <= i < |tokens[1..]| ensures tokens[1..][i].Option? ==> tokens[1..][i].flag < |flags| {
          assert tokens[1..][i] == tokens[i + 1];
        }
      }
      var rest := HandleArgs(flags, tokens[1..], binary);
      assert rest == Proceed <==> forall i | 1 <= i < |tokens| :: !Decisive(flags, tokens[i]) by {
        forall i | 1 <= i < |tokens| ensures tokens[i] == tokens[1..][i - 1] { }
      }
      match tokens[0]
      case Option(flag, _) =>
        if flags[flag].id == "help" then Exit(ShowHelp(binary))
        else if flags[flag].id == "version" then Exit(ShowVersion)
        else if flags[flag].id == "license" then Exit(ShowLicense)
        else rest
      case UnknownOpt(option) => UsageError(UnknownOptionMessage(option, binary))
      case Argument(arg) => UsageError(UnexpectedArgumentMessage(arg, binary))
  }

  /** The first decisive token alone decides; the options before it are skipped whatever their value. */
  lemma {:induction false} FirstDecisiveDecides(flags: seq<Flag>, tokens: seq<Token>, binary: string, i: nat)
    requires Indexed(flags, tokens)
    requires i < |tokens| && Decisive(flags, tokens[i])
    requires forall j | 0 <= j < i :: !Decisive(flags, tokens[j])
    ensures HandleArgs(flags, tokens, binary) == Verdict(flags, tokens[i], binary)
  {
    if i > 0 {
      var rest := tokens[1..];
      assert Indexed(flags, rest) by {
        forall j | 0 <= j < |rest| ensures rest[j].Option? ==> rest[j].flag < |flags| {
          assert rest[j] == tokens[j + 1];
        }
      }
      assert !Decisive(flags, tokens[0]);
      forall j | 0 <= j < i - 1 ensures !Decisive(flags, rest[j]) {
        assert rest[j] == tokens[j + 1];
      }
      assert rest[i - 1] == tokens[i];
      FirstDecisiveDecides(flags, rest, binary, i - 1);
    }
  }

  /** With this table no flag takes a value, so normalizing changes nothing. */
  lemma {:induction false} ProgramTokensAreNormal(tokens: seq<Token>)
    ensures Normalized(ProgramFlags, tokens) == tokens
  {
    ProgramNothingFuses(tokens);
    NormalizedUnchanged(ProgramFlags, tokens);
  }

  lemma {:induction false} ProgramNothingFuses(tokens: seq<Token>)
    ensures FuseCount(ProgramFlags, tokens) == 0
  {
    if |tokens| >= 2 {
      ProgramNothingFuses(tokens[1..]);
    }
  }

  /**
    The command-line part of `main`: build the parser over the process
    arguments, register help, version and license, parse, and hand the tokens
    to `handle_args` together with the binary name.
  */
  method HandleCommandLine(argv: seq<string>) returns (outcome: Outcome)
    ensures var binary := if argv == [] then PackageName else BaseName(argv[0]);
      var args := if argv == [] then [] else argv[1..];
      Indexed(ProgramFlags, Tokenized(ProgramFlags, args, true)) &&
      outcome == HandleArgs(ProgramFlags, Tokenized(ProgramFlags, args, true), binary)
  {
    var parser := new Parser(argv);
    var binary := parser.BinaryName();
    var p := parser.Help();
    p := p.Version();
    p := p.License();
    assert parser.flags == ProgramFlags;
    var parsed := p.Parse();
    var args := if argv == [] then [] else argv[1..];
    TokenizedIndexed(ProgramFlags, args, true);
    ProgramTokensAreNormal(Tokenized(ProgramFlags, args, true));
    outcome := HandleArgs(ProgramFlags, parsed, binary);
  }
}
