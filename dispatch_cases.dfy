/** Worked cases of the command line of milcheck. */
module DispatchCases {
  import opened Wrappers
  import opened Cli
  import opened Dispatch

  /** The outcome for the arguments after the binary name. */
  function OutcomeOf(args: seq<string>): Outcome
  {
    TokenizedIndexed(ProgramFlags, args, true);
    HandleArgs(ProgramFlags, Tokenized(ProgramFlags, args, true), "milcheck")
  }

  lemma NoArguments()
    ensures OutcomeOf([]) == Proceed
  {
  }

  /** The first token of the tokens decides when it is decisive. */
  lemma FirstTokenDecides(args: seq<string>, t: Token)
    requires t.Option? ==> t.flag < |ProgramFlags|
    requires args != [] && Decisive(ProgramFlags, t)
    requires |ArgTokens(ProgramFlags, args[0], true)| > 0 && ArgTokens(ProgramFlags, args[0], true)[0] == t
    ensures OutcomeOf(args) == Verdict(ProgramFlags, t, "milcheck")
  {
    var ts := Tokenized(ProgramFlags, args, true);
    assert ts[0] == t by {
      var first := ArgTokens(ProgramFlags, args[0], true);
      assert first[0] == t;
      assert ts == first + Tokenized(ProgramFlags, args[1..], AcceptAfter(args[0], true));
    }
    TokenizedIndexed(ProgramFlags, args, true);
    FirstDecisiveDecides(ProgramFlags, ts, "milcheck", 0);
  }

  /** In a cluster the first flag decides. */
  lemma ClusterFirstFlagDecides()
    ensures OutcomeOf(["-vh"]) == Exit(ShowVersion)
  {
    var a := "-vh";
    ArgTokensByChars(ProgramFlags, a, true);
    assert a[1..] == "vh";
    assert ShortTokens(ProgramFlags, "vh")[0] == Option(1, None);
    FirstTokenDecides([a], Option(1, None));
  }

  lemma LongLicense()
    ensures OutcomeOf(["--license"]) == Exit(ShowLicense)
  {
    LicenseToken();
    FirstTokenDecides(["--license"], Option(2, None));
  }

  lemma LicenseToken()
    ensures ArgTokens(ProgramFlags, "--license", true) == [Option(2, None)]
  {
    var a := "--license";
    ArgTokensByChars(ProgramFlags, a, true);
    assert a[2..] == "license";
    LicenseIsFirstLong();
    LongBare(ProgramFlags, "license", 2);
  }

  lemma LicenseIsFirstLong()
    ensures '=' !in "license" && FirstLong(ProgramFlags, "license", 2)
  {
    assert ProgramFlags[0].long[0] != 'l' && ProgramFlags[1].long[0] != 'l';
  }

  /** An unknown option before help is reported, and help is never reached. */
  lemma UnknownBeforeHelp()
    ensures OutcomeOf(["-x", "-h"]) == UsageError("unknown option \"x\", run milcheck --help")
  {
    UnknownX();
    FirstTokenDecides(["-x", "-h"], UnknownOpt("x"));
    UnknownXMessage();
  }

  lemma UnknownXMessage()
    ensures UnknownOptionMessage("x", "milcheck") == "unknown option \"x\", run milcheck --help"
  {
  }

  lemma UnknownX()
    ensures ArgTokens(ProgramFlags, "-x", true) == [UnknownOpt("x")]
  {
    var a := "-x";
    ArgTokensByChars(ProgramFlags, a, true);
    assert a[1..] == "x";
    assert ShortTokens(ProgramFlags, "x") == [UnknownOpt("x")];
  }

  /** After `--`, `-h` is an unexpected argument. */
  lemma HelpAfterEndOfOptions()
    ensures OutcomeOf(["--", "-h"]) == UsageError("unexpected argument \"-h\", run milcheck --help")
  {
    var args := ["--", "-h"];
    assert Tokenized(ProgramFlags, args, true) == Tokenized(ProgramFlags, args[1..], false);
    assert args[1..] == ["-h"] && ["-h"][1..] == [];
    assert Tokenized(ProgramFlags, args[1..], false) == [Argument("-h")] + [];
    UnexpectedHMessage();
  }

  lemma UnexpectedHMessage()
    ensures UnexpectedArgumentMessage("-h", "milcheck") == "unexpected argument \"-h\", run milcheck --help"
  {
  }
}
