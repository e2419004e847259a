/**
  Worked cases of the tokenizer over a small flag table: help (`-h`), a
  value-taking `flag` (`-f`), version (`-v`) and debug (`-d`).
*/
module CliCases {
  import opened Wrappers
  import opened Strings
  import opened Cli

  const Table: seq<Flag> := [
    Flag("help", 'h', "help", false),
    Flag("flag", 'f', "flag", true),
    Flag("version", 'v', "version", false),
    Flag("debug", 'd', "debug", false)
  ]

  /** The full pipeline: tokenize, then fuse value-taking options with a following argument. */
  function Parsed(args: seq<string>): seq<Token> {
    Normalized(Table, Tokenized(Table, args, true))
  }

  lemma ShortHelp()
    ensures Parsed(["-h"]) == [Option(0, None)]
  {
    var a := "-h";
    OneArg(a);
    ArgTokensByChars(Table, a, true);
    assert a[1..] == "h";
    assert ShortTokens(Table, "h") == [Option(0, None)];
  }

  /** A value glued to a value-taking short flag ends the cluster. */
  lemma GluedValue()
    ensures Parsed(["-farg"]) == [Option(1, Some("arg"))]
  {
    var a := "-farg";
    OneArg(a);
    ArgTokensByChars(Table, a, true);
    assert a[1..] == "farg";
    assert "farg"[1..] == "arg";
    assert ShortTokens(Table, "farg") == [Option(1, Some("arg"))];
  }

  /** The rest of the cluster is the value even when it looks like another flag. */
  lemma GluedValueNotReread()
    ensures Parsed(["-f-h"]) == [Option(1, Some("-h"))]
  {
    var a := "-f-h";
    OneArg(a);
    ArgTokensByChars(Table, a, true);
    assert a[1..] == "f-h";
    assert "f-h"[1..] == "-h";
    assert ShortTokens(Table, "f-h") == [Option(1, Some("-h"))];
  }

  lemma LongEqualsValue()
    ensures Parsed(["--flag=value"]) == [Option(1, Some("value"))]
  {
    assert "--flag=value" == "--flag=" + "value";
    LongFlagWith("value");
    OneArg("--flag=value");
  }

  /** An empty `=value` is dropped, not reported. */
  lemma LongEmptyValue()
    ensures Parsed(["--flag="]) == [Option(1, None)]
  {
    assert "--flag=" == "--flag=" + "";
    LongFlagWith("");
    OneArg("--flag=");
  }

  /** `--flag=value`: the value when it is not empty. */
  lemma LongFlagWith(value: string)
    ensures ArgTokens(Table, "--flag=" + value, true) == [Option(1, if value != [] then Some(value) else None)]
  {
    var a := "--flag=" + value;
    assert a[0] == '-' && a[1] == '-' && |a| > 2;
    ArgTokensByChars(Table, a, true);
    assert a[2..] == "flag" + "=" + value;
    FlagIsFirstLong();
    LongWithValue(Table, "flag", value, 1);
  }

  lemma FlagIsFirstLong()
    ensures '=' !in "flag" && FirstLong(Table, "flag", 1)
  {
  }

  lemma OneArg(arg: string)
    ensures Tokenized(Table, [arg], true) == ArgTokens(Table, arg, true)
  {
    assert [arg][1..] == [];
    assert Tokenized(Table, [arg], true) == ArgTokens(Table, arg, true) + [];
  }

  lemma TwoArgs(a: string, b: string)
    ensures Tokenized(Table, [a, b], true) == ArgTokens(Table, a, true) + ArgTokens(Table, b, AcceptAfter(a, true))
  {
    var args := [a, b];
    var accept := AcceptAfter(a, true);
    assert args[0] == a && args[1..] == [b] && [b][1..] == [];
    assert Tokenized(Table, [b], accept) == ArgTokens(Table, b, accept) + [];
  }

  lemma NormalizedPair(x: Token, y: Token)
    ensures Normalized(Table, [x, y]) == if Fuses(Table, x, y) then [Option(x.flag, Some(y.text))] else [x, y]
  {
    var s := [x, y];
    assert s[1..] == [y] && s[2..] == [];
  }

  /** The long `--flag` token of the table. */
  lemma LongFlag()
    ensures ArgTokens(Table, "--flag", true) == [Option(1, None)]
  {
    var a := "--flag";
    ArgTokensByChars(Table, a, true);
    assert a[2..] == "flag";
    LongBare(Table, "flag", 1);
  }

  /** The short `-h` token of the table. */
  lemma ShortH()
    ensures ArgTokens(Table, "-h", true) == [Option(0, None)]
  {
    var a := "-h";
    ArgTokensByChars(Table, a, true);
    assert a[1..] == "h";
    assert ShortTokens(Table, "h") == [Option(0, None)];
  }

  /** A bare value-taking option takes the following literal argument. */
  lemma FollowingValue()
    ensures Parsed(["--flag", "value"]) == [Option(1, Some("value"))]
  {
    var b := "value";
    LongFlag();
    ArgTokensByChars(Table, b, true);
    assert b[0] == 'v';
    TwoArgs("--flag", b);
    NormalizedPair(Option(1, None), Argument(b));
  }

  /** An option never becomes a value. */
  lemma FollowingOptionNotFused()
    ensures Parsed(["--flag", "-h"]) == [Option(1, None), Option(0, None)]
  {
    LongFlag();
    ShortH();
    TwoArgs("--flag", "-h");
    NormalizedPair(Option(1, None), Option(0, None));
  }

  /** Unknown characters of a cluster become their own tokens and the scan goes on. */
  lemma ClusterWithUnknown()
    ensures Parsed(["-hnvd"]) == [Option(0, None), UnknownOpt("n"), Option(2, None), Option(3, None)]
  {
    var a := "-hnvd";
    OneArg(a);
    ArgTokensByChars(Table, a, true);
    assert a[1..] == "hnvd";
    var ts := ShortTokens(Table, "hnvd");
    assert ts == [Option(0, None), UnknownOpt("n"), Option(2, None), Option(3, None)];
    TableTokensAreNormal(ts);
  }

  /** Tokens without a bare `-f` are left as they are. */
  lemma TableTokensAreNormal(ts: seq<Token>)
    requires forall i | 0 <= i < |ts| :: ts[i] != Option(1, None)
    requires Indexed(Table, ts)
    ensures Normalized(Table, ts) == ts
  {
    NoFuseWithoutBareFlag(ts);
    NormalizedUnchanged(Table, ts);
  }

  lemma {:induction false} NoFuseWithoutBareFlag(ts: seq<Token>)
    requires forall i | 0 <= i < |ts| :: ts[i] != Option(1, None)
    requires Indexed(Table, ts)
    ensures FuseCount(Table, ts) == 0
  {
    if |ts| >= 2 {
      assert ts[0] != Option(1, None);
      NoFuseWithoutBareFlag(ts[1..]);
    }
  }

  /** A lone dash is an argument; "--" ends the options. */
  lemma DashAndEndOfOptions()
    ensures Parsed(["-", "-h"]) == [Argument("-"), Option(0, None)]
    ensures Parsed(["--", "-h"]) == [Argument("-h")]
  {
    ShortH();
    TwoArgs("-", "-h");
    NormalizedPair(Argument("-"), Option(0, None));
    TwoArgs("--", "-h");
  }
}
