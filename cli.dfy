/**
  The command-line tokenizer of milcheck (src/cli.rs): a table of declared
  flags, a single left-to-right pass turning the raw arguments into tokens,
  a pass fusing a value-taking option with the argument right after it, and
  the `Parser` object that owns the table and the arguments.
*/
module Cli {
  import opened Wrappers
  import opened Strings
  import opened Seqs

  /** The package name: the binary name when the argument vector is empty. */
  const PackageName := "milcheck"

  /** A declared flag: identifier, short character, long name, whether it takes a value. */
  datatype Flag = Flag(id: string, short: char, long: string, takesValue: bool)

  /** A token; an option refers to its flag by its index in the flag table. */
  datatype Token =
    | Argument(text: string)
    | Option(flag: nat, value: Option<string>)
    | UnknownOpt(text: string)

  /** Every option token refers to an entry of the table. */
  predicate Indexed(flags: seq<Flag>, ts: seq<Token>) {
    forall i | 0 <= i < |ts| :: ts[i].Option? ==> ts[i].flag < |flags|
  }

  /**
    Every value-taking flag has a one-byte (ASCII) short character. The
    tokenizer slices the cluster one byte after a value-taking flag, which
    falls inside the character when it is wider than a byte.
  */
  predicate ValueShortsAscii(flags: seq<Flag>) {
    forall k | 0 <= k < |flags| :: flags[k].takesValue ==> flags[k].short as int < 0x80
  }

  // Flag lookups: the first match in registration order.

  /** Whether a flag has short character `c`. */
  function HasShort(c: char): Flag -> bool {
    (f: Flag) => f.short == c
  }

  /** Whether a flag has long name `name`. */
  function HasLong(name: string): Flag -> bool {
    (f: Flag) => f.long == name
  }

  predicate FirstShort(flags: seq<Flag>, c: char, k: nat) {
    IsFirst(flags, HasShort(c), k)
  }

  predicate FirstLong(flags: seq<Flag>, name: string, k: nat) {
    IsFirst(flags, HasLong(name), k)
  }

  /** The first flag whose short character is `c`. */
  function FindShort(flags: seq<Flag>, c: char): (r: Option<nat>)
    ensures r.Some? ==> FirstShort(flags, c, r.value)
    ensures r.None? <==> forall j | 0 <= j < |flags| :: flags[j].short != c
  {
    FirstIndex(flags, HasShort(c))
  }

  /** The first flag whose long name is `name`. */
  function FindLong(flags: seq<Flag>, name: string): (r: Option<nat>)
    ensures r.Some? ==> FirstLong(flags, name, r.value)
    ensures r.None? <==> forall j | 0 <= j < |flags| :: flags[j].long != name
  {
    FirstIndex(flags, HasLong(name))
  }

  /** Registering one more flag never changes what the earlier flags resolve to. */
  lemma RegisterKeepsLookups(flags: seq<Flag>, f: Flag, c: char, name: string)
    ensures FindShort(flags + [f], c) ==
      if FindShort(flags, c).Some? then FindShort(flags, c)
      else if f.short == c then Some(|flags|) else None
    ensures FindLong(flags + [f], name) ==
      if FindLong(flags, name).Some? then FindLong(flags, name)
      else if f.long == name then Some(|flags|) else None
  {
    FirstIndexAppend(flags, f, HasShort(c));
    FirstIndexAppend(flags, f, HasLong(name));
  }

  // Short-flag clusters (`-abc`).

  /** The token one cluster character gives when it does not take the rest of the cluster. */
  function Single(flags: seq<Flag>, c: char): Token {
    match FindShort(flags, c)
    case Some(k) => Option(k, None)
    case None => UnknownOpt([c])
  }

  function Singles(flags: seq<Flag>, s: string): (r: seq<Token>)
    ensures |r| == |s| && forall i | 0 <= i < |s| :: r[i] == Single(flags, s[i])
  {
    if s == [] then [] else [Single(flags, s[0])] + Singles(flags, s[1..])
  }

  /** The character at `i` is a value-taking flag with characters after it. */
  predicate GluedAt(flags: seq<Flag>, s: string, i: nat) {
    i + 1 < |s| && FindShort(flags, s[i]).Some? && flags[FindShort(flags, s[i]).value].takesValue
  }

  /** The tokens of a cluster (the argument without its leading `-`). */
  function ShortTokens(flags: seq<Flag>, s: string): (r: seq<Token>)
    ensures |r| <= |s|
    ensures s != [] ==> |r| >= 1
  {
    if s == [] then []
    else match FindShort(flags, s[0])
      case Some(k) =>
        if flags[k].takesValue && |s| > 1 then [Option(k, Some(s[1..]))]
        else [Option(k, None)] + ShortTokens(flags, s[1..])
      case None => [UnknownOpt([s[0]])] + ShortTokens(flags, s[1..])
  }

  /** Without a glued value, a cluster gives exactly one token per character. */
  lemma {:induction false} ShortTokensUnglued(flags: seq<Flag>, s: string)
    requires forall i | 0 <= i < |s| :: !GluedAt(flags, s, i)
    ensures ShortTokens(flags, s) == Singles(flags, s)
  {
    if s != [] {
      assert !GluedAt(flags, s, 0);
      forall i | 0 <= i < |s[1..]| ensures !GluedAt(flags, s[1..], i) {
        assert !GluedAt(flags, s, i + 1);
      }
      ShortTokensUnglued(flags, s[1..]);
    }
  }

  /**
    The first value-taking flag with characters after it takes those characters
    as its value and ends the cluster; each character before it gives one token.
  */
  lemma {:induction false} ShortTokensGlued(flags: seq<Flag>, s: string, g: nat)
    requires GluedAt(flags, s, g)
    requires forall i | 0 <= i < g :: !GluedAt(flags, s, i)
    ensures ShortTokens(flags, s) ==
      Singles(flags, s[..g]) + [Option(FindShort(flags, s[g]).value, Some(s[g + 1..]))]
    ensures |ShortTokens(flags, s)| == g + 1 < |s|
  {
    if g > 0 {
      assert !GluedAt(flags, s, 0);
      assert GluedAt(flags, s[1..], g - 1);
      forall i | 0 <= i < g - 1 ensures !GluedAt(flags, s[1..], i) {
        assert !GluedAt(flags, s, i + 1);
      }
      ShortTokensGlued(flags, s[1..], g - 1);
      assert s[1..][..g - 1] == s[..g][1..];
      assert s[1..][g - 1 + 1..] == s[g + 1..];
    }
  }

  // Byte offsets in a cluster. The scan slices a glued value at byte `i + 1`,
  // `i` being the byte offset of the flag character.

  /** The byte offset of character `k` of `s`. */
  function ByteOffset(s: string, k: nat): nat
    requires k <= |s|
  {
    Utf8Len(s[..k])
  }

  /** A byte index `&s[b..]` accepts: the start of a character, or the end. */
  predicate CharBoundary(s: string, b: nat) {
    exists k: nat | k <= |s| :: ByteOffset(s, k) == b
  }

  /** As written: when `i + 1 < len`, the value is sliced at byte `i + 1`, which must be a boundary. */
  predicate GluedSliceOk(s: string, g: nat)
    requires g < |s|
  {
    ByteOffset(s, g) + 1 < Utf8Len(s) ==> CharBoundary(s, ByteOffset(s, g) + 1)
  }

  lemma ByteOffsetNext(s: string, g: nat)
    requires g < |s|
    ensures ByteOffset(s, g + 1) == ByteOffset(s, g) + Utf8Width(s[g])
    ensures Utf8Len(s) == ByteOffset(s, g + 1) + Utf8Len(s[g + 1..])
  {
    var head, c, tail := s[..g], s[g], s[g + 1..];
    assert ByteOffset(s, g + 1) == ByteOffset(s, g) + Utf8Width(c) by {
      assert s[..g + 1] == head + [c];
      Utf8LenAppend(head, [c]);
      assert [c][1..] == [];
    }
    assert Utf8Len(s) == ByteOffset(s, g + 1) + Utf8Len(tail) by {
      assert s == s[..g + 1] + tail;
      Utf8LenAppend(s[..g + 1], tail);
    }
  }

  /**
    A value-taking flag `é` (two bytes) glued to a value: `-éa` makes the
    scan slice at byte 1, inside the `é`, which panics.
  */
  lemma WideGluedFlagPanics()
    ensures !GluedSliceOk("\U{e9}a", 0)
  {
    var s := "\U{e9}a";
    assert Utf8Width(s[0]) == 2 && Utf8Width(s[1]) == 1;
    assert s[..0] == [] && s[..1] == [s[0]] && s[..2] == s;
    assert Utf8Len(s[1..]) == 1 by {
      assert s[1..][1..] == [];
    }
    assert ByteOffset(s, 0) == 0 && ByteOffset(s, 1) == 2 && ByteOffset(s, 2) == 3;
    forall k: nat | k <= |s| ensures ByteOffset(s, k) != 1 {
      assert k == 0 || k == 1 || k == 2;
    }
  }

  /**
    Corrected: slicing after the whole flag character (`i + c.len_utf8()`)
    always lands on a boundary, and that slice is non-empty exactly when
    characters follow the flag, as `ShortTokens` assumes.
  */
  lemma GluedSliceAtNextChar(s: string, g: nat)
    requires g < |s|
    ensures CharBoundary(s, ByteOffset(s, g) + Utf8Width(s[g]))
    ensures ByteOffset(s, g) + Utf8Width(s[g]) < Utf8Len(s) <==> g + 1 < |s|
  {
    ByteOffsetNext(s, g);
    assert ByteOffset(s, g + 1) == ByteOffset(s, g) + Utf8Width(s[g]);
  }

  /** With a one-byte flag character the slice as written is the corrected one. */
  lemma AsciiGluedSliceOk(s: string, g: nat)
    requires g < |s| && s[g] as int < 0x80
    ensures GluedSliceOk(s, g)
  {
    GluedSliceAtNextChar(s, g);
  }

  // Long flags (`--name` and `--name=value`).

  /** The one token that a long flag gives; `body` is the argument without its leading `--`. */
  function LongToken(flags: seq<Flag>, body: string): (r: Token)
    ensures !r.Argument?
    ensures r.UnknownOpt? ==> r.text == body
    ensures r.Option? ==>
      r.flag < |flags| && (flags[r.flag].long == body || StartsWith(body, flags[r.flag].long + "="))
    ensures r.Option? && r.value.Some? ==> flags[r.flag].takesValue && r.value.value != []
  {
    match IndexOfChar(body, '=')
    case None =>
      (match FindLong(flags, body)
       case Some(k) => Option(k, None)
       case None => UnknownOpt(body))
    case Some(i) =>
      var name, value := body[..i], body[i + 1..];
      assert body[..i + 1] == name + "=";
      match FindLong(flags, name)
      case Some(k) => if flags[k].takesValue && value != [] then Option(k, Some(value)) else Option(k, None)
      case None => UnknownOpt(body)
  }

  /**
    `--name` gives the first flag named `name` without a value, even when that
    flag takes one, or `UnknownOpt(name)` when no flag has that name.
  */
  lemma LongBare(flags: seq<Flag>, name: string, k: nat)
    requires '=' !in name
    ensures FirstLong(flags, name, k) ==> LongToken(flags, name) == Option(k, None)
    ensures (forall j | 0 <= j < |flags| :: flags[j].long != name) ==> LongToken(flags, name) == UnknownOpt(name)
  {
    if FirstLong(flags, name, k) {
      var r := FindLong(flags, name);
      assert flags[k].long == name;
      IsFirstUnique(flags, HasLong(name), k, r.value);
    }
  }

  /**
    `--name=value` is split at its first `=`: the first flag named `name`
    gets `value` when it takes a value and `value` is not empty, and no value
    otherwise; an unknown name gives `UnknownOpt` of the whole `name=value`.
  */
  lemma LongWithValue(flags: seq<Flag>, name: string, value: string, k: nat)
    requires '=' !in name
    ensures var body := name + "=" + value;
      FirstLong(flags, name, k) ==>
        LongToken(flags, body) == Option(k, if flags[k].takesValue && value != [] then Some(value) else None)
    ensures var body := name + "=" + value;
      (forall j | 0 <= j < |flags| :: flags[j].long != name) ==> LongToken(flags, body) == UnknownOpt(body)
  {
    var body := name + "=" + value;
    var e := IndexOfChar(body, '=');
    assert body[|name|] == '=';
    assert body[..|name|] == name && body[|name| + 1..] == value;
    assert e == Some(|name|);
    if FirstLong(flags, name, k) {
      var r := FindLong(flags, name);
      assert flags[k].long == name;
      IsFirstUnique(flags, HasLong(name), k, r.value);
    }
  }

  // The tokenizer.

  /** The tokens of one argument, given whether options are still accepted. */
  function ArgTokens(flags: seq<Flag>, arg: string, accept: bool): (r: seq<Token>)
    ensures r == [] <==> arg == "--"
  {
    if arg == "-" then [Argument("-")]
    else if arg == "--" then []
    else if |arg| > 2 && StartsWith(arg, "--") && accept then [LongToken(flags, arg[2..])]
    else if |arg| > 1 && StartsWith(arg, "-") && accept then ShortTokens(flags, arg[1..])
    else [Argument(arg)]
  }

  /** The branch `tokenize` takes for one argument, read off its first two characters. */
  lemma ArgTokensByChars(flags: seq<Flag>, arg: string, accept: bool)
    ensures (arg == [] || arg[0] != '-') ==> ArgTokens(flags, arg, accept) == [Argument(arg)]
    ensures accept && |arg| > 2 && arg[0] == '-' && arg[1] == '-' ==>
      ArgTokens(flags, arg, accept) == [LongToken(flags, arg[2..])]
    ensures accept && |arg| > 1 && arg[0] == '-' && arg[1] != '-' ==>
      ArgTokens(flags, arg, accept) == ShortTokens(flags, arg[1..])
  {
    if arg != [] && arg[0] != '-' {
      assert arg != "-" && arg != "--" && !StartsWith(arg, "-");
    }
    if |arg| > 1 {
      assert StartsWith(arg, "-") == (arg[0] == '-') by {
        assert arg[..1] == [arg[0]];
      }
      assert StartsWith(arg, "--") == (arg[0] == '-' && arg[1] == '-') by {
        assert arg[..2] == [arg[0], arg[1]];
      }
      if arg[1] != '-' {
        assert arg != "--";
      }
    }
  }

  /** Options are accepted until the first `--`. */
  function AcceptAfter(arg: string, accept: bool): bool {
    if arg == "--" then false else accept
  }

  /** The tokens of the arguments, left to right. */
  function Tokenized(flags: seq<Flag>, args: seq<string>, accept: bool): (r: seq<Token>)
    ensures r == [] <==> forall k | 0 <= k < |args| :: args[k] == "--"
  {
    if args == [] then []
    else ArgTokens(flags, args[0], accept) + Tokenized(flags, args[1..], AcceptAfter(args[0], accept))
  }

  /** The tokens of arguments after `--`: every argument other than `--` is taken literally. */
  function Literals(args: seq<string>): (r: seq<Token>)
    ensures |r| <= |args|
  {
    if args == [] then []
    else (if args[0] == "--" then [] else [Argument(args[0])]) + Literals(args[1..])
  }

  lemma {:induction false} TokenizedAppend(flags: seq<Flag>, a: seq<string>, b: seq<string>, accept: bool)
    ensures Tokenized(flags, a + b, accept) ==
      Tokenized(flags, a, accept) + Tokenized(flags, b, accept && "--" !in a)
  {
    if a == [] {
      assert a + b == b;
    } else {
      var accept' := AcceptAfter(a[0], accept);
      var ab := a + b;
      assert ab[0] == a[0] && ab[1..] == a[1..] + b;
      TokenizedAppend(flags, a[1..], b, accept');
      assert ("--" in a) == (a[0] == "--" || "--" in a[1..]) by { assert a == [a[0]] + a[1..]; }
      var x, y, z := ArgTokens(flags, a[0], accept), Tokenized(flags, a[1..], accept'), Tokenized(flags, b, accept && "--" !in a);
      assert Tokenized(flags, ab, accept) == x + (y + z);
      assert Tokenized(flags, a, accept) == x + y;
      Assoc(x, y, z);
    }
  }

  /** Every option the tokenizer emits refers to an entry of the table. */
  lemma {:induction false} TokenizedIndexed(flags: seq<Flag>, args: seq<string>, accept: bool)
    ensures Indexed(flags, Tokenized(flags, args, accept))
  {
    if args != [] {
      TokenizedIndexed(flags, args[1..], AcceptAfter(args[0], accept));
      var arg := args[0];
      if |arg| > 1 && StartsWith(arg, "-") && arg != "-" && arg != "--" {
        ShortTokensIndexed(flags, arg[1..]);
      }
    }
  }

  lemma {:induction false} ShortTokensIndexed(flags: seq<Flag>, s: string)
    ensures Indexed(flags, ShortTokens(flags, s))
  {
    if s != [] {
      ShortTokensIndexed(flags, s[1..]);
    }
  }

  lemma Assoc<T>(x: seq<T>, y: seq<T>, z: seq<T>)
    ensures x + (y + z) == (x + y) + z
  {
  }

  /** Once `--` has been seen, every argument is literal, `-` included, and a repeated `--` is swallowed. */
  lemma {:induction false} TokenizedAfterEndOfOptions(flags: seq<Flag>, args: seq<string>)
    ensures Tokenized(flags, args, false) == Literals(args)
  {
    if args != [] {
      TokenizedAfterEndOfOptions(flags, args[1..]);
    }
  }

  /** Arguments before the first `--` are tokenized as usual, every one after it literally. */
  lemma EndOfOptions(flags: seq<Flag>, before: seq<string>, after: seq<string>)
    requires "--" !in before
    ensures Tokenized(flags, before + ["--"] + after, true) ==
      Tokenized(flags, before, true) + Literals(after)
  {
    var rest := ["--"] + after;
    assert before + ["--"] + after == before + rest;
    TokenizedAppend(flags, before, rest, true);
    assert Tokenized(flags, rest, true) == Tokenized(flags, after, false) by {
      assert rest[0] == "--" && rest[1..] == after;
      assert Tokenized(flags, rest, true) == [] + Tokenized(flags, after, false);
    }
    TokenizedAfterEndOfOptions(flags, after);
  }

  /** Arguments that do not start with `-` give one `Argument` each, verbatim and in order. */
  lemma {:induction false} PlainArguments(flags: seq<Flag>, args: seq<string>, accept: bool)
    requires forall i | 0 <= i < |args| :: !StartsWith(args[i], "-")
    ensures |Tokenized(flags, args, accept)| == |args|
    ensures forall i | 0 <= i < |args| :: Tokenized(flags, args, accept)[i] == Argument(args[i])
  {
    if args != [] {
      assert !StartsWith(args[0], "-");
      PlainArguments(flags, args[1..], AcceptAfter(args[0], accept));
      var r := Tokenized(flags, args, accept);
      assert r == [Argument(args[0])] + Tokenized(flags, args[1..], AcceptAfter(args[0], accept));
      forall i | 0 <= i < |args| ensures r[i] == Argument(args[i]) {
        if i > 0 { assert r[i] == Tokenized(flags, args[1..], AcceptAfter(args[0], accept))[i - 1]; }
      }
    }
  }

  /** The tokens of a cluster `arg` (starting with `-`) appended to `tokens` (`parse_token`). */
  method ParseShort(flags: seq<Flag>, arg: string, tokens: seq<Token>) returns (out: seq<Token>)
    requires |arg| > 1 && arg[0] == '-'
    requires ValueShortsAscii(flags)
    ensures out == tokens + ShortTokens(flags, arg[1..])
  {
    var cluster := arg[1..];
    out := tokens;
    var i := 0;
    while i < |cluster|
      invariant 0 <= i <= |cluster|
      decreases |cluster| - i
      invariant out + ShortTokens(flags, cluster[i..]) == tokens + ShortTokens(flags, cluster)
    {
      var c := cluster[i];
      assert cluster[i..][1..] == cluster[i + 1..];
      match FindShort(flags, c) {
        case Some(k) =>
          if flags[k].takesValue {
            if i + 1 < |cluster| {
              out := out + [Option(k, Some(cluster[i + 1..]))];
              break;
            } else {
              out := out + [Option(k, None)];
            }
          } else {
            out := out + [Option(k, None)];
          }
        case None =>
          out := out + [UnknownOpt([c])];
      }
      i := i + 1;
    }
    assert cluster[|cluster|..] == [];
  }

  /** One pass over the arguments (`tokenize`); options are recognised until the first `--`. */
  method Tokenize(flags: seq<Flag>, args: seq<string>) returns (tokens: seq<Token>)
    requires ValueShortsAscii(flags)
    ensures tokens == Tokenized(flags, args, true)
  {
    tokens := [];
    var acceptOpt := true;
    var rest := args;
    while rest != []
      invariant tokens + Tokenized(flags, rest, acceptOpt) == Tokenized(flags, args, true)
      decreases |rest|
    {
      var arg := rest[0];
      ghost var produced := ArgTokens(flags, arg, acceptOpt);
      assert Tokenized(flags, rest, acceptOpt) == produced + Tokenized(flags, rest[1..], AcceptAfter(arg, acceptOpt));
      ghost var before, accept := tokens, acceptOpt;
      rest := rest[1..];
      if arg == "-" {
        tokens := tokens + [Argument("-")];
      } else if arg == "--" {
        acceptOpt := false;
      } else if |arg| > 2 && StartsWith(arg, "--") && acceptOpt {
        tokens := tokens + [LongToken(flags, arg[2..])];
      } else if |arg| > 1 && StartsWith(arg, "-") && acceptOpt {
        tokens := ParseShort(flags, arg, tokens);
      } else {
        tokens := tokens + [Argument(arg)];
      }
      assert tokens == before + produced;
      assert acceptOpt == AcceptAfter(arg, accept);
      Assoc(before, produced, Tokenized(flags, rest, acceptOpt));
    }
  }

  // The normalizer.

  /** `a` is a value-taking option left without a value and `b` a literal argument. */
  predicate Fuses(flags: seq<Flag>, a: Token, b: Token) {
    && a.Option? && a.value.None? && a.flag < |flags| && flags[a.flag].takesValue
    && b.Argument?
  }

  /**
    The token list with each value-taking option that has no value fused with
    the `Argument` right after it; every other token is kept, in order.
  */
  function Normalized(flags: seq<Flag>, s: seq<Token>): (r: seq<Token>)
    ensures |r| <= |s|
    ensures |s| > 0 ==> |r| > 0 && (r[0] == s[0] || (r[0].Option? && r[0].value.Some?))
  {
    if |s| < 2 then s
    else if Fuses(flags, s[0], s[1]) then [Option(s[0].flag, Some(s[1].text))] + Normalized(flags, s[2..])
    else [s[0]] + Normalized(flags, s[1..])
  }

  /** The number of adjacent pairs that fuse. */
  function FuseCount(flags: seq<Flag>, s: seq<Token>): nat {
    if |s| < 2 then 0 else (if Fuses(flags, s[0], s[1]) then 1 else 0) + FuseCount(flags, s[1..])
  }

  /** Fusing pairs never overlap, so every one of them is merged: one token fewer per pair. */
  lemma {:induction false} NormalizedLength(flags: seq<Flag>, s: seq<Token>)
    ensures |Normalized(flags, s)| == |s| - FuseCount(flags, s)
  {
    if |s| >= 2 {
      if Fuses(flags, s[0], s[1]) {
        NormalizedLength(flags, s[2..]);
        assert s[1..][1..] == s[2..];
      } else {
        NormalizedLength(flags, s[1..]);
      }
    }
  }

  /** Nothing is left to fuse after normalizing. */
  lemma {:induction false} NormalizedSettled(flags: seq<Flag>, s: seq<Token>)
    ensures FuseCount(flags, Normalized(flags, s)) == 0
  {
    if |s| >= 2 {
      var r := Normalized(flags, s);
      if Fuses(flags, s[0], s[1]) {
        NormalizedSettled(flags, s[2..]);
        assert r[1..] == Normalized(flags, s[2..]);
      } else {
        NormalizedSettled(flags, s[1..]);
        assert r[1..] == Normalized(flags, s[1..]);
      }
    }
  }

  /** A list with nothing to fuse is left unchanged. */
  lemma {:induction false} NormalizedUnchanged(flags: seq<Flag>, s: seq<Token>)
    requires FuseCount(flags, s) == 0
    ensures Normalized(flags, s) == s
  {
    if |s| >= 2 {
      NormalizedUnchanged(flags, s[1..]);
    }
  }

  lemma {:induction false} NormalizedIndexed(flags: seq<Flag>, s: seq<Token>)
    requires Indexed(flags, s)
    ensures Indexed(flags, Normalized(flags, s))
  {
    if |s| >= 2 {
      if Fuses(flags, s[0], s[1]) {
        NormalizedIndexed(flags, s[2..]);
      } else {
        NormalizedIndexed(flags, s[1..]);
      }
    }
  }

  lemma NormalizedIdempotent(flags: seq<Flag>, s: seq<Token>)
    ensures Normalized(flags, Normalized(flags, s)) == Normalized(flags, s)
  {
    NormalizedSettled(flags, s);
    NormalizedUnchanged(flags, Normalized(flags, s));
  }

  /** One merge recorded by the first pass of `normalize`: the index it applies at and the fused option. */
  datatype Merge = Merge(at: nat, flag: nat, value: string)

  function Fused(m: Merge): Token {
    Option(m.flag, Some(m.value))
  }

  /**
    The merges the first pass records for `s`, where `off` is the index the
    first token of `s` has once the earlier merges are done (`i - inc`).
  */
  function PlanFrom(flags: seq<Flag>, s: seq<Token>, off: nat): seq<Merge> {
    if |s| < 2 then []
    else if Fuses(flags, s[0], s[1]) then [Merge(off, s[0].flag, s[1].text)] + PlanFrom(flags, s[2..], off + 1)
    else PlanFrom(flags, s[1..], off + 1)
  }

  /** The two tokens at the merge's index replaced by the fused option (`remove`, `remove`, `insert`). */
  function Splice(s: seq<Token>, m: Merge): seq<Token>
    requires m.at + 2 <= |s|
  {
    s[..m.at] + [Fused(m)] + s[m.at + 2..]
  }

  /** Each merge in turn finds two tokens at its index. */
  predicate Feasible(s: seq<Token>, plan: seq<Merge>)
    decreases |plan|
  {
    plan == [] || (plan[0].at + 2 <= |s| && Feasible(Splice(s, plan[0]), plan[1..]))
  }

  /** The list after each merge of the plan in turn. */
  function Apply(s: seq<Token>, plan: seq<Merge>): seq<Token>
    requires Feasible(s, plan)
    decreases |plan|
  {
    if plan == [] then s else Apply(Splice(s, plan[0]), plan[1..])
  }

  /** Carrying out the recorded merges in place yields the normalized list, behind an untouched prefix `d`. */
  lemma {:induction false} PlanApplies(flags: seq<Flag>, d: seq<Token>, s: seq<Token>)
    ensures Feasible(d + s, PlanFrom(flags, s, |d|))
    ensures Apply(d + s, PlanFrom(flags, s, |d|)) == d + Normalized(flags, s)
    decreases |s|
  {
    if |s| >= 2 {
      if Fuses(flags, s[0], s[1]) {
        PlanApplies(flags, d + [Fused(Merge(|d|, s[0].flag, s[1].text))], s[2..]);
        PlanAppliesFused(flags, d, s);
      } else {
        PlanApplies(flags, d + [s[0]], s[1..]);
        assert (d + [s[0]]) + s[1..] == d + s;
      }
    }
  }

  /** The inductive step of `PlanApplies` at a fusing pair. */
  lemma PlanAppliesFused(flags: seq<Flag>, d: seq<Token>, s: seq<Token>)
    requires |s| >= 2 && Fuses(flags, s[0], s[1])
    requires var d' := d + [Fused(Merge(|d|, s[0].flag, s[1].text))];
      && Feasible(d' + s[2..], PlanFrom(flags, s[2..], |d'|))
      && Apply(d' + s[2..], PlanFrom(flags, s[2..], |d'|)) == d' + Normalized(flags, s[2..])
    ensures Feasible(d + s, PlanFrom(flags, s, |d|))
    ensures Apply(d + s, PlanFrom(flags, s, |d|)) == d + Normalized(flags, s)
  {
    var m := Merge(|d|, s[0].flag, s[1].text);
    var d' := d + [Fused(m)];
    var rest := PlanFrom(flags, s[2..], |d'|);
    var plan := PlanFrom(flags, s, |d|);
    assert plan == [m] + rest;
    assert Splice(d + s, m) == d' + s[2..];
    assert plan[0] == m && plan[1..] == rest;
    assert Normalized(flags, s) == [Fused(m)] + Normalized(flags, s[2..]);
    Assoc(d, [Fused(m)], Normalized(flags, s[2..]));
  }

  /**
    The first pass of `normalize`: for each fusing pair, the index the pair
    will have once the earlier merges are done.
  */
  method MergePlan(flags: seq<Flag>, tokens: seq<Token>) returns (toMerge: seq<Merge>)
    requires Indexed(flags, tokens)
    ensures toMerge == PlanFrom(flags, tokens, 0)
  {
    toMerge := [];
    var inc := 0;
    var i := 0;
    while i < |tokens|
      invariant inc <= i <= |tokens|
      invariant inc == |toMerge|
      invariant toMerge + PlanFrom(flags, tokens[i..], i - inc) == PlanFrom(flags, tokens, 0)
    {
      var t := tokens[i];
      PlanFromStep(flags, tokens[i..], i - inc);
      assert tokens[i..][1..] == tokens[i + 1..];
      if t.Option? && flags[t.flag].takesValue && t.value.None? {
        if i + 1 < |tokens| && tokens[i + 1].Argument? {
          var m := Merge(i - inc, t.flag, tokens[i + 1].text);
          Assoc(toMerge, [m], PlanFrom(flags, tokens[i + 1..], i - inc));
          toMerge := toMerge + [m];
          inc := inc + 1;
        }
      }
      i := i + 1;
    }
    assert tokens[|tokens|..] == [];
    assert toMerge + [] == toMerge;
  }

  /**
    `normalize`: the first pass plans the merges; the second removes each
    pair at its planned index and inserts the fused option there.
  */
  method Normalize(flags: seq<Flag>, tokens: seq<Token>) returns (out: seq<Token>)
    requires Indexed(flags, tokens)
    ensures out == Normalized(flags, tokens)
  {
    var toMerge := MergePlan(flags, tokens);
    PlanWhole(flags, tokens);
    assert toMerge[0..] == toMerge;
    out := tokens;
    var j := 0;
    while j < |toMerge|
      invariant j <= |toMerge|
      invariant Feasible(out, toMerge[j..])
      invariant Apply(out, toMerge[j..]) == Normalized(flags, tokens)
    {
      var m := toMerge[j];
      ApplyStep(out, toMerge[j..]);
      assert toMerge[j..][0] == m && toMerge[j..][1..] == toMerge[j + 1..];
      RemoveTwiceInsert(out, m);
      var at := m.at;
      out := out[..at] + out[at + 1..];
      out := out[..at] + out[at + 1..];
      out := out[..at] + [Option(m.flag, Some(m.value))] + out[at..];
      j := j + 1;
    }
  }

  lemma PlanWhole(flags: seq<Flag>, tokens: seq<Token>)
    ensures Feasible(tokens, PlanFrom(flags, tokens, 0))
    ensures Apply(tokens, PlanFrom(flags, tokens, 0)) == Normalized(flags, tokens)
  {
    PlanApplies(flags, [], tokens);
    assert [] + tokens == tokens;
    assert [] + Normalized(flags, tokens) == Normalized(flags, tokens);
  }

  /** Carrying out the first merge of a feasible plan leaves the rest of the plan feasible, with the same result. */
  lemma ApplyStep(s: seq<Token>, plan: seq<Merge>)
    requires plan != [] && Feasible(s, plan)
    ensures plan[0].at + 2 <= |s|
    ensures Feasible(Splice(s, plan[0]), plan[1..])
    ensures Apply(Splice(s, plan[0]), plan[1..]) == Apply(s, plan)
  {
  }

  /** `remove(i)` twice, then `insert(i, …)`, is the splice of the merge at `i`. */
  lemma RemoveTwiceInsert(s: seq<Token>, m: Merge)
    requires m.at + 2 <= |s|
    ensures var once := s[..m.at] + s[m.at + 1..];
      var twice := once[..m.at] + once[m.at + 1..];
      twice[..m.at] + [Fused(m)] + twice[m.at..] == Splice(s, m)
  {
    var once := s[..m.at] + s[m.at + 1..];
    var twice := once[..m.at] + once[m.at + 1..];
    assert twice[..m.at] == s[..m.at];
    assert twice[m.at..] == s[m.at + 2..];
  }

  /** One step of the first pass: the token at the front either starts a merge or shifts the index by one. */
  lemma PlanFromStep(flags: seq<Flag>, s: seq<Token>, off: nat)
    requires |s| >= 1
    ensures PlanFrom(flags, s, off) ==
      if |s| >= 2 && Fuses(flags, s[0], s[1]) then [Merge(off, s[0].flag, s[1].text)] + PlanFrom(flags, s[1..], off)
      else PlanFrom(flags, s[1..], off + 1)
  {
    if |s| >= 2 && Fuses(flags, s[0], s[1]) {
      assert s[1..][1..] == s[2..];
    }
  }

  // The parser facade.

  /** The text after the last `/` of a path, empty when the path ends in `/`. */
  function BaseName(path: string): (name: string)
    ensures |name| <= |path| && EndsWith(path, name)
  {
    SplitLastPiece(path, "/");
    LastPiece(path, "/")
  }

  lemma BaseNameIsLastSegment(path: string)
    ensures '/' !in BaseName(path)
    ensures SuffixAfter(BaseName(path), path, "/")
  {
    SplitLastPiece(path, "/");
    SplitPiecesFree(path, "/");
    var parts := Split(path, "/");
    var p := BaseName(path);
    assert !Contains(parts[|parts| - 1], "/");
    if '/' in p {
      var k :| 0 <= k < |p| && p[k] == '/';
      assert OccursAt(p, "/", k);
    }
  }

  class Parser {
    var args: seq<string>
    var flags: seq<Flag>
    var binary: string

    /** Takes the process arguments; the first one names the binary and is never tokenized. */
    constructor (argv: seq<string>)
      ensures binary == if argv == [] then PackageName else BaseName(argv[0])
      ensures args == if argv == [] then [] else argv[1..]
      ensures flags == []
    {
      var name := PackageName;
      var rest := argv;
      if rest != [] {
        var path := Split(rest[0], "/");
        name := path[|path| - 1];
        rest := rest[1..];
      }
      args := rest;
      flags := [];
      binary := name;
    }

    method BinaryName() returns (name: string)
      ensures name == binary
    {
      name := binary;
    }

    /** Appends a flag to the table (`flag`). */
    method AddFlag(id: string, short: char, long: string, takesValue: bool) returns (self: Parser)
      modifies this
      ensures flags == old(flags) + [Flag(id, short, long, takesValue)]
      ensures args == old(args) && binary == old(binary) && self == this
    {
      flags := flags + [Flag(id, short, long, takesValue)];
      self := this;
    }

    method Help() returns (self: Parser)
      modifies this
      ensures flags == old(flags) + [Flag("help", 'h', "help", false)]
      ensures args == old(args) && binary == old(binary) && self == this
    {
      flags := flags + [Flag("help", 'h', "help", false)];
      self := this;
    }

    method Version() returns (self: Parser)
      modifies this
      ensures flags == old(flags) + [Flag("version", 'v', "version", false)]
      ensures args == old(args) && binary == old(binary) && self == this
    {
      flags := flags + [Flag("version", 'v', "version", false)];
      self := this;
    }

    method License() returns (self: Parser)
      modifies this
      ensures flags == old(flags) + [Flag("license", 'L', "license", false)]
      ensures args == old(args) && binary == old(binary) && self == this
    {
      flags := flags + [Flag("license", 'L', "license", false)];
      self := this;
    }

    /** Tokenizes then normalizes the arguments, consuming them: a second call sees none. */
    method Parse() returns (tokens: seq<Token>)
      requires ValueShortsAscii(flags)
      modifies this
      ensures tokens == Normalized(flags, Tokenized(flags, old(args), true))
      ensures Indexed(flags, tokens)
      ensures args == [] && flags == old(flags) && binary == old(binary)
    {
      var raw := Tokenize(flags, args);
      TokenizedIndexed(flags, args, true);
      NormalizedIndexed(flags, raw);
      args := [];
      tokens := Normalize(flags, raw);
    }
  }
}
