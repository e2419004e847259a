# milcheck, modelled in Dafny

milcheck checks the servers in pacman's mirror list against the Arch Linux
mirror status. It reads `/etc/pacman.d/mirrorlist` and fetches the status
page and the status data. It then classifies each server as `Ok`,
`Out of sync!` or `Not found!` and prints a table. This project models and
proves properties of the parts of milcheck that can be stated exactly:

- **The command-line tokenizer** (`src/cli.rs`), in module `Cli`.
  - The flag table and its first-match lookups.
  - Short-flag clusters with a glued value (`-farg`).
  - Long flags with or without `=value`.
  - The single tokenizing pass with its `--` end-of-options switch.
  - The two-phase `normalize`, which fuses a value-taking option with the argument after it.
  - The `Parser` object: its builders and the `parse` call that consumes the arguments.
  - Imperative code stays imperative. `parse_token`, `tokenize`, both phases of `normalize` and the builders are methods with loops or `modifies`. Each is proved equal to a functional specification, and the specification's properties are proved as lemmas.
- **The token dispatch of `main`** (`src/main.rs`), in module `Dispatch`. `handle_args` returns an `Outcome` instead of printing and exiting: go on, exit 0 after help, version or license, or a usage error with its message.
- **The mirror-list logic** (`src/lib.rs`), in module `Mirrors`.
  - Extracting the servers from the mirror-list lines.
  - The `</table>` structural check of the status page.
  - Classifying a server.
  - `Mirror::get_len`, `delay_to_str`, `find_max_state_len`, `find_max_len` and `MaxLength::new`, which compute the column widths.
  - The part of `run` that chains these together.

Support modules:
- `Seqs` holds the first-match scan of Rust's `Iterator::find`. The flag lookups and the mirror lookup are instances of it.
- `Strings` holds the string operations the Rust code takes from its standard library: `starts_with`, `ends_with`, `find`, `split` and `len` as a UTF-8 byte count.
- `Wrappers` holds `Option` and `Result`.

The modules `CliCases`, `DispatchCases` and `MirrorCases` prove worked examples.

Notes on representation:
- A `Token::Option` refers to its flag by index into the flag table, where Rust holds a `&Flag`.
- Strings are sequences of characters. Rust's `.len()` counts UTF-8 bytes. The widths of the status table are byte counts of arbitrary text, so they are modelled as `Utf8Len`. The other lengths the source compares are modelled as character counts, and these agree with the byte counts for the following reasons:
  - `arg.len() > 2` and `arg.len() > 1` in `tokenize` test an argument that starts with the ASCII `--` or `-`. There the byte count exceeds 2 or 1 exactly when the character count does.
  - `i + 1 < current_arg.len()` in `parse_token` is reached only at a value-taking flag, whose short character `Cli.Tokenize` requires to be one byte. Bytes then follow it exactly when characters do.
  - `line.len() - 14` and `line.len() - 15` cut off an ASCII suffix.
  - The state labels (`Mirrors.LabelBytes`) and the column headers are ASCII literals.
- The `Server = ` prefix and the `$repo/os/$arch` suffixes are ASCII. Their byte and character positions therefore coincide.
- The fields of `Mirror` that are floats in the source (completion, average and deviation of the duration, score) are carried as the text they format to. The delay is modelled exactly as its `(hours, minutes)` pair.
- `Token` has a single `UnknownOpt(text)` variant for unknown short and long flags (src/cli.rs:18-22).
- An unknown `--name=value` reports all of `name=value` (src/cli.rs:65).

## Model

| member | source | states |
|---|---|---|
| Strings.IndexOfChar | src/cli.rs:47 | the first index of the character, before which it does not occur; none exactly when it does not occur |
| Strings.Find | src/lib.rs:475-478 | when `find` reports an index, the text occurs there |
| Strings.FindNone | src/lib.rs:475-478 | `find` reports nothing exactly when the text does not occur |
| Strings.Split | src/lib.rs:471 | `split` always gives at least one piece |
| Strings.JoinSplit | src/lib.rs:471 | joining the pieces of `split` with the separator gives the text back |
| Strings.SplitPiecesFree | src/lib.rs:471 | no piece of `split` contains the separator |
| Strings.SplitFirstPiece | src/lib.rs:471 | the first piece is the whole text when there is one piece, otherwise the text starts with it followed by the separator |
| Strings.SplitLastPiece | src/cli.rs:115-117 | the last piece of `split` is the text after the last separator (the whole text when there is none) |
| Strings.DecimalRoundTrip | src/lib.rs:82 | reading back the decimal text of a number gives the number |
| Strings.DecimalNoLeadingZero | src/lib.rs:82 | a number of two digits or more is printed without a leading `0` |
| Strings.Utf8LenAscii | src/lib.rs:114-121 | the byte length equals the character count exactly when the text is ASCII |
| Strings.Utf8LenAppend | src/cli.rs:26-30 | byte lengths add up over concatenation |
| Seqs.FirstIndex | src/cli.rs:27 | `find` returns the first element that matches, and nothing exactly when none matches |
| Seqs.IsFirstUnique | src/cli.rs:49 | there is only one first match |
| Seqs.FirstIndexAppend | src/cli.rs:131-140 | an element added at the end is found only when no earlier element matches |
| Cli.FindShort | src/cli.rs:27 | the first flag in registration order with that short character; none exactly when no flag has it |
| Cli.FindLong | src/cli.rs:49 | the first flag in registration order with that long name; none exactly when no flag has it |
| Cli.RegisterKeepsLookups | src/cli.rs:131-140 | appending a flag never changes what earlier flags resolve to; only a name nobody had resolves to the new flag |
| Cli.ShortTokens | src/cli.rs:24-43 | a cluster never gives more tokens than it has characters |
| Cli.ShortTokensUnglued | src/cli.rs:26-41 | without a glued value, each character gives one token: its first flag without value, or `UnknownOpt` of the character |
| Cli.ShortTokensGlued | src/cli.rs:28-32 | the first value-taking flag with characters after it takes them all as its value and ends the cluster; each earlier character gives one token |
| Cli.ParseShort | src/cli.rs:24-43 | the scan with its `break` appends exactly the cluster's tokens to the list |
| Cli.LongToken | src/cli.rs:45-69 | a long flag gives one token, never an argument; an option's flag has that name (or `name=` prefixes the text); a value is attached only to a value-taking flag and is never empty |
| Cli.LongBare | src/cli.rs:47-54 | `--name` gives the first flag named `name` without value, even when it takes one, or `UnknownOpt(name)` |
| Cli.LongWithValue | src/cli.rs:55-66 | `--name=value` splits at the first `=`; the value is kept only for a value-taking flag and a non-empty value; an unknown name gives `UnknownOpt` of `name=value` |
| Cli.ArgTokens | src/cli.rs:75-85 | one argument gives no token exactly when it is `--` |
| Cli.ArgTokensByChars | src/cli.rs:79-84 | the branch taken by one argument is decided by its first two characters |
| Cli.TokenizedAppend | src/cli.rs:74-86 | tokenizing concatenated arguments is tokenizing each part, the second with options accepted only if the first held no `--` |
| Cli.Tokenized | src/cli.rs:71-88 | the token list is empty exactly when every argument is `--` |
| Cli.TokenizedIndexed | src/cli.rs:71-88 | every option emitted refers to an entry of the flag table |
| Cli.ShortTokensIndexed | src/cli.rs:24-43 | every option a cluster gives refers to an entry of the flag table |
| Cli.TokenizedAfterEndOfOptions | src/cli.rs:75-84 | after `--` every argument, `-` included, is one literal `Argument`, and a repeated `--` is swallowed |
| Cli.EndOfOptions | src/cli.rs:77-78 | the arguments before the first `--` are tokenized as usual and every one after it literally |
| Cli.PlainArguments | src/cli.rs:83-84 | arguments that do not start with `-` give one `Argument` each, verbatim and in order |
| Cli.Tokenize | src/cli.rs:71-88 | the loop over the arguments with its `accept_opt` switch produces the specified token list |
| Cli.Normalized | src/cli.rs:90-109 | normalizing never lengthens the list, and keeps or fuses its first token |
| Cli.NormalizedLength | src/cli.rs:90-109 | the length drops by exactly the number of fusing pairs |
| Cli.NormalizedSettled | src/cli.rs:90-109 | nothing is left to fuse afterwards |
| Cli.NormalizedUnchanged | src/cli.rs:90-109 | a list with nothing to fuse is left as it is |
| Cli.NormalizedIdempotent | src/cli.rs:90-109 | normalizing twice is normalizing once |
| Cli.NormalizedIndexed | src/cli.rs:90-109 | fusing keeps every option's flag in the table |
| Cli.MergePlan | src/cli.rs:91-103 | the first pass records, for each fusing pair, the index it has once the earlier merges are done (`i - inc`) |
| Cli.PlanApplies | src/cli.rs:104-108 | carrying out the recorded merges in order always finds two tokens at each index and yields the normalized list |
| Cli.PlanWhole | src/cli.rs:90-109 | the plan of the whole list applied to it gives the normalized list |
| Cli.RemoveTwiceInsert | src/cli.rs:105-107 | `remove(i)`, `remove(i)`, `insert(i, …)` replaces the pair at `i` by the fused option |
| Cli.Normalize | src/cli.rs:90-109 | the two passes over the token list produce the normalized list |
| Cli.WideGluedFlagPanics | src/cli.rs:29-30 | as written, a two-byte value-taking flag `é` in `-éa` makes the scan slice at byte 1, which is not a character boundary |
| Cli.GluedSliceAtNextChar | src/cli.rs:29-30 | slicing after the whole flag character always lands on a boundary, and leaves text exactly when characters follow |
| Cli.AsciiGluedSliceOk | src/cli.rs:29-30 | with a one-byte flag character the slice as written is on a boundary |
| Cli.BaseName | src/cli.rs:114-118 | the binary name is a suffix of the path, no longer than it |
| Cli.BaseNameIsLastSegment | src/cli.rs:115-117 | the binary name holds no `/` and is what follows the last `/` of the path |
| Cli.Parser.constructor | src/cli.rs:112-125 | the binary name is the last path segment of the first argument, or the package name without arguments; the first argument is not kept; the table is empty |
| Cli.Parser.BinaryName | src/cli.rs:127-129 | returns the stored binary name |
| Cli.Parser.AddFlag | src/cli.rs:131-140 | appends exactly one flag at the end of the table; nothing else changes |
| Cli.Parser.Help | src/cli.rs:142-145 | appends the `help`/`h`/`help` flag, taking no value |
| Cli.Parser.Version | src/cli.rs:152-155 | appends the `version`/`v`/`version` flag, taking no value |
| Cli.Parser.License | src/cli.rs:157-160 | appends the `license`/`L`/`license` flag, taking no value |
| Cli.Parser.Parse | src/cli.rs:166-170 | returns the normalized tokens of the stored arguments, every option in the table, and consumes the arguments |
| Dispatch.HandleArgs | src/main.rs:12-58 | the scan goes on exactly when no token is decisive (an `Argument`, an `UnknownOpt`, or help, version or license) |
| Dispatch.Verdict | src/main.rs:15-54 | a decisive token never lets the scan go on; it exits 0 exactly when it is an option, and a usage error ends in `", run <binary> --help"` |
| Dispatch.FirstDecisiveDecides | src/main.rs:13-57 | the first decisive token alone decides: help, version or license exit 0; an unknown option or an argument gives its usage message; options before it are skipped whatever their value |
| Dispatch.ProgramTokensAreNormal | src/main.rs:63 | with the table `main` builds no flag takes a value, so normalizing changes nothing |
| Dispatch.HandleCommandLine | src/main.rs:61-67 | `main`'s command line: the outcome of `handle_args` on the tokenized arguments after the binary name, with the binary's base name |
| Mirrors.ServerLineShape | src/lib.rs:420-425 | on a `Server = ` line ending in either suffix, the cut `len-14` or `len-15` is at least 9 |
| Mirrors.ServerEntry | src/lib.rs:420-427 | the server is the text right after the `Server = ` prefix, and it fits within the line |
| Mirrors.ServerEntryRoundTrip | src/lib.rs:419-428 | a server line is the prefix, the entry and what was cut off; with a suffix the entry keeps the suffix's `/` and ends in it |
| Mirrors.ServerEntryWithSuffix | src/lib.rs:420-422 | a server ending in `/` is recovered from its line with `$repo/os/$arch` |
| Mirrors.ServerEntryWithSlashSuffix | src/lib.rs:423-425 | a server ending in `/` is recovered from its line with `$repo/os/$arch/` |
| Mirrors.ServerEntryWithoutSuffix | src/lib.rs:426-427 | without either suffix the entry is all of the text after the prefix |
| Mirrors.ServerEntries | src/lib.rs:418-430 | there are never more servers than lines |
| Mirrors.ServerEntriesEmpty | src/lib.rs:418-431 | no server is found exactly when no line starts with `Server = ` |
| Mirrors.ServerEntriesAppend | src/lib.rs:418-430 | the servers of two blocks of lines are those of the first followed by those of the second |
| Mirrors.ServerEntriesOfServerLines | src/lib.rs:418-430 | lines that all start with `Server = ` give one server each, in line order |
| Mirrors.ParseMirrorlist | src/lib.rs:410-439 | the line loop returns the servers of the lines, or the "no server found" error exactly when there is none |
| Mirrors.ScrapeOutOfSync | src/lib.rs:471-480 | the page passes exactly when `</table>` splits it into four pieces, the first with the out-of-sync tag and the second with the in-sync tag; the error is "web scraping failed" |
| Mirrors.ScrapedFragment | src/lib.rs:471-483 | the kept fragment is the page up to its first `</table>`, and it holds the out-of-sync tag |
| Mirrors.FindMirror | src/lib.rs:487 | the first mirror whose url is the server; none exactly when no url matches |
| Mirrors.Classify | src/lib.rs:487-495 | not found exactly when no url matches; otherwise the first matching mirror, out of sync exactly when the server occurs in the out-of-sync fragment |
| Mirrors.ClassifyAll | src/lib.rs:482-499 | one state per server, each its classification |
| Mirrors.LabelBytes | src/lib.rs:32-34 | the state labels are ASCII, so their byte length is their length |
| Mirrors.FindMaxStateLen | src/lib.rs:224-246 | the result is at least every label length, 0 for no state and otherwise some state's label length |
| Mirrors.DelayText | src/lib.rs:79-86 | the text is empty exactly when there is no delay |
| Mirrors.DelayRoundTrip | src/lib.rs:79-86 | `h:mm` reads back as the hours and minutes it was made from |
| Mirrors.DelayTextLength | src/lib.rs:82 | with minutes below 100 the text is the hours, a colon and two digits, all ASCII |
| Mirrors.GetLen | src/lib.rs:112-127 | the byte length of the field's text for the eight known fields; the "does not have a field" error exactly for any other |
| Mirrors.CountedLen | src/lib.rs:251-268 | a missing server counts for the url column only; a mirror counts for exactly the known fields |
| Mirrors.LengthsAt | src/lib.rs:250-269 | the length counted for each state is that state's own |
| Mirrors.FindMaxLen | src/lib.rs:248-272 | at least every counted length, and 0 or one of them; the error exactly for an unknown key with some found mirror |
| Mirrors.MaxLenStep | src/lib.rs:252-268 | one more state raises the maximum to its counted length when that is longer |
| Mirrors.ColumnOfMax | src/lib.rs:202-209 | the larger of the maximum and the header's length is the column's width |
| Mirrors.NewMaxLength | src/lib.rs:199-222 | never fails, and every width is the largest of its header's length and its column's lengths |
| Mirrors.ColumnWidthUnique | src/lib.rs:202-209 | a column has one width |
| Mirrors.StateWidthUnique | src/lib.rs:201 | the state column has one width |
| Mirrors.WidthsUnique | src/lib.rs:199-222 | the widths of a set of states are unique |
| Mirrors.ColumnWidthReordered | src/lib.rs:502-504 | a column's width does not depend on the order of the states |
| Mirrors.StateWidthReordered | src/lib.rs:502-504 | the state column's width does not depend on the order of the states |
| Mirrors.WidthsReordered | src/lib.rs:502-504 | the states may arrive in any order: every order has the same widths |
| Mirrors.StateWidthValues | src/lib.rs:201 | the state column is 12 wide with an out-of-sync mirror, else 10 with a missing server, else 5 |
| Mirrors.CheckMirrors | src/lib.rs:458-499 | the mirror-list error comes first, then the page check; otherwise every server is classified against the out-of-sync fragment, in mirror-list order |
| CliCases.ShortHelp | src/cli.rs:81-82 | `-h` is the help option |
| CliCases.GluedValue | src/cli.rs:28-32 | `-farg` gives `f` the value `arg` |
| CliCases.GluedValueNotReread | src/cli.rs:29-32 | in `-f-h` the `-h` is the value, not a flag |
| CliCases.LongEqualsValue | src/cli.rs:59-60 | `--flag=value` gives the value |
| CliCases.LongEmptyValue | src/cli.rs:59-62 | `--flag=` gives the flag without value |
| CliCases.LongFlagWith | src/cli.rs:55-66 | `--flag=value` has the value exactly when it is not empty |
| CliCases.FollowingValue | src/cli.rs:95-100 | `--flag value` is fused into one option with the value |
| CliCases.FollowingOptionNotFused | src/cli.rs:97 | an option after a value-taking flag is not taken as its value |
| CliCases.ClusterWithUnknown | src/cli.rs:39-41 | an unknown character of a cluster becomes its own token and the scan goes on |
| CliCases.TableTokensAreNormal | src/cli.rs:96 | without a bare value-taking option nothing is fused |
| CliCases.DashAndEndOfOptions | src/cli.rs:75-78 | `-` is an argument; after `--`, `-h` is an argument |
| DispatchCases.NoArguments | src/main.rs:57 | no arguments: go on with the check |
| DispatchCases.FirstTokenDecides | src/main.rs:13-57 | a decisive first token decides the outcome |
| DispatchCases.ClusterFirstFlagDecides | src/main.rs:35-37 | in `-vh` the version flag decides |
| DispatchCases.LongLicense | src/main.rs:38-40 | `--license` exits after the license |
| DispatchCases.UnknownBeforeHelp | src/main.rs:43-47 | an unknown option before `-h` is reported |
| DispatchCases.HelpAfterEndOfOptions | src/main.rs:49-53 | after `--`, `-h` is an unexpected argument |
| MirrorCases.DelayTexts | src/lib.rs:82 | minutes are padded to two digits; no delay gives empty text |
| MirrorCases.Classifications | src/lib.rs:487-495 | out of sync, in sync and not found on small inputs |

## Left out

- Reading the mirror list from disk and its error message (src/lib.rs:412-417). The model starts from the file's lines. Splitting the file into lines (`str::lines`) is not modelled.
- The HTTP fetches, JSON decoding and their error messages (src/lib.rs:461-468). The model takes the page text and the decoded mirrors as parameters.
- Threads and channels in `run` (src/lib.rs:482-507). States are classified in mirror-list order. Any other order reaching the table is covered by `Mirrors.WidthsReordered`.
- Float handling:
  - the conversion from the status data (src/lib.rs:130-155);
  - `completion_to_str`, `duration_avg_to_str`, `duration_stddev_to_str` and `score_to_str`.
  The float fields are carried as their formatted text.
- Table printing, colours, the spinner, `supports_truecolor`, the news module, the HTTP helper and the error type. These are terminal I/O and foreign libraries.
- The help and version texts and `process::exit` in `main`. They are the `Outcome` values. `run` after the command line is `Proceed`.
- Cli.Tokenize: requires every value-taking flag to have a one-byte short character. The source slices a cluster at byte `i + 1` and panics otherwise (see Findings).
- Cli.ParseShort: requires the same, for the same reason.
- Cli.Parser.Parse: requires the same, for the same reason.

## Findings

| source | as written | input that shows it | evidently intended | confidence | as-written member | corrected member |
|---|---|---|---|---|---|---|
| src/cli.rs:29-30 | the glued value of a value-taking short flag is sliced at byte `i + 1`, `i` being the byte offset of the flag character | a value-taking flag with short character `é` and the argument `-éa`: the slice starts at byte 1, inside the two-byte `é`, and `&current_arg[1..]` panics | slice after the whole character, at `i + c.len_utf8()` | medium; not executed | Cli.WideGluedFlagPanics | Cli.ShortTokens, Cli.ShortTokensGlued, Cli.GluedSliceAtNextChar |
