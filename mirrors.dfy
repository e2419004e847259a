/**
  The mirror-list logic of milcheck (src/lib.rs): extracting the servers of
  pacman's mirror list, the structural check of the scraped status page,
  classifying each server against the status data, and the column widths
  of the status table. Reading files, HTTP, JSON decoding, threads and
  floating-point formatting are outside the model: a mirror's float fields
  are carried as the text they format to.
*/
module Mirrors {
  import opened Wrappers
  import opened Strings
  import opened Seqs

  const MirrorlistPath := "/etc/pacman.d/mirrorlist"
  const ServerPrefix := "Server = "
  const RepoSuffix := "/$repo/os/$arch"
  const RepoSuffixSlash := "/$repo/os/$arch/"
  const OutOfSyncTag := "<table id=\"outofsync_mirrors\""
  const InSyncTag := "<table id=\"successful_mirrors\""
  const TableEnd := "</table>"
  const ScrapeError := "web scraping failed"
  const OkLabel := "Ok"
  const NotFoundLabel := "Not found!"
  const OutOfSyncLabel := "Out of sync!"
  const Headers: seq<string> := [
    "State", "Url", "Protocol", "Country", "Completion %", "Delay h:m", "Avg dur s", "Dev dur s", "Score"
  ]
  /** The field names `get_len` knows. */
  const FieldKeys: seq<string> := [
    "url", "protocol", "country", "completion", "delay", "duration_avg", "duration_stddev", "score"
  ]

  /**
    A mirror of the status data. `completion`, `durationAvg`, `durationStddev`
    and `score` are the texts their float values format to ("" when absent);
    `delay` is the (hours, minutes) pair.
  */
  datatype Mirror = Mirror(
    url: string,
    protocol: string,
    country: string,
    completion: string,
    delay: Option<(nat, nat)>,
    durationAvg: string,
    durationStddev: string,
    score: string)

  datatype MirrorState = NotFound(server: string) | Synced(mirror: Mirror) | OutOfSync(mirror: Mirror)

  /** The width of each column of the status table. */
  datatype MaxLength = MaxLength(
    state: nat,
    url: nat,
    protocol: nat,
    country: nat,
    completion: nat,
    delay: nat,
    durationAvg: nat,
    durationStddev: nat,
    score: nat)

  // The mirror list.

  /** A suffix whose first character the prefix lacks cannot overlap the prefix. */
  lemma NoOverlap(line: string, prefix: string, suffix: string)
    requires StartsWith(line, prefix) && EndsWith(line, suffix)
    requires |suffix| > 0 && suffix[0] !in prefix
    ensures |line| >= |prefix| + |suffix|
  {
  }

  /** The repository suffixes start with '/', which the prefix does not contain. */
  lemma ServerLineShape(line: string)
    requires StartsWith(line, ServerPrefix)
    ensures EndsWith(line, RepoSuffix) ==> |line| >= |ServerPrefix| + |RepoSuffix|
    ensures EndsWith(line, RepoSuffixSlash) ==> |line| >= |ServerPrefix| + |RepoSuffixSlash|
  {
    assert '/' !in ServerPrefix;
    if EndsWith(line, RepoSuffix) {
      NoOverlap(line, ServerPrefix, RepoSuffix);
    }
    if EndsWith(line, RepoSuffixSlash) {
      NoOverlap(line, ServerPrefix, RepoSuffixSlash);
    }
  }

  /** Cutting a line that ends with `suffix` one character into the suffix. */
  lemma CutAfterSlash(line: string, suffix: string)
    requires |line| >= 9 + |suffix| && EndsWith(line, suffix) && |suffix| > 0 && suffix[0] == '/'
    ensures var entry := line[9..|line| - |suffix| + 1];
      line == line[..9] + entry + suffix[1..] && EndsWith(entry, "/")
  {
    var end := |line| - |suffix| + 1;
    assert line[end..] == line[end - 1..][1..];
    assert line == line[..9] + line[9..end] + line[end..];
  }

  /**
    The server of a `Server = ` line: the text after the prefix, with a
    trailing `$repo/os/$arch` or `$repo/os/$arch/` removed after its '/'.
  */
  function ServerEntry(line: string): (e: string)
    requires StartsWith(line, ServerPrefix)
    ensures |ServerPrefix| + |e| <= |line| && e == line[|ServerPrefix|..|ServerPrefix| + |e|]
  {
    ServerLineShape(line);
    if EndsWith(line, RepoSuffix) then line[9..|line| - 14]
    else if EndsWith(line, RepoSuffixSlash) then line[9..|line| - 15]
    else line[9..]
  }

  /**
    The line is the prefix, the server and what was cut off: the rest of the
    repository suffix after its '/', which the server keeps and ends with.
  */
  lemma ServerEntryRoundTrip(line: string)
    requires StartsWith(line, ServerPrefix)
    ensures var entry := ServerEntry(line);
      EndsWith(line, RepoSuffix) ==> line == ServerPrefix + entry + RepoSuffix[1..] && EndsWith(entry, "/")
    ensures var entry := ServerEntry(line);
      !EndsWith(line, RepoSuffix) && EndsWith(line, RepoSuffixSlash) ==>
        line == ServerPrefix + entry + RepoSuffixSlash[1..] && EndsWith(entry, "/")
    ensures !EndsWith(line, RepoSuffix) && !EndsWith(line, RepoSuffixSlash) ==> line == ServerPrefix + ServerEntry(line)
  {
    ServerLineShape(line);
    if EndsWith(line, RepoSuffix) {
      CutAfterSlash(line, RepoSuffix);
    } else if EndsWith(line, RepoSuffixSlash) {
      CutAfterSlash(line, RepoSuffixSlash);
    } else {
      assert line == line[..9] + line[9..];
    }
  }

  /** A server ending in '/' is recovered from its line with the repository suffix. */
  lemma ServerEntryWithSuffix(url: string)
    requires EndsWith(url, "/")
    ensures ServerEntry(ServerPrefix + url + RepoSuffix[1..]) == url
  {
    var line := ServerPrefix + url + RepoSuffix[1..];
    var n := |line|;
    assert line[n - |RepoSuffix|..] == RepoSuffix by {
      assert line[n - |RepoSuffix|] == url[|url| - 1];
      assert line[n - |RepoSuffix| + 1..] == RepoSuffix[1..];
    }
    assert line[9..n - 14] == url;
  }

  /** And with the suffix that ends in '/'. */
  lemma ServerEntryWithSlashSuffix(url: string)
    requires EndsWith(url, "/")
    ensures ServerEntry(ServerPrefix + url + RepoSuffixSlash[1..]) == url
  {
    var line := ServerPrefix + url + RepoSuffixSlash[1..];
    var n := |line|;
    assert !EndsWith(line, RepoSuffix) by {
      assert line[n - 1] != RepoSuffix[|RepoSuffix| - 1];
    }
    assert line[n - |RepoSuffixSlash|..] == RepoSuffixSlash by {
      assert line[n - |RepoSuffixSlash|] == url[|url| - 1];
      assert line[n - |RepoSuffixSlash| + 1..] == RepoSuffixSlash[1..];
    }
    assert line[9..n - 15] == url;
  }

  /** A line with neither suffix gives back the whole text after the prefix. */
  lemma ServerEntryWithoutSuffix(url: string)
    requires !EndsWith(ServerPrefix + url, RepoSuffix) && !EndsWith(ServerPrefix + url, RepoSuffixSlash)
    ensures ServerEntry(ServerPrefix + url) == url
  {
    var line := ServerPrefix + url;
    assert line[9..] == url;
  }

  /** The servers of the mirror list, one per `Server = ` line, in line order. */
  function ServerEntries(lines: seq<string>): (entries: seq<string>)
    ensures |entries| <= |lines|
  {
    if lines == [] then []
    else
      var init, last := lines[..|lines| - 1], lines[|lines| - 1];
      assert forall i | 0 <= i < |init| :: init[i] == lines[i];
      ServerEntries(init) + (if StartsWith(last, ServerPrefix) then [ServerEntry(last)] else [])
  }

  /** There is no server exactly when no line starts with `Server = `. */
  lemma {:induction false} ServerEntriesEmpty(lines: seq<string>)
    ensures ServerEntries(lines) == [] <==> forall i | 0 <= i < |lines| :: !StartsWith(lines[i], ServerPrefix)
  {
    if lines != [] {
      var init, last := lines[..|lines| - 1], lines[|lines| - 1];
      ServerEntriesEmpty(init);
      assert forall i | 0 <= i < |init| :: init[i] == lines[i];
      assert (forall i | 0 <= i < |lines| :: !StartsWith(lines[i], ServerPrefix)) <==>
        (forall i | 0 <= i < |init| :: !StartsWith(init[i], ServerPrefix)) && !StartsWith(last, ServerPrefix);
    }
  }

  lemma {:induction false} ServerEntriesAppend(a: seq<string>, b: seq<string>)
    ensures ServerEntries(a + b) == ServerEntries(a) + ServerEntries(b)
    decreases |b|
  {
    if b == [] {
      assert a + b == a;
    } else {
      var init := b[..|b| - 1];
      assert (a + b)[..|a + b| - 1] == a + init;
      ServerEntriesAppend(a, init);
    }
  }

  /** A list made only of `Server = ` lines gives one server per line, in order. */
  lemma {:induction false} ServerEntriesOfServerLines(lines: seq<string>)
    requires forall i | 0 <= i < |lines| :: StartsWith(lines[i], ServerPrefix)
    ensures |ServerEntries(lines)| == |lines|
    ensures forall i | 0 <= i < |lines| :: ServerEntries(lines)[i] == ServerEntry(lines[i])
  {
    if lines != [] {
      var init, last := lines[..|lines| - 1], lines[|lines| - 1];
      forall i | 0 <= i < |init| ensures StartsWith(init[i], ServerPrefix) {
        assert init[i] == lines[i];
      }
      ServerEntriesOfServerLines(init);
      var prev := ServerEntries(init);
      var entries := ServerEntries(lines);
      var e := ServerEntry(last);
      assert entries == prev + [e];
      forall i | 0 <= i < |init| ensures entries[i] == ServerEntry(lines[i]) {
        assert entries[i] == prev[i] && lines[i] == init[i];
      }
      assert entries[|init|] == e && lines[|init|] == last;
    }
  }

  /** `parse_mirrorlist` after the file is read: the servers, or an error when there is none. */
  method ParseMirrorlist(lines: seq<string>) returns (r: Result<seq<string>, string>)
    ensures r.Failure? <==> forall i | 0 <= i < |lines| :: !StartsWith(lines[i], ServerPrefix)
    ensures r.Failure? ==> r.error == "no server found in " + MirrorlistPath
    ensures r.Success? ==> r.value == ServerEntries(lines)
  {
    var mirrors: seq<string> := [];
    var i := 0;
    while i < |lines|
      invariant i <= |lines|
      invariant mirrors == ServerEntries(lines[..i])
    {
      var line := lines[i];
      assert lines[..i + 1][..i] == lines[..i];
      if StartsWith(line, ServerPrefix) {
        ServerLineShape(line);
        if EndsWith(line, RepoSuffix) {
          var end := |line| - 14;
          mirrors := mirrors + [line[9..end]];
        } else if EndsWith(line, RepoSuffixSlash) {
          var end := |line| - 15;
          mirrors := mirrors + [line[9..end]];
        } else {
          mirrors := mirrors + [line[9..]];
        }
      }
      i := i + 1;
    }
    assert lines[..|lines|] == lines;
    ServerEntriesEmpty(lines);
    if |mirrors| == 0 {
      r := Failure("no server found in " + MirrorlistPath);
    } else {
      r := Success(mirrors);
    }
  }

  // The status page.

  /**
    The structural check of the scraped status page: split on `</table>`, it
    must have exactly four pieces, the first holding the out-of-sync table
    and the second the in-sync table. The first piece is kept.
  */
  function ScrapeOutOfSync(page: string): (r: Result<string, string>)
    ensures r.Success? <==>
      var v := Split(page, TableEnd);
      |v| == 4 && Contains(v[0], OutOfSyncTag) && Contains(v[1], InSyncTag)
    ensures r.Failure? ==> r.error == ScrapeError
  {
    var v := Split(page, TableEnd);
    if |v| != 4 then Failure(ScrapeError)
    else
      FindNone(v[0], OutOfSyncTag);
      FindNone(v[1], InSyncTag);
      if Find(v[0], OutOfSyncTag).None? then Failure(ScrapeError)
      else if Find(v[1], InSyncTag).None? then Failure(ScrapeError)
      else Success(v[0])
  }

  /**
    The kept fragment is the start of the page up to the first `</table>`:
    it is followed by `</table>` in the page, holds no `</table>` itself, and
    holds the out-of-sync table tag.
  */
  lemma ScrapedFragment(page: string)
    requires ScrapeOutOfSync(page).Success?
    ensures var frag := ScrapeOutOfSync(page).value;
      StartsWith(page, frag + TableEnd) && !Contains(frag, TableEnd) && Contains(frag, OutOfSyncTag)
  {
    SplitFirstPiece(page, TableEnd);
    SplitPiecesFree(page, TableEnd);
    assert !Contains(Split(page, TableEnd)[0], TableEnd);
  }

  // Classification.

  /** Whether a mirror's url is `server`. */
  function HasUrl(server: string): Mirror -> bool {
    (m: Mirror) => m.url == server
  }

  /** The first mirror whose url is `server` (Rust's `Iterator::find`). */
  function FindMirror(mirrors: seq<Mirror>, server: string): (r: Option<nat>)
    ensures r.Some? ==> r.value < |mirrors| && mirrors[r.value].url == server
    ensures r.Some? ==> forall j | 0 <= j < r.value :: mirrors[j].url != server
    ensures r.None? <==> forall j | 0 <= j < |mirrors| :: mirrors[j].url != server
  {
    FirstIndex(mirrors, HasUrl(server))
  }

  /**
    The state of one server of the mirror list: not found when no mirror of
    the status data has it as url; otherwise the first such mirror, out of
    sync when the server occurs anywhere in the out-of-sync fragment.
  */
  function Classify(server: string, mirrors: seq<Mirror>, outOfSync: string): (st: MirrorState)
    ensures st.NotFound? <==> forall j | 0 <= j < |mirrors| :: mirrors[j].url != server
    ensures st.NotFound? ==> st.server == server
    ensures !st.NotFound? ==>
      FindMirror(mirrors, server).Some? && st.mirror == mirrors[FindMirror(mirrors, server).value]
    ensures st.OutOfSync? <==> !st.NotFound? && Contains(outOfSync, server)
  {
    match FindMirror(mirrors, server)
    case Some(k) =>
      FindNone(outOfSync, server);
      if Find(outOfSync, server).Some? then OutOfSync(mirrors[k]) else Synced(mirrors[k])
    case None => NotFound(server)
  }

  /** The states of all servers, in mirror-list order; the program collects them in any order. */
  function ClassifyAll(servers: seq<string>, mirrors: seq<Mirror>, outOfSync: string): (states: seq<MirrorState>)
    ensures |states| == |servers|
    ensures forall i | 0 <= i < |servers| :: states[i] == Classify(servers[i], mirrors, outOfSync)
  {
    if servers == [] then []
    else [Classify(servers[0], mirrors, outOfSync)] + ClassifyAll(servers[1..], mirrors, outOfSync)
  }

  // Column widths.

  function StateLabel(st: MirrorState): string {
    match st
    case NotFound(_) => NotFoundLabel
    case OutOfSync(_) => OutOfSyncLabel
    case Synced(_) => OkLabel
  }

  /** The labels are ASCII, so their byte length is their length. */
  lemma LabelBytes(st: MirrorState)
    ensures Utf8Len(StateLabel(st)) == |StateLabel(st)|
  {
    var text := StateLabel(st);
    assert IsAscii(text) by {
      forall k | 0 <= k < |text| ensures text[k] as int < 0x80 {
        assert text[k] in OkLabel + NotFoundLabel + OutOfSyncLabel;
      }
    }
    Utf8LenAscii(text);
  }

  /** `find_max_state_len`: the longest state label, 0 for no state. */
  method FindMaxStateLen(states: seq<MirrorState>) returns (maxLen: nat)
    ensures forall i | 0 <= i < |states| :: |StateLabel(states[i])| <= maxLen
    ensures states == [] ==> maxLen == 0
    ensures states != [] ==> exists i | 0 <= i < |states| :: maxLen == |StateLabel(states[i])|
  {
    maxLen := 0;
    var i := 0;
    while i < |states|
      invariant i <= |states|
      invariant forall j | 0 <= j < i :: |StateLabel(states[j])| <= maxLen
      invariant i == 0 ==> maxLen == 0
      invariant i > 0 ==> exists j | 0 <= j < i :: maxLen == |StateLabel(states[j])|
    {
      match states[i] {
        case NotFound(_) =>
          if |NotFoundLabel| > maxLen {
            maxLen := |NotFoundLabel|;
          }
        case OutOfSync(_) =>
          if |OutOfSyncLabel| > maxLen {
            maxLen := |OutOfSyncLabel|;
          }
        case Synced(_) =>
          if |OkLabel| > maxLen {
            maxLen := |OkLabel|;
          }
      }
      i := i + 1;
    }
  }

  /** `{:}:{:>02}`: hours, a colon, and minutes padded to two digits with a zero. */
  function DelayText(delay: Option<(nat, nat)>): (s: string)
    ensures delay.None? <==> s == ""
  {
    match delay
    case None => ""
    case Some((h, m)) =>
      var minutes := Decimal(m);
      Decimal(h) + ":" + (if |minutes| < 2 then "0" + minutes else minutes)
  }

  /** Reads `h:mm` back; the inverse of `DelayText`. */
  function ParseDelay(s: string): Option<(nat, nat)> {
    match IndexOfChar(s, ':')
    case None => None
    case Some(i) =>
      var hours, minutes := s[..i], s[i + 1..];
      if hours != [] && minutes != [] && AllDigits(hours) && AllDigits(minutes) then Some((DecimalValue(hours), DecimalValue(minutes)))
      else None
  }

  lemma DelayRoundTrip(h: nat, m: nat)
    ensures ParseDelay(DelayText(Some((h, m)))) == Some((h, m))
  {
    var hours, minutes := Decimal(h), Decimal(m);
    var padded := if |minutes| < 2 then "0" + minutes else minutes;
    assert AllDigits(padded);
    assert DecimalValue(padded) == m by {
      DecimalRoundTrip(m);
      if |minutes| < 2 {
        DecimalLeadingZero(minutes);
      }
    }
    DecimalRoundTrip(h);
    ColonSplit(hours, padded);
  }

  predicate AllDigits(s: string) {
    forall k | 0 <= k < |s| :: IsDigit(s[k])
  }

  lemma ColonSplit(hours: string, minutes: string)
    requires hours != [] && minutes != [] && AllDigits(hours) && AllDigits(minutes)
    ensures ParseDelay(hours + ":" + minutes) == Some((DecimalValue(hours), DecimalValue(minutes)))
  {
    var s := hours + ":" + minutes;
    assert ':' !in hours;
    assert s[|hours|] == ':' && s[..|hours|] == hours;
    assert IndexOfChar(s, ':') == Some(|hours|);
    assert s[|hours| + 1..] == minutes;
  }

  /** Minutes below 100 are written as exactly two digits; the text is ASCII. */
  lemma DelayTextLength(h: nat, m: nat)
    requires m < 100
    ensures DelayText(Some((h, m))) == Decimal(h) + ":" + [DigitChar(m / 10), DigitChar(m % 10)]
    ensures |DelayText(Some((h, m)))| == |Decimal(h)| + 3
    ensures Utf8Len(DelayText(Some((h, m)))) == |DelayText(Some((h, m)))|
  {
    var s := DelayText(Some((h, m)));
    var digits := [DigitChar(m / 10), DigitChar(m % 10)];
    assert s == Decimal(h) + ":" + digits by {
      PaddedMinutes(m);
    }
    assert IsAscii(s) by {
      forall k | 0 <= k < |s| ensures s[k] as int < 0x80 {
        assert s[k] == ':' || IsDigit(s[k]);
      }
    }
    Utf8LenAscii(s);
  }

  /** The minutes as `{:>02}` pads them: two digits below 100. */
  lemma PaddedMinutes(m: nat)
    requires m < 100
    ensures var minutes := Decimal(m);
      (if |minutes| < 2 then "0" + minutes else minutes) == [DigitChar(m / 10), DigitChar(m % 10)]
  {
    if m < 10 {
      assert Decimal(m) == [DigitChar(m % 10)] && DigitChar(m / 10) == '0';
    } else {
      assert Decimal(m / 10) == [DigitChar(m / 10)];
    }
  }

  function NoFieldMessage(field: string): string {
    "Mirror does not have a field \"" + field + "\""
  }

  /** The text a field of the mirror is printed as. */
  function FieldText(m: Mirror, field: string): string
    requires field in FieldKeys
  {
    if field == "url" then m.url
    else if field == "protocol" then m.protocol
    else if field == "country" then m.country
    else if field == "completion" then m.completion
    else if field == "delay" then DelayText(m.delay)
    else if field == "duration_avg" then m.durationAvg
    else if field == "duration_stddev" then m.durationStddev
    else m.score
  }

  /** `Mirror::get_len`: the byte length of a field's text, or an error for an unknown field. */
  function GetLen(m: Mirror, field: string): (r: Result<nat, string>)
    ensures r.Failure? <==> field !in FieldKeys
    ensures r.Failure? ==> r.error == NoFieldMessage(field)
    ensures r.Success? ==> field in FieldKeys && r.value == Utf8Len(FieldText(m, field))
  {
    if field == "url" then Success(Utf8Len(m.url))
    else if field == "protocol" then Success(Utf8Len(m.protocol))
    else if field == "country" then Success(Utf8Len(m.country))
    else if field == "completion" then Success(Utf8Len(m.completion))
    else if field == "delay" then Success(Utf8Len(DelayText(m.delay)))
    else if field == "duration_avg" then Success(Utf8Len(m.durationAvg))
    else if field == "duration_stddev" then Success(Utf8Len(m.durationStddev))
    else if field == "score" then Success(Utf8Len(m.score))
    else Failure(NoFieldMessage(field))
  }

  /**
    The length a state contributes to a column: a missing server only to the
    url column, a mirror through `GetLen` (nothing when the field is unknown).
  */
  function CountedLen(st: MirrorState, key: string): (r: Option<nat>)
    ensures r.Some? <==> if st.NotFound? then key == "url" else key in FieldKeys
  {
    match st
    case NotFound(server) => if key == "url" then Some(Utf8Len(server)) else None
    case Synced(m) => if GetLen(m, key).Success? then Some(GetLen(m, key).value) else None
    case OutOfSync(m) => if GetLen(m, key).Success? then Some(GetLen(m, key).value) else None
  }

  /** The length each state contributes to the column of `key`, in state order. */
  function Lengths(states: seq<MirrorState>, key: string): (lens: seq<Option<nat>>)
    ensures |lens| == |states|
  {
    if states == [] then []
    else Lengths(states[..|states| - 1], key) + [CountedLen(states[|states| - 1], key)]
  }

  lemma {:induction false} LengthsAt(states: seq<MirrorState>, key: string, i: nat)
    requires i < |states|
    ensures Lengths(states, key)[i] == CountedLen(states[i], key)
    decreases |states|
  {
    var init := states[..|states| - 1];
    if i < |init| {
      LengthsAt(init, key, i);
      assert init[i] == states[i];
    }
  }

  /** `w` is the largest of `floor` and the lengths present in `lens`. */
  predicate MaxOf(lens: seq<Option<nat>>, floor: nat, w: nat) {
    && w >= floor
    && (forall i | 0 <= i < |lens| :: lens[i].Some? ==> lens[i].value <= w)
    && (w == floor || exists i | 0 <= i < |lens| :: lens[i] == Some(w))
  }

  /** `w` is at least every length counted for `key`, and is 0 or one of them. */
  predicate IsMaxLen(states: seq<MirrorState>, key: string, w: nat) {
    MaxOf(Lengths(states, key), 0, w)
  }

  /**
    `find_max_len`: the longest text of field `key` over the states, or the
    error of the first mirror whose `get_len` fails.
  */
  method FindMaxLen(states: seq<MirrorState>, key: string) returns (r: Result<nat, string>)
    ensures r.Failure? <==> key !in FieldKeys && exists i | 0 <= i < |states| :: !states[i].NotFound?
    ensures r.Failure? ==> r.error == NoFieldMessage(key)
    ensures r.Success? ==> IsMaxLen(states, key, r.value)
  {
    var maxLen: nat := 0;
    var i := 0;
    while i < |states|
      invariant i <= |states|
      invariant IsMaxLen(states[..i], key, maxLen)
      invariant key !in FieldKeys ==> forall j | 0 <= j < i :: states[j].NotFound?
    {
      var before := maxLen;
      match states[i] {
        case NotFound(server) =>
          if key == "url" && Utf8Len(server) > maxLen {
            maxLen := Utf8Len(server);
          }
        case OutOfSync(mirror) =>
          var value := GetLen(mirror, key);
          if value.Failure? {
            r := Failure(value.error);
            return;
          }
          if value.value > maxLen {
            maxLen := value.value;
          }
        case Synced(mirror) =>
          var value := GetLen(mirror, key);
          if value.Failure? {
            r := Failure(value.error);
            return;
          }
          if value.value > maxLen {
            maxLen := value.value;
          }
      }
      MaxLenStep(states, i, key, before, maxLen);
      i := i + 1;
    }
    assert states[..|states|] == states;
    r := Success(maxLen);
  }

  /** One more state: the maximum grows to its counted length when that is longer. */
  lemma MaxLenStep(states: seq<MirrorState>, i: nat, key: string, w: nat, w': nat)
    requires i < |states|
    requires IsMaxLen(states[..i], key, w)
    requires CountedLen(states[i], key).None? ==> w' == w
    requires CountedLen(states[i], key).Some? ==> w' == Max(CountedLen(states[i], key).value, w)
    ensures IsMaxLen(states[..i + 1], key, w')
  {
    var c := CountedLen(states[i], key);
    assert Lengths(states[..i + 1], key) == Lengths(states[..i], key) + [c] by {
      LengthsPrefix(states, i, key);
    }
    MaxOfStep(Lengths(states[..i], key), c, w, w');
  }

  lemma LengthsPrefix(states: seq<MirrorState>, i: nat, key: string)
    requires i < |states|
    ensures Lengths(states[..i + 1], key) == Lengths(states[..i], key) + [CountedLen(states[i], key)]
  {
    assert states[..i + 1][..i] == states[..i];
  }

  /** Taking one more length into the maximum. */
  lemma MaxOfStep(lens: seq<Option<nat>>, c: Option<nat>, w: nat, w': nat)
    requires MaxOf(lens, 0, w)
    requires c.None? ==> w' == w
    requires c.Some? ==> w' == Max(c.value, w)
    ensures MaxOf(lens + [c], 0, w')
  {
    var l := lens + [c];
    assert l[|lens|] == c;
    forall k | 0 <= k < |lens| ensures l[k] == lens[k] { }
    if w' != 0 && w' == w && (c.None? || c.value < w) {
      var j :| 0 <= j < |lens| && lens[j] == Some(w);
      assert l[j] == Some(w');
    }
  }

  /** `w` is the width of the column of `key` under `header`: the longest of the header and the counted lengths. */
  predicate ColumnWidth(states: seq<MirrorState>, key: string, header: string, w: nat) {
    MaxOf(Lengths(states, key), |header|, w)
  }

  /** `w` is the width of the state column: the longest of its header and the labels. */
  predicate StateWidth(states: seq<MirrorState>, w: nat) {
    && w >= |Headers[0]|
    && (forall i | 0 <= i < |states| :: |StateLabel(states[i])| <= w)
    && (w == |Headers[0]| || exists i | 0 <= i < |states| :: |StateLabel(states[i])| == w)
  }

  /** Every column of the table has its width. */
  predicate Widths(states: seq<MirrorState>, m: MaxLength) {
    && StateWidth(states, m.state)
    && ColumnWidth(states, "url", Headers[1], m.url)
    && ColumnWidth(states, "protocol", Headers[2], m.protocol)
    && ColumnWidth(states, "country", Headers[3], m.country)
    && ColumnWidth(states, "completion", Headers[4], m.completion)
    && ColumnWidth(states, "delay", Headers[5], m.delay)
    && ColumnWidth(states, "duration_avg", Headers[6], m.durationAvg)
    && ColumnWidth(states, "duration_stddev", Headers[7], m.durationStddev)
    && ColumnWidth(states, "score", Headers[8], m.score)
  }

  function Max(a: nat, b: nat): nat {
    if a >= b then a else b
  }

  lemma ColumnOfMax(states: seq<MirrorState>, key: string, header: string, w: nat)
    requires IsMaxLen(states, key, w)
    ensures ColumnWidth(states, key, header, Max(w, |header|))
  {
    MaxOfFloor(Lengths(states, key), w, |header|);
  }

  /** Raising the floor of a maximum. */
  lemma MaxOfFloor(lens: seq<Option<nat>>, w: nat, floor: nat)
    requires MaxOf(lens, 0, w)
    ensures MaxOf(lens, floor, Max(w, floor))
  {
  }

  /**
    `MaxLength::new`: each width is the longest of its header and the texts
    of its column. Every key it asks for is known, so `find_max_len` never
    fails and neither does this.
  */
  method NewMaxLength(states: seq<MirrorState>) returns (r: Result<MaxLength, string>)
    ensures r.Success? && Widths(states, r.value)
  {
    var stateLen := FindMaxStateLen(states);
    var url := FindMaxLen(states, "url");
    var protocol := FindMaxLen(states, "protocol");
    var country := FindMaxLen(states, "country");
    var completion := FindMaxLen(states, "completion");
    var delay := FindMaxLen(states, "delay");
    var durationAvg := FindMaxLen(states, "duration_avg");
    var durationStddev := FindMaxLen(states, "duration_stddev");
    var score := FindMaxLen(states, "score");
    ColumnOfMax(states, "url", Headers[1], url.value);
    ColumnOfMax(states, "protocol", Headers[2], protocol.value);
    ColumnOfMax(states, "country", Headers[3], country.value);
    ColumnOfMax(states, "completion", Headers[4], completion.value);
    ColumnOfMax(states, "delay", Headers[5], delay.value);
    ColumnOfMax(states, "duration_avg", Headers[6], durationAvg.value);
    ColumnOfMax(states, "duration_stddev", Headers[7], durationStddev.value);
    ColumnOfMax(states, "score", Headers[8], score.value);
    r := Success(MaxLength(
      Max(stateLen, |Headers[0]|),
      Max(url.value, |Headers[1]|),
      Max(protocol.value, |Headers[2]|),
      Max(country.value, |Headers[3]|),
      Max(completion.value, |Headers[4]|),
      Max(delay.value, |Headers[5]|),
      Max(durationAvg.value, |Headers[6]|),
      Max(durationStddev.value, |Headers[7]|),
      Max(score.value, |Headers[8]|)));
  }

  // The widths do not depend on the order in which the states arrive.

  lemma ColumnWidthUnique(states: seq<MirrorState>, key: string, header: string, w1: nat, w2: nat)
    requires ColumnWidth(states, key, header, w1) && ColumnWidth(states, key, header, w2)
    ensures w1 == w2
  {
    MaxOfUnique(Lengths(states, key), |header|, w1, w2);
  }

  lemma MaxOfUnique(lens: seq<Option<nat>>, floor: nat, w1: nat, w2: nat)
    requires MaxOf(lens, floor, w1) && MaxOf(lens, floor, w2)
    ensures w1 == w2
  {
    if w1 != floor {
      var i :| 0 <= i < |lens| && lens[i] == Some(w1);
      assert w1 <= w2;
    }
    if w2 != floor {
      var i :| 0 <= i < |lens| && lens[i] == Some(w2);
      assert w2 <= w1;
    }
  }

  lemma StateWidthUnique(states: seq<MirrorState>, w1: nat, w2: nat)
    requires StateWidth(states, w1) && StateWidth(states, w2)
    ensures w1 == w2
  {
    if w1 != |Headers[0]| {
      var i :| 0 <= i < |states| && |StateLabel(states[i])| == w1;
      assert w1 <= w2;
    }
    if w2 != |Headers[0]| {
      var i :| 0 <= i < |states| && |StateLabel(states[i])| == w2;
      assert w2 <= w1;
    }
  }

  /** Widths are unique: whatever computes them yields the same table layout. */
  lemma WidthsUnique(states: seq<MirrorState>, m1: MaxLength, m2: MaxLength)
    requires Widths(states, m1) && Widths(states, m2)
    ensures m1 == m2
  {
    StateWidthUnique(states, m1.state, m2.state);
    ColumnWidthUnique(states, "url", Headers[1], m1.url, m2.url);
    ColumnWidthUnique(states, "protocol", Headers[2], m1.protocol, m2.protocol);
    ColumnWidthUnique(states, "country", Headers[3], m1.country, m2.country);
    ColumnWidthUnique(states, "completion", Headers[4], m1.completion, m2.completion);
    ColumnWidthUnique(states, "delay", Headers[5], m1.delay, m2.delay);
    ColumnWidthUnique(states, "duration_avg", Headers[6], m1.durationAvg, m2.durationAvg);
    ColumnWidthUnique(states, "duration_stddev", Headers[7], m1.durationStddev, m2.durationStddev);
    ColumnWidthUnique(states, "score", Headers[8], m1.score, m2.score);
  }

  /** Every state of one list is a state of the other. */
  lemma SameStates(states: seq<MirrorState>, other: seq<MirrorState>)
    requires multiset(states) == multiset(other)
    ensures forall i | 0 <= i < |other| :: other[i] in states
  {
    forall i | 0 <= i < |other| ensures other[i] in states {
      assert other[i] in multiset(other);
    }
  }

  lemma ColumnWidthReordered(states: seq<MirrorState>, other: seq<MirrorState>, key: string, header: string, w: nat)
    requires multiset(states) == multiset(other)
    requires ColumnWidth(states, key, header, w)
    ensures ColumnWidth(other, key, header, w)
  {
    SameStates(states, other);
    SameStates(other, states);
    var lens, lens' := Lengths(states, key), Lengths(other, key);
    forall j | 0 <= j < |lens'| ensures lens'[j] in lens {
      var i :| 0 <= i < |states| && states[i] == other[j];
      LengthsAt(states, key, i);
      LengthsAt(other, key, j);
    }
    forall i | 0 <= i < |lens| ensures lens[i] in lens' {
      var j :| 0 <= j < |other| && other[j] == states[i];
      LengthsAt(states, key, i);
      LengthsAt(other, key, j);
    }
    MaxOfSameElements(lens, lens', |header|, w);
  }

  /** A maximum depends only on which lengths occur, not on their order or repetition. */
  lemma MaxOfSameElements(lens: seq<Option<nat>>, lens': seq<Option<nat>>, floor: nat, w: nat)
    requires forall j | 0 <= j < |lens'| :: lens'[j] in lens
    requires forall i | 0 <= i < |lens| :: lens[i] in lens'
    requires MaxOf(lens, floor, w)
    ensures MaxOf(lens', floor, w)
  {
    forall j | 0 <= j < |lens'| && lens'[j].Some? ensures lens'[j].value <= w {
      var i :| 0 <= i < |lens| && lens[i] == lens'[j];
    }
    if w != floor {
      var i :| 0 <= i < |lens| && lens[i] == Some(w);
      assert lens[i] in lens';
    }
  }

  lemma StateWidthReordered(states: seq<MirrorState>, other: seq<MirrorState>, w: nat)
    requires multiset(states) == multiset(other)
    requires StateWidth(states, w)
    ensures StateWidth(other, w)
  {
    SameStates(states, other);
    SameStates(other, states);
    if w != |Headers[0]| {
      var i :| 0 <= i < |states| && |StateLabel(states[i])| == w;
      assert states[i] in other;
      var j :| 0 <= j < |other| && other[j] == states[i];
    }
  }

  /**
    The states reach `MaxLength::new` in the order their threads finish; any
    order gives the widths of any other.
  */
  lemma WidthsReordered(states: seq<MirrorState>, other: seq<MirrorState>, m: MaxLength)
    requires multiset(states) == multiset(other)
    requires Widths(states, m)
    ensures Widths(other, m)
  {
    StateWidthReordered(states, other, m.state);
    ColumnWidthReordered(states, other, "url", Headers[1], m.url);
    ColumnWidthReordered(states, other, "protocol", Headers[2], m.protocol);
    ColumnWidthReordered(states, other, "country", Headers[3], m.country);
    ColumnWidthReordered(states, other, "completion", Headers[4], m.completion);
    ColumnWidthReordered(states, other, "delay", Headers[5], m.delay);
    ColumnWidthReordered(states, other, "duration_avg", Headers[6], m.durationAvg);
    ColumnWidthReordered(states, other, "duration_stddev", Headers[7], m.durationStddev);
    ColumnWidthReordered(states, other, "score", Headers[8], m.score);
  }

  /** The state column is 12 wide with an out-of-sync mirror, else 10 with a missing server, else 5. */
  lemma StateWidthValues(states: seq<MirrorState>, w: nat)
    requires StateWidth(states, w)
    ensures (exists i | 0 <= i < |states| :: states[i].OutOfSync?) ==> w == 12
    ensures (forall i | 0 <= i < |states| :: !states[i].OutOfSync?) && (exists i | 0 <= i < |states| :: states[i].NotFound?) ==> w == 10
    ensures (forall i | 0 <= i < |states| :: states[i].Synced?) ==> w == 5
  {
    if w != |Headers[0]| {
      var j :| 0 <= j < |states| && |StateLabel(states[j])| == w;
    }
  }

  // The data part of `run`.

  /**
    From the mirror-list lines, the status page and the status data to the
    state of every server: the mirror-list error comes first, then the page
    check; each server is classified against the out-of-sync fragment.
  */
  method CheckMirrors(lines: seq<string>, page: string, mirrors: seq<Mirror>) returns (r: Result<seq<MirrorState>, string>)
    ensures r.Failure? <==>
      (forall i | 0 <= i < |lines| :: !StartsWith(lines[i], ServerPrefix)) || ScrapeOutOfSync(page).Failure?
    ensures r.Failure? ==>
      r.error == if ServerEntries(lines) == [] then "no server found in " + MirrorlistPath else ScrapeError
    ensures r.Success? ==> r.value == ClassifyAll(ServerEntries(lines), mirrors, ScrapeOutOfSync(page).value)
  {
    ServerEntriesEmpty(lines);
    var servers :- ParseMirrorlist(lines);
    var outOfSync :- ScrapeOutOfSync(page);
    var states: seq<MirrorState> := [];
    var i := 0;
    while i < |servers|
      invariant i <= |servers|
      invariant |states| == i
      invariant forall j | 0 <= j < i :: states[j] == Classify(servers[j], mirrors, outOfSync)
    {
      states := states + [Classify(servers[i], mirrors, outOfSync)];
      i := i + 1;
    }
    r := Success(states);
  }
}
