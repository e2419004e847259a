/**
  Text helpers shared by the command-line parser and the mirror-list code:
  prefix and suffix tests, the first occurrence of a character or of a
  substring (Rust's `str::find`), splitting on a separator (`str::split`),
  decimal rendering of naturals (`{}` on an unsigned integer) and the UTF-8
  byte length of a string (Rust's `str::len`).
*/
module Strings {
  import opened Wrappers

  predicate StartsWith(s: string, p: string) {
    |p| <= |s| && s[..|p|] == p
  }

  predicate EndsWith(s: string, p: string) {
    |p| <= |s| && s[|s| - |p|..] == p
  }

  /** The index of the first `c` in `s`. */
  function IndexOfChar(s: string, c: char): (r: Option<nat>)
    ensures r.Some? ==> r.value < |s| && s[r.value] == c && c !in s[..r.value]
    ensures r.None? <==> c !in s
  {
    if s == [] then None
    else if s[0] == c then Some(0)
    else
      var rest := IndexOfChar(s[1..], c);
      if rest.None? then None
      else
        assert s[..rest.value + 1] == [s[0]] + s[1..][..rest.value];
        Some(rest.value + 1)
  }

  /** `t` occurs in `s` starting at index `i`. */
  predicate OccursAt(s: string, t: string, i: nat) {
    i + |t| <= |s| && s[i..i + |t|] == t
  }

  predicate Contains(s: string, t: string) {
    exists i: nat | i <= |s| :: OccursAt(s, t, i)
  }

  function FindFrom(s: string, t: string, i: nat): (r: Option<nat>)
    requires i <= |s|
    ensures r.Some? ==> i <= r.value && OccursAt(s, t, r.value)
    ensures r.Some? ==> forall j: nat :: i <= j < r.value ==> !OccursAt(s, t, j)
    ensures r.None? ==> forall j: nat :: i <= j ==> !OccursAt(s, t, j)
    decreases |s| - i
  {
    if i + |t| > |s| then None
    else if s[i..i + |t|] == t then Some(i)
    else if i == |s| then None
    else FindFrom(s, t, i + 1)
  }

  /** The index of the first occurrence of `t` in `s` (Rust's `str::find`). */
  function Find(s: string, t: string): (r: Option<nat>)
    ensures r.Some? ==> OccursAt(s, t, r.value)
  {
    FindFrom(s, t, 0)
  }

  /** `Find` fails exactly when `t` does not occur in `s`. */
  lemma FindNone(s: string, t: string)
    ensures Find(s, t).None? <==> !Contains(s, t)
  {
    var r := FindFrom(s, t, 0);
  }

  /** `Find` reports the leftmost occurrence. */
  lemma FindFirst(s: string, t: string)
    ensures Find(s, t).Some? ==> forall j: nat :: j < Find(s, t).value ==> !OccursAt(s, t, j)
  {
    var r := FindFrom(s, t, 0);
  }

  /**
    The pieces of `s` between the non-overlapping occurrences of `sep`,
    searched left to right (Rust's `str::split` with a string pattern).
  */
  function Split(s: string, sep: string): (parts: seq<string>)
    requires |sep| > 0
    ensures |parts| >= 1
    decreases |s|
  {
    match Find(s, sep)
    case None => [s]
    case Some(i) => [s[..i]] + Split(s[i + |sep|..], sep)
  }

  /** Joins pieces with `sep` between them: the inverse of `Split`. */
  function Join(parts: seq<string>, sep: string): string
    requires |parts| >= 1
  {
    if |parts| == 1 then parts[0] else parts[0] + sep + Join(parts[1..], sep)
  }

  lemma {:induction false} JoinSplit(s: string, sep: string)
    requires |sep| > 0
    ensures Join(Split(s, sep), sep) == s
    decreases |s|
  {
    var f := Find(s, sep);
    if f.Some? {
      var i := f.value;
      var rest := s[i + |sep|..];
      JoinSplit(rest, sep);
      SplitStep(s, sep, i);
      JoinCons(s[..i], Split(rest, sep), sep);
      Around(s, sep, i);
    }
  }

  lemma JoinCons(head: string, tail: seq<string>, sep: string)
    requires |tail| >= 1
    ensures Join([head] + tail, sep) == head + sep + Join(tail, sep)
  {
    assert ([head] + tail)[0] == head && ([head] + tail)[1..] == tail;
  }

  /** An occurrence cuts `s` into the text before it, the occurrence and the text after it. */
  lemma Around(s: string, t: string, i: nat)
    requires OccursAt(s, t, i)
    ensures s == s[..i] + t + s[i + |t|..]
  {
    assert s == s[..i] + s[i..i + |t|] + s[i + |t|..];
  }

  /** Splitting at the first occurrence of `sep`. */
  lemma SplitStep(s: string, sep: string, i: nat)
    requires |sep| > 0 && Find(s, sep) == Some(i)
    ensures Split(s, sep) == [s[..i]] + Split(s[i + |sep|..], sep)
  {
  }

  /** No piece of a split contains the separator. */
  lemma {:induction false} SplitPiecesFree(s: string, sep: string)
    requires |sep| > 0
    ensures forall k | 0 <= k < |Split(s, sep)| :: !Contains(Split(s, sep)[k], sep)
    decreases |s|
  {
    match Find(s, sep)
    case None =>
    case Some(i) =>
      var rest := s[i + |sep|..];
      SplitPiecesFree(rest, sep);
      var head := s[..i];
      FindFirst(s, sep);
      forall j: nat | OccursAt(head, sep, j) ensures false {
        assert s[j..j + |sep|] == head[j..j + |sep|];
        assert OccursAt(s, sep, j);
      }
  }

  /** The first piece of a split is all of `s`, or a prefix of `s` followed by `sep`. */
  lemma SplitFirstPiece(s: string, sep: string)
    requires |sep| > 0
    ensures |Split(s, sep)| == 1 ==> Split(s, sep)[0] == s
    ensures |Split(s, sep)| > 1 ==> StartsWith(s, Split(s, sep)[0] + sep)
  {
    match Find(s, sep)
    case None =>
    case Some(i) =>
      assert Split(s, sep)[0] == s[..i];
      assert s[..i + |sep|] == s[..i] + sep;
  }

  function LastPiece(s: string, sep: string): string
    requires |sep| > 0
  {
    var parts := Split(s, sep); parts[|parts| - 1]
  }

  /** `p` is a suffix of `s` that, unless it is all of `s`, directly follows `sep`. */
  predicate SuffixAfter(p: string, s: string, sep: string) {
    && |p| <= |s| && p == s[|s| - |p|..]
    && (|p| < |s| ==> |s| - |p| >= |sep| && s[|s| - |p| - |sep|..|s| - |p|] == sep)
  }

  lemma {:induction false} SplitLastPiece(s: string, sep: string)
    requires |sep| > 0
    ensures SuffixAfter(LastPiece(s, sep), s, sep)
    decreases |s|
  {
    var f := Find(s, sep);
    if f.None? {
      assert LastPiece(s, sep) == s;
      assert s[|s| - |s|..] == s;
    } else {
      var i := f.value;
      var rest := s[i + |sep|..];
      LastPieceStep(s, sep, i);
      SplitLastPiece(rest, sep);
      SuffixAfterShift(LastPiece(rest, sep), s, i, sep);
    }
  }

  /** The last piece is the last piece of the text after the first separator. */
  lemma LastPieceStep(s: string, sep: string, i: nat)
    requires |sep| > 0 && Find(s, sep) == Some(i)
    ensures LastPiece(s, sep) == LastPiece(s[i + |sep|..], sep)
  {
    SplitStep(s, sep, i);
    LastOfCons(s[..i], Split(s[i + |sep|..], sep));
  }

  lemma LastOfCons<T>(x: T, xs: seq<T>)
    requires |xs| >= 1
    ensures ([x] + xs)[|xs|] == xs[|xs| - 1]
  {
  }

  lemma SuffixAfterShift(p: string, s: string, i: nat, sep: string)
    requires OccursAt(s, sep, i)
    requires SuffixAfter(p, s[i + |sep|..], sep)
    ensures SuffixAfter(p, s, sep)
  {
    var rest := s[i + |sep|..];
    var m := |rest| - |p|;
    assert |s| - |p| == i + |sep| + m;
    assert p == s[|s| - |p|..] by {
      assert rest[m..] == s[i + |sep| + m..];
    }
    if |p| < |rest| {
      assert rest[m - |sep|..m] == s[i + m..i + m + |sep|];
    } else {
      assert s[|s| - |p| - |sep|..|s| - |p|] == s[i..i + |sep|];
    }
  }

  // Decimal text of naturals.

  predicate IsDigit(c: char) {
    '0' <= c <= '9'
  }

  function DigitChar(d: nat): (c: char)
    requires d < 10
    ensures IsDigit(c)
  {
    "0123456789"[d]
  }

  function DigitValue(c: char): nat
    requires IsDigit(c)
  {
    c as nat - '0' as nat
  }

  /** The decimal text of `n` with no leading zero, as Rust's `{}` prints it. */
  function Decimal(n: nat): (s: string)
    ensures |s| >= 1 && forall k | 0 <= k < |s| :: IsDigit(s[k])
    ensures n < 10 <==> |s| == 1
  {
    if n < 10 then [DigitChar(n)] else Decimal(n / 10) + [DigitChar(n % 10)]
  }

  /** A number of two digits or more does not start with `0`. */
  lemma {:induction false} DecimalNoLeadingZero(n: nat)
    requires n >= 10
    ensures Decimal(n)[0] != '0'
  {
    if n / 10 >= 10 {
      DecimalNoLeadingZero(n / 10);
    }
  }

  /** The value of a string of decimal digits: the inverse of `Decimal`. */
  function DecimalValue(s: string): nat
    requires forall k | 0 <= k < |s| :: IsDigit(s[k])
  {
    if s == [] then 0 else DecimalValue(s[..|s| - 1]) * 10 + DigitValue(s[|s| - 1])
  }

  lemma {:induction false} DecimalRoundTrip(n: nat)
    ensures DecimalValue(Decimal(n)) == n
  {
    if n >= 10 {
      DecimalRoundTrip(n / 10);
      var s := Decimal(n);
      assert s[..|s| - 1] == Decimal(n / 10);
    }
  }

  lemma {:induction false} DecimalLeadingZero(s: string)
    requires forall k | 0 <= k < |s| :: IsDigit(s[k])
    ensures DecimalValue("0" + s) == DecimalValue(s)
    decreases |s|
  {
    if s != [] {
      var t := "0" + s;
      assert t[..|t| - 1] == "0" + s[..|s| - 1];
      DecimalLeadingZero(s[..|s| - 1]);
    }
  }

  // UTF-8 byte length.

  function Utf8Width(c: char): (w: nat)
    ensures 1 <= w <= 4
  {
    if c as int < 0x80 then 1
    else if c as int < 0x800 then 2
    else if c as int < 0x1_0000 then 3
    else 4
  }

  /** The number of bytes of the UTF-8 encoding of `s` (Rust's `str::len`). */
  function Utf8Len(s: string): (n: nat)
    ensures |s| <= n <= 4 * |s|
  {
    if s == [] then 0 else Utf8Width(s[0]) + Utf8Len(s[1..])
  }

  predicate IsAscii(s: string) {
    forall k | 0 <= k < |s| :: s[k] as int < 0x80
  }

  lemma {:induction false} Utf8LenAscii(s: string)
    ensures Utf8Len(s) == |s| <==> IsAscii(s)
  {
    if s != [] {
      Utf8LenAscii(s[1..]);
      assert Utf8Len(s[1..]) >= |s[1..]|;
      if IsAscii(s) {
        assert s[0] as int < 0x80;
        assert IsAscii(s[1..]) by {
          forall k | 0 <= k < |s[1..]| ensures s[1..][k] as int < 0x80 { assert s[1..][k] == s[k + 1]; }
        }
      } else if Utf8Len(s) == |s| {
        assert Utf8Width(s[0]) == 1 && Utf8Len(s[1..]) == |s[1..]|;
        forall k | 0 <= k < |s| ensures s[k] as int < 0x80 {
          if k > 0 { assert s[k] == s[1..][k - 1]; }
        }
        assert false;
      }
    }
  }

  lemma {:induction false} Utf8LenAppend(a: string, b: string)
    ensures Utf8Len(a + b) == Utf8Len(a) + Utf8Len(b)
  {
    if a == [] {
      assert a + b == b;
    } else {
      var ab := a + b;
      assert ab[0] == a[0] && ab[1..] == a[1..] + b;
      Utf8LenAppend(a[1..], b);
      assert Utf8Len(ab) == Utf8Width(ab[0]) + Utf8Len(ab[1..]);
    }
  }
}
