/** Worked cases of the mirror-list logic. */
module MirrorCases {
  import opened Wrappers
  import opened Strings
  import opened Mirrors

  /** Minutes are padded to two digits. */
  lemma DelayTexts()
    ensures DelayText(Some((1, 5))) == "1:05"
    ensures DelayText(Some((0, 42))) == "0:42"
    ensures DelayText(None) == ""
  {
    assert Decimal(42) == Decimal(4) + [DigitChar(2)];
  }

  const A := Mirror("https://a.org/", "https", "France", "100", Some((0, 10)), "0.20", "0.10", "1.5")

  /** A server is out of sync when it occurs in the out-of-sync fragment. */
  lemma Classifications()
    ensures Classify("https://a.org/", [A], "<td>https://a.org/</td>").OutOfSync?
    ensures Classify("https://a.org/", [A], "").Synced?
    ensures Classify("https://b.org/", [A], "") == NotFound("https://b.org/")
  {
    var frag := "<td>https://a.org/</td>";
    assert OccursAt(frag, "https://a.org/", 4);
    assert "https://b.org/" != A.url by {
      assert "https://b.org/"[8] != A.url[8];
    }
  }
}
