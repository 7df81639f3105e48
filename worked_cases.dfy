/**
  Worked cases for the PAM scanner with the PAM `GG`, on 4-nucleotide guides and on the
  default 20-nucleotide guides, each proved by following the scan index by index
  (`SitesBefore` for n = 1, 2, ...).
 */
module WorkedCases {
  import opened Strings
  import opened Wrappers
  import opened Strand
  import opened PamScanner
  import opened GuideCatalog

  /** For a two-letter motif, an occurrence is two matching characters. */
  lemma OccursAtTwo(s: string, p: string)
    requires |p| == 2
    ensures forall j :: OccursAt(s, p, j) <==> 0 <= j && j + 2 <= |s| && s[j] == p[0] && s[j + 1] == p[1]
  {
    forall j
      ensures OccursAt(s, p, j) <==> 0 <= j && j + 2 <= |s| && s[j] == p[0] && s[j + 1] == p[1]
    {
      if 0 <= j && j + 2 <= |s| {
        assert s[j..j + 2][0] == s[j] && s[j..j + 2][1] == s[j + 1];
        assert s[j..j + 2] == [s[j], s[j + 1]];
        assert p == [p[0], p[1]];
      }
    }
  }

  /** One index of the scan with a two-letter motif: the candidate it adds, if any. */
  lemma ScanIndex(s: string, p: string, guideLength: int, cuts: seq<string>, j: nat)
    requires |p| == 2 && j < |s|
    ensures SitesBefore(s, p, guideLength, cuts, j + 1)
         == SitesBefore(s, p, guideLength, cuts, j)
            + (if j + 2 <= |s| && s[j] == p[0] && s[j + 1] == p[1] && j - guideLength > 0
                  && !AnyContained(cuts, GuideWindow(s, j - guideLength, guideLength))
               then [j - guideLength] else [])
  {
    OccursAtTwo(s, p);
  }

  /** The PAM at index 4 gives the start 4 - 4 = 0, which is not positive: nothing is reported. */
  lemma StartAtZeroDropped()
    ensures GuideSites("AAAAGGCCCC", "GG", 4, []) == []
  {
    var s := "AAAAGGCCCC";
    ScanIndex(s, "GG", 4, [], 0);
    assert SitesBefore(s, "GG", 4, [], 1) == [];
    ScanIndex(s, "GG", 4, [], 1);
    assert SitesBefore(s, "GG", 4, [], 2) == [];
    ScanIndex(s, "GG", 4, [], 2);
    assert SitesBefore(s, "GG", 4, [], 3) == [];
    ScanIndex(s, "GG", 4, [], 3);
    assert SitesBefore(s, "GG", 4, [], 4) == [];
    ScanIndex(s, "GG", 4, [], 4);
    assert SitesBefore(s, "GG", 4, [], 5) == [];
    ScanIndex(s, "GG", 4, [], 5);
    assert SitesBefore(s, "GG", 4, [], 6) == [];
    ScanIndex(s, "GG", 4, [], 6);
    assert SitesBefore(s, "GG", 4, [], 7) == [];
    ScanIndex(s, "GG", 4, [], 7);
    assert SitesBefore(s, "GG", 4, [], 8) == [];
    ScanIndex(s, "GG", 4, [], 8);
    assert SitesBefore(s, "GG", 4, [], 9) == [];
    ScanIndex(s, "GG", 4, [], 9);
    assert SitesBefore(s, "GG", 4, [], 10) == [];
  }

  /** The PAM at index 8 gives the start 4, which is kept. */
  lemma FlankedPamKept()
    ensures GuideSites("TTTTAAAAGGCCCC", "GG", 4, []) == [4]
  {
    var s := "TTTTAAAAGGCCCC";
    OccursAtTwo(s, "GG");
    forall j | 0 <= j < 8
      ensures !OccursAt(s, "GG", j)
    {
      assert s[j] != 'G';
    }
    forall j | 9 <= j < 14
      ensures !OccursAt(s, "GG", j)
    {
      if j + 2 <= |s| {
        assert s[j + 1] == 'C';
      }
    }
    SkipNoHits(s, "GG", 4, [], 0, 8);
    assert SitesBefore(s, "GG", 4, [], 8) == [];
    ScanIndex(s, "GG", 4, [], 8);
    assert SitesBefore(s, "GG", 4, [], 9) == [4];
    SkipNoHits(s, "GG", 4, [], 9, 14);
  }

  /**
    With the excluded literal `AAAA` the same PAM is dropped: its window `s[4:8]` is `AAAA`,
    which contains the literal.
   */
  lemma ExcludedWindowDropped()
    ensures GuideSites("TTTTAAAAGGCCCC", "GG", 4, ["AAAA"]) == []
  {
    var s := "TTTTAAAAGGCCCC";
    assert GuideWindow(s, 4, 4) == s[4..8] == "AAAA";
    assert OccursAt("AAAA", "AAAA", 0);
    ScanIndex(s, "GG", 4, ["AAAA"], 0);
    assert SitesBefore(s, "GG", 4, ["AAAA"], 1) == [];
    ScanIndex(s, "GG", 4, ["AAAA"], 1);
    assert SitesBefore(s, "GG", 4, ["AAAA"], 2) == [];
    ScanIndex(s, "GG", 4, ["AAAA"], 2);
    assert SitesBefore(s, "GG", 4, ["AAAA"], 3) == [];
    ScanIndex(s, "GG", 4, ["AAAA"], 3);
    assert SitesBefore(s, "GG", 4, ["AAAA"], 4) == [];
    ScanIndex(s, "GG", 4, ["AAAA"], 4);
    assert SitesBefore(s, "GG", 4, ["AAAA"], 5) == [];
    ScanIndex(s, "GG", 4, ["AAAA"], 5);
    assert SitesBefore(s, "GG", 4, ["AAAA"], 6) == [];
    ScanIndex(s, "GG", 4, ["AAAA"], 6);
    assert SitesBefore(s, "GG", 4, ["AAAA"], 7) == [];
    ScanIndex(s, "GG", 4, ["AAAA"], 7);
    assert SitesBefore(s, "GG", 4, ["AAAA"], 8) == [];
    ScanIndex(s, "GG", 4, ["AAAA"], 8);
    assert SitesBefore(s, "GG", 4, ["AAAA"], 9) == [];
    ScanIndex(s, "GG", 4, ["AAAA"], 9);
    assert SitesBefore(s, "GG", 4, ["AAAA"], 10) == [];
    ScanIndex(s, "GG", 4, ["AAAA"], 10);
    assert SitesBefore(s, "GG", 4, ["AAAA"], 11) == [];
    ScanIndex(s, "GG", 4, ["AAAA"], 11);
    assert SitesBefore(s, "GG", 4, ["AAAA"], 12) == [];
    ScanIndex(s, "GG", 4, ["AAAA"], 12);
    assert SitesBefore(s, "GG", 4, ["AAAA"], 13) == [];
    ScanIndex(s, "GG", 4, ["AAAA"], 13);
    assert SitesBefore(s, "GG", 4, ["AAAA"], 14) == [];
  }

  /** `GGG` holds two overlapping PAMs, at 5 and 6; both are reported. */
  lemma OverlappingPamsBothKept()
    ensures GuideSites("AAAAAGGG", "GG", 4, []) == [1, 2]
  {
    var s := "AAAAAGGG";
    ScanIndex(s, "GG", 4, [], 0);
    assert SitesBefore(s, "GG", 4, [], 1) == [];
    ScanIndex(s, "GG", 4, [], 1);
    assert SitesBefore(s, "GG", 4, [], 2) == [];
    ScanIndex(s, "GG", 4, [], 2);
    assert SitesBefore(s, "GG", 4, [], 3) == [];
    ScanIndex(s, "GG", 4, [], 3);
    assert SitesBefore(s, "GG", 4, [], 4) == [];
    ScanIndex(s, "GG", 4, [], 4);
    assert SitesBefore(s, "GG", 4, [], 5) == [];
    ScanIndex(s, "GG", 4, [], 5);
    assert SitesBefore(s, "GG", 4, [], 6) == [1];
    ScanIndex(s, "GG", 4, [], 6);
    assert SitesBefore(s, "GG", 4, [], 7) == [1, 2];
    ScanIndex(s, "GG", 4, [], 7);
    assert SitesBefore(s, "GG", 4, [], 8) == [1, 2];
  }

  /**
    Discovery on `CCTTTTTTTT`: no PAM on the forward strand; the reverse complement
    `AAAAAAAAGG` has its PAM at 8, raw start 4, stored as 10 - 4 = 6, the end of the
    guide `s[2..6]` on the forward strand.
   */
  lemma ReverseStrandRemapped()
    ensures Select("CCTTTTTTTT", Discovery, "GG", 4, None) == GuidePair([], [6])
  {
    var s := "CCTTTTTTTT";
    var rc := ReverseComplement(s);
    assert rc[0] == Complement(s[9]) == 'A';
    assert rc[1] == Complement(s[8]) == 'A';
    assert rc[2] == Complement(s[7]) == 'A';
    assert rc[3] == Complement(s[6]) == 'A';
    assert rc[4] == Complement(s[5]) == 'A';
    assert rc[5] == Complement(s[4]) == 'A';
    assert rc[6] == Complement(s[3]) == 'A';
    assert rc[7] == Complement(s[2]) == 'A';
    assert rc[8] == Complement(s[1]) == 'G';
    assert rc[9] == Complement(s[0]) == 'G';
    assert rc == "AAAAAAAAGG";
    ScanIndex(s, "GG", 4, [], 0);
    assert SitesBefore(s, "GG", 4, [], 1) == [];
    ScanIndex(s, "GG", 4, [], 1);
    assert SitesBefore(s, "GG", 4, [], 2) == [];
    ScanIndex(s, "GG", 4, [], 2);
    assert SitesBefore(s, "GG", 4, [], 3) == [];
    ScanIndex(s, "GG", 4, [], 3);
    assert SitesBefore(s, "GG", 4, [], 4) == [];
    ScanIndex(s, "GG", 4, [], 4);
    assert SitesBefore(s, "GG", 4, [], 5) == [];
    ScanIndex(s, "GG", 4, [], 5);
    assert SitesBefore(s, "GG", 4, [], 6) == [];
    ScanIndex(s, "GG", 4, [], 6);
    assert SitesBefore(s, "GG", 4, [], 7) == [];
    ScanIndex(s, "GG", 4, [], 7);
    assert SitesBefore(s, "GG", 4, [], 8) == [];
    ScanIndex(s, "GG", 4, [], 8);
    assert SitesBefore(s, "GG", 4, [], 9) == [];
    ScanIndex(s, "GG", 4, [], 9);
    assert SitesBefore(s, "GG", 4, [], 10) == [];
    ScanIndex(rc, "GG", 4, [], 0);
    assert SitesBefore(rc, "GG", 4, [], 1) == [];
    ScanIndex(rc, "GG", 4, [], 1);
    assert SitesBefore(rc, "GG", 4, [], 2) == [];
    ScanIndex(rc, "GG", 4, [], 2);
    assert SitesBefore(rc, "GG", 4, [], 3) == [];
    ScanIndex(rc, "GG", 4, [], 3);
    assert SitesBefore(rc, "GG", 4, [], 4) == [];
    ScanIndex(rc, "GG", 4, [], 4);
    assert SitesBefore(rc, "GG", 4, [], 5) == [];
    ScanIndex(rc, "GG", 4, [], 5);
    assert SitesBefore(rc, "GG", 4, [], 6) == [];
    ScanIndex(rc, "GG", 4, [], 6);
    assert SitesBefore(rc, "GG", 4, [], 7) == [];
    ScanIndex(rc, "GG", 4, [], 7);
    assert SitesBefore(rc, "GG", 4, [], 8) == [];
    ScanIndex(rc, "GG", 4, [], 8);
    assert SitesBefore(rc, "GG", 4, [], 9) == [4];
    ScanIndex(rc, "GG", 4, [], 9);
    assert SitesBefore(rc, "GG", 4, [], 10) == [4];
  }
  /**
    The command line's defaults, PAM `GG` and 20-nucleotide guides, on `T`, twenty `A`s and
    `GG`: the only PAM is at 21, its start 21 - 20 = 1 is positive, and it is reported.
   */
  lemma DefaultsFlankedPamKept()
    ensures GuideSites("T" + seq(20, _ => 'A') + "GG", DefaultPam, DefaultGuideLength, []) == [1]
  {
    var s := "T" + seq(20, _ => 'A') + "GG";
    assert |s| == 23 && s[21] == 'G' && s[22] == 'G';
    assert forall j :: 1 <= j <= 20 ==> s[j] == 'A';
    OccursAtTwo(s, DefaultPam);
    SkipNoHits(s, DefaultPam, DefaultGuideLength, [], 0, 21);
    assert SitesBefore(s, DefaultPam, DefaultGuideLength, [], 21) == [];
    ScanIndex(s, DefaultPam, DefaultGuideLength, [], 21);
    assert SitesBefore(s, DefaultPam, DefaultGuideLength, [], 22) == [1];
    ScanIndex(s, DefaultPam, DefaultGuideLength, [], 22);
  }
}
