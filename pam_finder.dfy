/**
  The PAM scanner (`PAM_Finder`): scan one strand left to right for every occurrence of
  the PAM motif, overlapping ones included, and report for each occurrence at index `j`
  the candidate guide start `j - guideLength`, provided it is positive and the guide
  window before the PAM contains none of the excluded ("cut") literals.
 */
module PamScanner {
  import opened Wrappers
  import opened Strings

  /** The command line's defaults: the PAM `GG` (the "NGG" motif) and 20-nucleotide guides. */
  const DefaultPam: string := "GG"
  const DefaultGuideLength: int := 20

  /** An unset `--cut` behaves as an empty list of excluded literals; a given one is used as is. */
  function CutList(cut: Option<seq<string>>): (r: seq<string>)
    ensures cut.None? ==> r == []
    ensures cut.Some? ==> r == cut.value
  {
    cut.GetOr([])
  }

  /** The guide window `s[c : c + guideLength]`, sliced as Python slices. */
  function GuideWindow(s: string, c: int, guideLength: int): string {
    Slice(s, c, c + guideLength)
  }

  /**
    The PAM occurrence at `j` yields a kept candidate: the scanner reaches `j`
    (`j < |s|`), the candidate start `j - guideLength` is positive and its window is clean.
   */
  ghost predicate Accepted(s: string, pam: string, guideLength: int, cuts: seq<string>, j: int) {
    && j < |s|
    && OccursAt(s, pam, j)
    && j - guideLength > 0
    && !AnyContained(cuts, GuideWindow(s, j - guideLength, guideLength))
  }

  /** The candidates kept from the PAM occurrences at indices below `n`, in increasing order of index. */
  ghost function SitesBefore(s: string, pam: string, guideLength: int, cuts: seq<string>, n: nat): seq<int>
    requires n <= |s|
  {
    if n == 0 then []
    else
      SitesBefore(s, pam, guideLength, cuts, n - 1)
      + (if Accepted(s, pam, guideLength, cuts, n - 1) then [n - 1 - guideLength] else [])
  }

  /** Every candidate guide start of the strand `s`, in discovery order. */
  ghost function GuideSites(s: string, pam: string, guideLength: int, cuts: seq<string>): seq<int> {
    SitesBefore(s, pam, guideLength, cuts, |s|)
  }

  ghost predicate StrictlyIncreasing(xs: seq<int>) {
    forall a, b :: 0 <= a < b < |xs| ==> xs[a] < xs[b]
  }

  /**
    `PAM_Finder`: `position` is the search origin; each round finds the next PAM at or
    after it and moves the origin one past that PAM, so overlapping PAMs are all seen.
   */
  method PamFinder(s: string, pam: string, guideLength: int, cut: Option<seq<string>>)
    returns (locations: seq<int>)
    ensures locations == GuideSites(s, pam, guideLength, CutList(cut))
  {
    var cutList := CutList(cut);
    locations := [];
    var position := 0;
    while position < |s|
      invariant 0 <= position <= |s|
      invariant locations == SitesBefore(s, pam, guideLength, cutList, position)
      decreases |s| - position
    {
      var i := Find(s[position..], pam);
      if i < 0 {
        NoPamAhead(s, pam, guideLength, cutList, position);
        break;
      }
      NextPam(s, pam, guideLength, cutList, position);
      var j := position + i;

      var candidate := j - guideLength;
      var discard := AnyContained(cutList, GuideWindow(s, candidate, guideLength));
      if candidate > 0 && !discard {
        locations := locations + [candidate];
      }
      position := j + 1;
    }
  }

  /** When `find` reports no PAM from `position` on, the scan has already collected every candidate. */
  lemma NoPamAhead(s: string, pam: string, guideLength: int, cuts: seq<string>, position: nat)
    requires position <= |s|
    requires Find(s[position..], pam) < 0
    ensures GuideSites(s, pam, guideLength, cuts) == SitesBefore(s, pam, guideLength, cuts, position)
  {
    forall j | position <= j < |s|
      ensures !OccursAt(s, pam, j)
    {
      OccursInSuffix(s, pam, position, j - position);
    }
    SkipNoHits(s, pam, guideLength, cuts, position, |s|);
  }

  /**
    When `find` reports the next PAM `i` places after `position`, it lies inside the strand and
    the candidates up to and including it are those before `position` plus its own, if kept.
   */
  lemma NextPam(s: string, pam: string, guideLength: int, cuts: seq<string>, position: nat)
    requires position < |s|
    requires Find(s[position..], pam) >= 0
    ensures var j := position + Find(s[position..], pam);
      && j < |s|
      && SitesBefore(s, pam, guideLength, cuts, j + 1)
         == SitesBefore(s, pam, guideLength, cuts, position)
            + (if j - guideLength > 0 && !AnyContained(cuts, GuideWindow(s, j - guideLength, guideLength))
               then [j - guideLength] else [])
  {
    var j := NextPamAt(s, pam, position);
    SkipNoHits(s, pam, guideLength, cuts, position, j);
    assert SitesBefore(s, pam, guideLength, cuts, j) == SitesBefore(s, pam, guideLength, cuts, position);
    PamStep(s, pam, guideLength, cuts, j);
  }

  /** The PAM `find` reports lies inside the strand, and no PAM lies between `position` and it. */
  lemma NextPamAt(s: string, pam: string, position: nat) returns (j: nat)
    requires position < |s|
    requires Find(s[position..], pam) >= 0
    ensures j == position + Find(s[position..], pam)
    ensures j < |s| && OccursAt(s, pam, j)
    ensures forall k :: position <= k < j ==> !OccursAt(s, pam, k)
  {
    var i := Find(s[position..], pam);
    if pam == [] {
      assert OccursAt(s[position..], pam, 0);
    }
    forall k | position <= k < position + i
      ensures !OccursAt(s, pam, k)
    {
      OccursInSuffix(s, pam, position, k - position);
    }
    OccursInSuffix(s, pam, position, i);
    j := position + i;
  }

  /** Passing a PAM at `j` appends its candidate exactly when the candidate is kept. */
  lemma PamStep(s: string, pam: string, guideLength: int, cuts: seq<string>, j: nat)
    requires j < |s| && OccursAt(s, pam, j)
    ensures SitesBefore(s, pam, guideLength, cuts, j + 1)
         == SitesBefore(s, pam, guideLength, cuts, j)
            + (if j - guideLength > 0 && !AnyContained(cuts, GuideWindow(s, j - guideLength, guideLength))
               then [j - guideLength] else [])
  {
  }

  /** Indices where no PAM occurs add no candidate. */
  lemma {:induction false} SkipNoHits(s: string, pam: string, guideLength: int, cuts: seq<string>, a: nat, b: nat)
    requires a <= b <= |s|
    requires forall j :: a <= j < b ==> !OccursAt(s, pam, j)
    ensures SitesBefore(s, pam, guideLength, cuts, b) == SitesBefore(s, pam, guideLength, cuts, a)
  {
    if a < b {
      SkipNoHits(s, pam, guideLength, cuts, a, b - 1);
    }
  }

  lemma {:induction false} SitesBeforeMembership(s: string, pam: string, guideLength: int, cuts: seq<string>, n: nat, x: int)
    requires n <= |s|
    ensures x in SitesBefore(s, pam, guideLength, cuts, n)
        <==> x + guideLength < n && Accepted(s, pam, guideLength, cuts, x + guideLength)
  {
    if n > 0 {
      SitesBeforeMembership(s, pam, guideLength, cuts, n - 1, x);
      var prev := SitesBefore(s, pam, guideLength, cuts, n - 1);
      var kept := Accepted(s, pam, guideLength, cuts, n - 1);
      var extra := if kept then [n - 1 - guideLength] else [];
      assert SitesBefore(s, pam, guideLength, cuts, n) == prev + extra;
      assert x in prev + extra <==> x in prev || x in extra;
      assert x in extra <==> kept && x + guideLength == n - 1;
    }
  }

  lemma {:induction false} SitesBeforeIncreasing(s: string, pam: string, guideLength: int, cuts: seq<string>, n: nat)
    requires n <= |s|
    ensures StrictlyIncreasing(SitesBefore(s, pam, guideLength, cuts, n))
    ensures forall k :: 0 <= k < |SitesBefore(s, pam, guideLength, cuts, n)|
              ==> SitesBefore(s, pam, guideLength, cuts, n)[k] + guideLength < n
  {
    if n > 0 {
      SitesBeforeIncreasing(s, pam, guideLength, cuts, n - 1);
    }
  }

  /**
    Soundness and completeness at once: `x` is reported exactly when a PAM occurs at
    `x + guideLength`, the scan reaches it, `x > 0`, and the window at `x` is clean.
   */
  lemma GuideSitesExact(s: string, pam: string, guideLength: int, cuts: seq<string>, x: int)
    ensures x in GuideSites(s, pam, guideLength, cuts) <==> Accepted(s, pam, guideLength, cuts, x + guideLength)
  {
    SitesBeforeMembership(s, pam, guideLength, cuts, |s|, x);
  }

  /** Discovery order is strictly increasing: no duplicates, no reordering. */
  lemma GuideSitesIncreasing(s: string, pam: string, guideLength: int, cuts: seq<string>)
    ensures StrictlyIncreasing(GuideSites(s, pam, guideLength, cuts))
  {
    SitesBeforeIncreasing(s, pam, guideLength, cuts, |s|);
  }

  /**
    What a reported start `o` guarantees: `o > 0`; the PAM lies right after the guide,
    at `o + guideLength`, and inside the strand; and, for a non-negative guide length, the
    window `s[o .. o + guideLength]` lies inside the strand and contains no excluded literal.
   */
  lemma GuideSiteSound(s: string, pam: string, guideLength: int, cuts: seq<string>, o: int)
    requires o in GuideSites(s, pam, guideLength, cuts)
    ensures o > 0
    ensures OccursAt(s, pam, o + guideLength) && o + guideLength + |pam| <= |s|
    ensures guideLength >= 0 ==>
              && o + guideLength < |s|
              && forall k :: 0 <= k < |cuts| ==> !IsSubstring(cuts[k], s[o..o + guideLength])
  {
    GuideSitesExact(s, pam, guideLength, cuts, o);
  }

  /**
    Every PAM occurrence at `j` whose start `j - guideLength` is positive and whose
    window holds no excluded literal is reported, even when PAMs overlap.
   */
  lemma GuideSiteComplete(s: string, pam: string, guideLength: int, cuts: seq<string>, j: int)
    requires 0 <= guideLength && j < |s|
    requires OccursAt(s, pam, j) && j - guideLength > 0
    requires forall k :: 0 <= k < |cuts| ==> !IsSubstring(cuts[k], s[j - guideLength..j])
    ensures j - guideLength in GuideSites(s, pam, guideLength, cuts)
  {
    GuideSitesExact(s, pam, guideLength, cuts, j - guideLength);
  }

  /** A strand without the PAM yields no candidates. */
  lemma NoPamNoSites(s: string, pam: string, guideLength: int, cuts: seq<string>)
    requires !IsSubstring(pam, s)
    ensures GuideSites(s, pam, guideLength, cuts) == []
  {
    SkipNoHits(s, pam, guideLength, cuts, 0, |s|);
  }

  /** With no excluded literals (`--cut` unset or empty) nothing is discarded for exclusion. */
  lemma NoCutsNothingDiscarded(s: string, pam: string, guideLength: int, x: int)
    ensures x in GuideSites(s, pam, guideLength, CutList(None))
        <==> x > 0 && x + guideLength < |s| && OccursAt(s, pam, x + guideLength)
  {
    GuideSitesExact(s, pam, guideLength, [], x);
  }

  /** Excluded literals only ever remove candidates. */
  lemma CutsOnlyRemove(s: string, pam: string, guideLength: int, cuts: seq<string>, x: int)
    requires x in GuideSites(s, pam, guideLength, cuts)
    ensures x in GuideSites(s, pam, guideLength, [])
  {
    GuideSitesExact(s, pam, guideLength, cuts, x);
    GuideSitesExact(s, pam, guideLength, [], x);
  }
}
