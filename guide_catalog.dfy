/**
  The guide catalog: for every target gene, the candidate guide starts on the forward
  strand and on the reverse strand, chosen by the application aim (`--aim`). Reverse-strand
  starts are found on the reverse complement and re-expressed as `len(gene) - x`.
 */
module GuideCatalog {
  import opened Wrappers
  import opened Strings
  import opened Strand
  import opened PamScanner

  /**
    The aim: `d` discovery (both strands), `i` CRISPR interference and `s` screening
    (reverse strand only), `<n>a` activation within `n` base pairs, `g` binding strength
    (no catalog is built).
   */
  datatype Aim = Discovery | Interference | Screening | Activation(cutoff: int) | BindingStrength

  /** The catalog entry of one gene: `[forward offsets, reverse offsets]`. */
  datatype GuidePair = GuidePair(forward: seq<int>, reverse: seq<int>)

  /**
    `[n - x for x in xs]`: reverse-strand offsets in forward-strand coordinates. Each
    remapped offset and its raw offset sum to `n`, position by position.
   */
  function Remap(n: int, xs: seq<int>): (r: seq<int>)
    ensures |r| == |xs|
    ensures forall k :: 0 <= k < |xs| ==> r[k] + xs[k] == n
  {
    seq(|xs|, k requires 0 <= k < |xs| => n - xs[k])
  }

  /** `[x for x in xs if x < cutoff]`: the activation filter, order kept. */
  function BelowCutoff(xs: seq<int>, cutoff: int): (r: seq<int>)
    ensures |r| <= |xs|
    ensures forall x :: x in r <==> x in xs && x < cutoff
  {
    if xs == [] then []
    else (if xs[0] < cutoff then [xs[0]] else []) + BelowCutoff(xs[1..], cutoff)
  }

  ghost predicate StrictlyDecreasing(xs: seq<int>) {
    forall a, b :: 0 <= a < b < |xs| ==> xs[a] > xs[b]
  }

  /** The forward-strand candidates of gene sequence `s`. */
  ghost function ForwardSites(s: string, pam: string, guideLength: int, cut: Option<seq<string>>): seq<int> {
    GuideSites(s, pam, guideLength, CutList(cut))
  }

  /** The reverse-strand candidates of gene sequence `s`, remapped to forward-strand coordinates. */
  ghost function ReverseSites(s: string, pam: string, guideLength: int, cut: Option<seq<string>>): seq<int> {
    Remap(|s|, GuideSites(ReverseComplement(s), pam, guideLength, CutList(cut)))
  }

  /**
    The entry one gene gets under `aim`. Interference and screening give an empty forward
    list: the source appends to an entry it never created, and this repair keeps the
    `[forward, reverse]` layout every other aim's entry has.
   */
  ghost function Select(s: string, aim: Aim, pam: string, guideLength: int, cut: Option<seq<string>>): GuidePair
    requires !aim.BindingStrength?
  {
    match aim
    case Discovery =>
      GuidePair(ForwardSites(s, pam, guideLength, cut), ReverseSites(s, pam, guideLength, cut))
    case Interference =>
      GuidePair([], ReverseSites(s, pam, guideLength, cut))
    case Screening =>
      GuidePair([], ReverseSites(s, pam, guideLength, cut))
    case Activation(cutoff) =>
      GuidePair(BelowCutoff(ForwardSites(s, pam, guideLength, cut), cutoff),
                BelowCutoff(ReverseSites(s, pam, guideLength, cut), cutoff))
  }

  /** The whole catalog: one entry per gene, none at all for the binding-strength aim. */
  ghost function Catalog(targets: map<string, string>, aim: Aim, pam: string, guideLength: int,
                         cut: Option<seq<string>>): map<string, GuidePair>
  {
    if aim.BindingStrength? then map[]
    else map g | g in targets :: Select(targets[g], aim, pam, guideLength, cut)
  }

  /** The body of the per-gene loop of each aim. */
  method GuidesForGene(s: string, aim: Aim, pam: string, guideLength: int, cut: Option<seq<string>>)
    returns (pair: GuidePair)
    requires !aim.BindingStrength?
    ensures pair == Select(s, aim, pam, guideLength, cut)
  {
    match aim
    case Discovery =>
      var posLocations := PamFinder(s, pam, guideLength, cut);
      var locations := PamFinder(ReverseComplement(s), pam, guideLength, cut);
      var negLocations := Remap(|s|, locations);
      pair := GuidePair(posLocations, negLocations);
    case Interference =>
      var locations := PamFinder(ReverseComplement(s), pam, guideLength, cut);
      pair := GuidePair([], Remap(|s|, locations));
    case Screening =>
      var locations := PamFinder(ReverseComplement(s), pam, guideLength, cut);
      pair := GuidePair([], Remap(|s|, locations));
    case Activation(cutoff) =>
      var posLocations := PamFinder(s, pam, guideLength, cut);
      posLocations := BelowCutoff(posLocations, cutoff);
      var locations := PamFinder(ReverseComplement(s), pam, guideLength, cut);
      var negLocations := Remap(|s|, locations);
      negLocations := BelowCutoff(negLocations, cutoff);
      pair := GuidePair(posLocations, negLocations);
  }

  /** Fill `guide_list` gene by gene. */
  method BuildCatalog(targets: map<string, string>, aim: Aim, pam: string, guideLength: int,
                      cut: Option<seq<string>>)
    returns (guideList: map<string, GuidePair>)
    ensures guideList == Catalog(targets, aim, pam, guideLength, cut)
    ensures aim.BindingStrength? ==> guideList == map[]
    ensures !aim.BindingStrength? ==> guideList.Keys == targets.Keys
  {
    if aim.BindingStrength? {
      return map[];
    }
    guideList := FillEntries(targets, aim, pam, guideLength, cut);
    assert guideList == map g | g in targets :: Select(targets[g], aim, pam, guideLength, cut);
  }

  /** The per-gene loop itself: every gene gets the entry its aim prescribes. */
  method FillEntries(targets: map<string, string>, aim: Aim, pam: string, guideLength: int,
                     cut: Option<seq<string>>)
    returns (guideList: map<string, GuidePair>)
    requires !aim.BindingStrength?
    ensures guideList.Keys == targets.Keys
    ensures forall g :: g in guideList ==> guideList[g] == Select(targets[g], aim, pam, guideLength, cut)
  {
    guideList := map[];
    var genes := targets.Keys;
    while genes != {}
      invariant genes <= targets.Keys
      invariant guideList.Keys == targets.Keys - genes
      invariant forall g :: g in guideList ==> guideList[g] == Select(targets[g], aim, pam, guideLength, cut)
      decreases |genes|
    {
      var gene :| gene in genes;
      var pair := GuidesForGene(targets[gene], aim, pam, guideLength, cut);
      guideList := guideList[gene := pair];
      genes := genes - {gene};
    }
  }

  /** Remapping is its own inverse: `n - (n - x) == x`. */
  lemma RemapInvolutive(n: int, xs: seq<int>)
    ensures Remap(n, Remap(n, xs)) == xs
  {
  }

  /** `y` is a remapped offset exactly when `n - y` is an original one. */
  lemma RemapMembership(n: int, xs: seq<int>, y: int)
    ensures y in Remap(n, xs) <==> n - y in xs
  {
    if n - y in xs {
      var k :| 0 <= k < |xs| && xs[k] == n - y;
      assert Remap(n, xs)[k] == y;
    }
  }

  /** The filter keeps a list whose every element is below the cutoff. */
  lemma {:induction false} BelowCutoffKeepsAll(xs: seq<int>, cutoff: int)
    requires forall k :: 0 <= k < |xs| ==> xs[k] < cutoff
    ensures BelowCutoff(xs, cutoff) == xs
  {
    if xs != [] {
      BelowCutoffKeepsAll(xs[1..], cutoff);
    }
  }

  /** The filter keeps the order of an increasing list. */
  lemma {:induction false} BelowCutoffIncreasing(xs: seq<int>, cutoff: int)
    requires StrictlyIncreasing(xs)
    ensures StrictlyIncreasing(BelowCutoff(xs, cutoff))
  {
    if xs != [] {
      var tail := xs[1..];
      assert StrictlyIncreasing(tail);
      BelowCutoffIncreasing(tail, cutoff);
      var rest := BelowCutoff(tail, cutoff);
      forall k | 0 <= k < |rest|
        ensures xs[0] < rest[k]
      {
        assert rest[k] in tail;
      }
    }
  }

  /** The filter keeps the order of a decreasing list. */
  lemma {:induction false} BelowCutoffDecreasing(xs: seq<int>, cutoff: int)
    requires StrictlyDecreasing(xs)
    ensures StrictlyDecreasing(BelowCutoff(xs, cutoff))
  {
    if xs != [] {
      var tail := xs[1..];
      assert StrictlyDecreasing(tail);
      BelowCutoffDecreasing(tail, cutoff);
      var rest := BelowCutoff(tail, cutoff);
      forall k | 0 <= k < |rest|
        ensures xs[0] > rest[k]
      {
        assert rest[k] in tail;
      }
    }
  }

  /**
    `y` is a reverse offset exactly when the reverse-strand scan keeps the PAM at
    `|s| - y + guideLength` of the reverse complement.
   */
  lemma ReverseSitesExact(s: string, pam: string, guideLength: int, cut: Option<seq<string>>, y: int)
    ensures y in ReverseSites(s, pam, guideLength, cut)
        <==> Accepted(ReverseComplement(s), pam, guideLength, CutList(cut), |s| - y + guideLength)
  {
    RemapMembership(|s|, GuideSites(ReverseComplement(s), pam, guideLength, CutList(cut)), y);
    GuideSitesExact(ReverseComplement(s), pam, guideLength, CutList(cut), |s| - y);
  }

  /**
    Remapped reverse offsets lie in `[guideLength + |pam|, |s| - 1]` (a raw offset is at
    least 1 and its PAM ends inside the strand), and they come in decreasing order.
   */
  lemma ReverseSitesBounds(s: string, pam: string, guideLength: int, cut: Option<seq<string>>)
    ensures forall y :: y in ReverseSites(s, pam, guideLength, cut) ==> guideLength + |pam| <= y <= |s| - 1
    ensures StrictlyDecreasing(ReverseSites(s, pam, guideLength, cut))
  {
    var raw := GuideSites(ReverseComplement(s), pam, guideLength, CutList(cut));
    forall y | y in ReverseSites(s, pam, guideLength, cut)
      ensures guideLength + |pam| <= y <= |s| - 1
    {
      RemapMembership(|s|, raw, y);
      GuideSiteSound(ReverseComplement(s), pam, guideLength, CutList(cut), |s| - y);
    }
    GuideSitesIncreasing(ReverseComplement(s), pam, guideLength, CutList(cut));
  }

  /**
    A reverse offset `y` read on the forward strand: the PAM occupies `s[y - L - |pam| .. y - L]`
    as a reverse complement, and (for `L >= 0`) the guide is the reverse complement of
    `s[y - L .. y]`, which holds no excluded literal. So `y` is the end of the guide.
   */
  lemma ReverseSiteOnForwardStrand(s: string, pam: string, guideLength: int, cut: Option<seq<string>>, y: int)
    requires y in ReverseSites(s, pam, guideLength, cut)
    ensures 0 <= y - guideLength - |pam| <= y - guideLength <= |s|
    ensures ReverseComplement(s[y - guideLength - |pam|..y - guideLength]) == pam
    ensures guideLength >= 0 ==>
              && 0 <= y - guideLength && y < |s|
              && forall k :: 0 <= k < |CutList(cut)| ==>
                   !IsSubstring(CutList(cut)[k], ReverseComplement(s[y - guideLength..y]))
  {
    var rc := ReverseComplement(s);
    var x := |s| - y;
    RemapMembership(|s|, GuideSites(rc, pam, guideLength, CutList(cut)), y);
    GuideSiteSound(rc, pam, guideLength, CutList(cut), x);
    ReverseComplementSlice(s, x + guideLength, x + guideLength + |pam|);
    if guideLength >= 0 {
      ReverseComplementSlice(s, x, x + guideLength);
    }
  }

  /**
    Discovery: the forward list is exactly the forward-strand hits in increasing order,
    the reverse list exactly the remapped reverse-strand hits in decreasing order.
   */
  lemma DiscoveryLists(s: string, pam: string, guideLength: int, cut: Option<seq<string>>)
    ensures var p := Select(s, Discovery, pam, guideLength, cut);
      && StrictlyIncreasing(p.forward)
      && StrictlyDecreasing(p.reverse)
      && (forall x :: x in p.forward <==> Accepted(s, pam, guideLength, CutList(cut), x + guideLength))
      && (forall y :: y in p.reverse
            <==> Accepted(ReverseComplement(s), pam, guideLength, CutList(cut), |s| - y + guideLength))
  {
    GuideSitesIncreasing(s, pam, guideLength, CutList(cut));
    ReverseSitesBounds(s, pam, guideLength, cut);
    forall x
      ensures x in ForwardSites(s, pam, guideLength, cut) <==> Accepted(s, pam, guideLength, CutList(cut), x + guideLength)
    {
      GuideSitesExact(s, pam, guideLength, CutList(cut), x);
    }
    forall y
      ensures y in ReverseSites(s, pam, guideLength, cut)
          <==> Accepted(ReverseComplement(s), pam, guideLength, CutList(cut), |s| - y + guideLength)
    {
      ReverseSitesExact(s, pam, guideLength, cut, y);
    }
  }

  /**
    Activation keeps, in discovery order, exactly the discovery offsets below the cutoff on
    each strand; so every stored offset is below the cutoff.
   */
  lemma ActivationBelowCutoff(s: string, cutoff: int, pam: string, guideLength: int, cut: Option<seq<string>>)
    ensures var a, d := Select(s, Activation(cutoff), pam, guideLength, cut), Select(s, Discovery, pam, guideLength, cut);
      && (forall x :: x in a.forward <==> x in d.forward && x < cutoff)
      && (forall y :: y in a.reverse <==> y in d.reverse && y < cutoff)
      && StrictlyIncreasing(a.forward)
      && StrictlyDecreasing(a.reverse)
  {
    DiscoveryLists(s, pam, guideLength, cut);
    BelowCutoffIncreasing(ForwardSites(s, pam, guideLength, cut), cutoff);
    BelowCutoffDecreasing(ReverseSites(s, pam, guideLength, cut), cutoff);
  }

  /** Interference and screening never fill the forward list, and keep discovery's reverse list. */
  lemma ReverseOnlyAims(s: string, aim: Aim, pam: string, guideLength: int, cut: Option<seq<string>>)
    requires aim == Interference || aim == Screening
    ensures Select(s, aim, pam, guideLength, cut).forward == []
    ensures Select(s, aim, pam, guideLength, cut).reverse == Select(s, Discovery, pam, guideLength, cut).reverse
  {
  }

  /**
    Every offset in the catalog is an in-bounds forward-strand coordinate of its gene:
    forward starts in `[1, |s|)`, reverse offsets in `[0, |s|)`.
   */
  lemma CatalogInBounds(targets: map<string, string>, aim: Aim, pam: string, guideLength: int,
                        cut: Option<seq<string>>, g: string)
    requires guideLength >= 0
    requires g in Catalog(targets, aim, pam, guideLength, cut)
    ensures g in targets
    ensures forall x :: x in Catalog(targets, aim, pam, guideLength, cut)[g].forward ==> 0 < x < |targets[g]|
    ensures forall y :: y in Catalog(targets, aim, pam, guideLength, cut)[g].reverse ==> 0 <= y < |targets[g]|
  {
    var s := targets[g];
    var p := Catalog(targets, aim, pam, guideLength, cut)[g];
    ReverseSitesBounds(s, pam, guideLength, cut);
    forall x | x in p.forward
      ensures 0 < x < |s|
    {
      assert x in ForwardSites(s, pam, guideLength, cut);
      GuideSiteSound(s, pam, guideLength, CutList(cut), x);
    }
    forall y | y in p.reverse
      ensures 0 <= y < |s|
    {
      assert y in ReverseSites(s, pam, guideLength, cut);
    }
  }
}
