/**
  The reverse strand of a nucleotide sequence: each base replaced by its Watson-Crick
  complement (A-T, C-G, and the IUPAC ambiguity codes M-K, R-Y, V-B, H-D), read backwards.
  This is the operation the catalog builder applies before scanning the reverse strand.
 */
module Strand {

  /** The DNA complement of one upper-case IUPAC base; W, S, N and any other letter map to themselves. */
  function Complement(c: char): char {
    match c
    case 'A' => 'T'
    case 'T' => 'A'
    case 'C' => 'G'
    case 'G' => 'C'
    case 'M' => 'K'
    case 'K' => 'M'
    case 'R' => 'Y'
    case 'Y' => 'R'
    case 'V' => 'B'
    case 'B' => 'V'
    case 'H' => 'D'
    case 'D' => 'H'
    case _ => c
  }

  /** Only the four unambiguous bases occur in `s`. */
  predicate IsDna(s: string) {
    forall k :: 0 <= k < |s| ==> s[k] in {'A', 'C', 'G', 'T'}
  }

  /**
    `Seq.reverse_complement`: position `k` holds the complement of the base `k` places from
    the end, so complementing the result and reading it backwards gives `s` again.
   */
  function ReverseComplement(s: string): (r: string)
    ensures |r| == |s|
    ensures forall k :: 0 <= k < |s| ==> Complement(r[|s| - 1 - k]) == s[k]
  {
    seq(|s|, k requires 0 <= k < |s| => Complement(s[|s| - 1 - k]))
  }

  /** Complementing a base twice gives it back. */
  lemma ComplementInvolutive(c: char)
    ensures Complement(Complement(c)) == c
  {
  }

  /** Taking the reverse strand twice gives the forward strand back. */
  lemma ReverseComplementInvolutive(s: string)
    ensures ReverseComplement(ReverseComplement(s)) == s
  {
    var r := ReverseComplement(ReverseComplement(s));
    forall k | 0 <= k < |s|
      ensures r[k] == s[k]
    {
      ComplementInvolutive(s[k]);
    }
  }

  /** The reverse complement of a DNA sequence is a DNA sequence. */
  lemma ReverseComplementIsDna(s: string)
    requires IsDna(s)
    ensures IsDna(ReverseComplement(s))
  {
    var r := ReverseComplement(s);
    forall k | 0 <= k < |r|
      ensures r[k] in {'A', 'C', 'G', 'T'}
    {
      var c := s[|s| - 1 - k];
      assert c == 'A' || c == 'C' || c == 'G' || c == 'T';
      assert r[k] == Complement(c);
    }
  }

  /**
    A stretch `[a, b)` of the reverse strand is the reverse complement of the stretch
    `[|s| - b, |s| - a)` of the forward strand: this is how reverse-strand offsets map back.
   */
  lemma ReverseComplementSlice(s: string, a: int, b: int)
    requires 0 <= a <= b <= |s|
    ensures ReverseComplement(s)[a..b] == ReverseComplement(s[|s| - b..|s| - a])
  {
    var r, t := ReverseComplement(s), s[|s| - b..|s| - a];
    var rt := ReverseComplement(t);
    forall k | 0 <= k < b - a
      ensures r[a + k] == rt[k]
    {
      assert t[|t| - 1 - k] == s[|s| - 1 - (a + k)];
    }
    assert r[a..b] == rt;
  }
}
