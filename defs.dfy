/**
 * The fixed vocabulary of sequence-file names: the extensions that mark a
 * FASTA or a FASTQ file (plain or gzip-compressed), the read-1 and read-2
 * tags, and the canonical forms used when new files are written.
 */
module Defs {
  import opened PyStr

  // Canonical forms used when creating files.
  const FastaExt: string := ".fasta"
  const FastqExt: string := ".fastq"
  const R1Tag: string := "R1"
  const R2Tag: string := "R2"

  // Sets used to recognise file kinds and mate tags.
  const FastaExtSet: set<string> := {".fa", ".fasta", ".fa.gz", ".fasta.gz"}
  const FastqExtSet: set<string> := {".fq", ".fastq", ".fastq.gz", ".fq.gz"}
  const R1TagSet: set<string> := {"R1", "r1"}
  const R2TagSet: set<string> := {"R2", "r2"}

  /** No extension is both a FASTA and a FASTQ extension. */
  lemma ExtSetsDisjoint()
    ensures FastaExtSet !! FastqExtSet
  {
  }

  /** No FASTA extension is a suffix of a FASTQ extension, nor the reverse. */
  lemma NoExtEndsWithOther()
    ensures forall a, b :: a in FastaExtSet && b in FastqExtSet ==>
      !EndsWith(a, b) && !EndsWith(b, a)
  {
  }

  /** Classifying a file name by `endswith` against the two extension sets is
      unambiguous: no name ends with both a FASTA and a FASTQ extension. */
  lemma ClassificationUnambiguous(name: string)
    ensures !(EndsWithAny(name, FastaExtSet) && EndsWithAny(name, FastqExtSet))
  {
    if EndsWithAny(name, FastaExtSet) && EndsWithAny(name, FastqExtSet) {
      var a :| a in FastaExtSet && EndsWith(name, a);
      var b :| b in FastqExtSet && EndsWith(name, b);
      NoExtEndsWithOther();
      if |a| <= |b| {
        SuffixOfSuffix(name, a, b);
      } else {
        SuffixOfSuffix(name, b, a);
      }
    }
  }

  /** Each extension set holds both plain forms and their `.gz` forms, and
      nothing else. */
  lemma ExtSetsHoldPlainAndGzip()
    ensures FastaExtSet == {".fa", ".fasta"} + {".fa" + ".gz", ".fasta" + ".gz"}
    ensures FastqExtSet == {".fq", ".fastq"} + {".fq" + ".gz", ".fastq" + ".gz"}
  {
    assert ".fa" + ".gz" == ".fa.gz" && ".fasta" + ".gz" == ".fasta.gz";
    assert ".fq" + ".gz" == ".fq.gz" && ".fastq" + ".gz" == ".fastq.gz";
  }

  /** The canonical forms belong to their sets, and the tag sets are disjoint. */
  lemma CanonicalFormsRecognised()
    ensures FastaExt in FastaExtSet && FastqExt in FastqExtSet
    ensures R1Tag in R1TagSet && R2Tag in R2TagSet
    ensures R1TagSet !! R2TagSet
  {
  }
}
