/** The fixed parts of an EMBL entry that `Convert` fills in from the
    command line: the header from the `ID` line down to the `FH` lines,
    and the `source` feature that opens every feature table. */
module Header {
  import opened Text
  import Attributes
  import Features

  /** What the command line says about the whole genome. */
  datatype Metadata = Metadata(
    organism: string,
    taxonId: nat,
    project: string,
    description: string,
    authors: string,
    title: string,
    publication: string,
    genomeType: string,
    classification: string)

  /** The fields the header writes are free of newlines; the organism is
      not among them, as only the source feature writes it. */
  predicate OneLineHeaderFields(meta: Metadata) {
    '\n' !in meta.project && '\n' !in meta.authors
    && '\n' !in meta.title && '\n' !in meta.publication
    && '\n' !in meta.genomeType && '\n' !in meta.classification
  }

  /** Every field written into some line of an entry is free of newlines:
      the header's fields and the organism of the source feature. */
  predicate OneLineFields(meta: Metadata) {
    OneLineHeaderFields(meta) && '\n' !in meta.organism
  }

  /** How the line carrying the sequence's own accession starts. */
  const AccessionMark: string := "AC * _"

  /** The header lines `populated_header` fills in; the description and the
      contig number are accepted and not written. */
  function HeaderLines(numBp: nat, meta: Metadata, contigNumber: nat, sequenceIdentifier: string): seq<string>
  {
    [ "ID   XXX; XXX; " + meta.genomeType + "; genomic DNA; STD; " + meta.classification + "; " + NatStr(numBp) + " BP.",
      "XX",
      "AC   XXX;",
      "XX",
      AccessionMark + FilterWord(sequenceIdentifier),
      "XX",
      "PR   Project:" + meta.project + ";",
      "XX",
      "DE   XXX;",
      "XX",
      "RN   [1]",
      "RA   " + meta.authors + ";",
      "RT   \"" + meta.title + "\";",
      "RL   " + meta.publication + ".",
      "XX",
      "FH   Key             Location/Qualifiers",
      "FH" ]
  }

  /** `populated_header`. With one-line metadata the text reads back as the
      seventeen template lines, the fifth carrying the accession. */
  function PopulatedHeader(numBp: nat, meta: Metadata, contigNumber: nat, sequenceIdentifier: string): (r: string)
    ensures OneLineHeaderFields(meta) ==>
      ReadLines(r) == Suffixed(HeaderLines(numBp, meta, contigNumber, sequenceIdentifier))
    ensures OneLineHeaderFields(meta) ==>
      |ReadLines(r)| == 17 && ReadLines(r)[4] == AccessionMark + FilterWord(sequenceIdentifier) + "\n"
  {
    var lines := HeaderLines(numBp, meta, contigNumber, sequenceIdentifier);
    if OneLineHeaderFields(meta) then
      HeaderOneLine(numBp, meta, contigNumber, sequenceIdentifier);
      ReadLinesSuffixed(lines);
      Unlines(lines)
    else
      Unlines(lines)
  }

  /** Seventeen lines; the fifth, and no other, is the accession line, and
      it carries the identifier with every non-word character removed. */
  lemma HeaderLayout(numBp: nat, meta: Metadata, contigNumber: nat, sequenceIdentifier: string)
    ensures var lines := HeaderLines(numBp, meta, contigNumber, sequenceIdentifier);
      |lines| == 17
      && lines[4] == AccessionMark + FilterWord(sequenceIdentifier)
      && (forall k :: 0 <= k < |lines| && k != 4 ==> !StartsWith(lines[k], AccessionMark))
      && (forall k :: 6 <= k < |lines[4]| ==> IsWordChar(lines[4][k]))
  {
    var lines := HeaderLines(numBp, meta, contigNumber, sequenceIdentifier);
    var id := FilterWord(sequenceIdentifier);
    assert lines[4][6..] == id;
    forall k | 6 <= k < |lines[4]| ensures IsWordChar(lines[4][k]) {
      assert lines[4][k] == id[k - 6];
    }
    forall k | 0 <= k < |lines| && k != 4 ensures !StartsWith(lines[k], AccessionMark) {
      if |lines[k]| >= 6 {
        assert lines[k][..6] != AccessionMark by {
          if k == 0 || k == 6 || k == 11 || k == 12 || k == 13 {
            assert lines[k][0] != 'A';
          } else if k == 2 {
            assert lines[k][3] == ' ';
          } else {
            assert lines[k][0] != 'A';
          }
        }
      }
    }
  }

  /** The header does not depend on the description or the contig number. */
  lemma HeaderIgnoresDescription(numBp: nat, meta: Metadata, contigNumber: nat, otherDescription: string,
                                 otherContig: nat, sequenceIdentifier: string)
    ensures PopulatedHeader(numBp, meta, contigNumber, sequenceIdentifier)
      == PopulatedHeader(numBp, meta.(description := otherDescription), otherContig, sequenceIdentifier)
  {
  }

  /** The sequence length reads back from the `ID` line: split at blanks,
      its last two pieces are the number of bases and `BP.`. */
  lemma LengthReadsBack(numBp: nat, meta: Metadata, contigNumber: nat, sequenceIdentifier: string)
    ensures var pieces := Split(HeaderLines(numBp, meta, contigNumber, sequenceIdentifier)[0], ' ');
      |pieces| >= 2 && pieces[|pieces| - 1] == "BP." && ParseNat(pieces[|pieces| - 2]) == numBp
  {
    var line := HeaderLines(numBp, meta, contigNumber, sequenceIdentifier)[0];
    var front := "ID   XXX; XXX; " + meta.genomeType + "; genomic DNA; STD; " + meta.classification + ";";
    var number := NatStr(numBp) + [' '] + "BP.";
    assert line == front + [' '] + number;
    SplitAround(front, number, ' ');
    NatStrAvoids(numBp, ' ');
    SplitAround(NatStr(numBp), "BP.", ' ');
    SplitNoSep(NatStr(numBp), ' ');
    SplitNoSep("BP.", ' ');
    ParseNatStr(numBp);
  }

  /** With one-line fields, the header reads back as its seventeen lines. */
  lemma HeaderReadsBack(numBp: nat, meta: Metadata, contigNumber: nat, sequenceIdentifier: string)
    requires OneLineHeaderFields(meta)
    ensures var lines := HeaderLines(numBp, meta, contigNumber, sequenceIdentifier);
      ReadLines(PopulatedHeader(numBp, meta, contigNumber, sequenceIdentifier)) == Suffixed(lines)
  {
    HeaderOneLine(numBp, meta, contigNumber, sequenceIdentifier);
    ReadLinesSuffixed(HeaderLines(numBp, meta, contigNumber, sequenceIdentifier));
  }

  lemma HeaderOneLine(numBp: nat, meta: Metadata, contigNumber: nat, sequenceIdentifier: string)
    requires OneLineHeaderFields(meta)
    ensures OneLineEach(HeaderLines(numBp, meta, contigNumber, sequenceIdentifier))
  {
    var lines := HeaderLines(numBp, meta, contigNumber, sequenceIdentifier);
    NatStrAvoids(numBp, '\n');
    FilterWordAvoids(sequenceIdentifier);
    IdLiteralsOneLine();
    AccessionLiteralsOneLine();
    ReferenceLiteralsOneLine();
    FeatureHeaderLiteralsOneLine();
    assert forall k :: 0 <= k < |lines| ==> '\n' !in lines[k];
  }

  lemma IdLiteralsOneLine()
    ensures '\n' !in "ID   XXX; XXX; " && '\n' !in "; genomic DNA; STD; " && '\n' !in "; " && '\n' !in " BP."
  {
  }

  lemma AccessionLiteralsOneLine()
    ensures '\n' !in "XX" && '\n' !in "AC   XXX;" && '\n' !in AccessionMark && '\n' !in "PR   Project:" && '\n' !in ";"
  {
  }

  lemma ReferenceLiteralsOneLine()
    ensures '\n' !in "DE   XXX;" && '\n' !in "RN   [1]" && '\n' !in "RA   " && '\n' !in "RT   \""
    ensures '\n' !in "\";" && '\n' !in "RL   " && '\n' !in "."
  {
  }

  lemma FeatureHeaderLiteralsOneLine()
    ensures '\n' !in "FH   Key             Location/Qualifiers" && '\n' !in "FH"
  {
  }

  lemma FilterWordAvoids(s: string)
    ensures '\n' !in FilterWord(s)
  {
    var r := FilterWord(s);
    assert forall k :: 0 <= k < |r| ==> IsWordChar(r[k]);
  }

  // ---------------------------------------------------------------------
  // The source feature

  /** The lines `source_template` fills in: a key line spanning the whole
      sequence and four qualifiers, none of them wrapped. */
  function SourceLines(sequenceLength: nat, organism: string, taxonId: nat, sequenceName: string): seq<string>
  {
    [ "FT   source          1.." + NatStr(sequenceLength),
      Attributes.Gutter + ("/organism=\"" + organism + "\""),
      Attributes.Gutter + "/mol_type=\"genomic DNA\"",
      Attributes.Gutter + ("/db_xref=\"taxon:" + NatStr(taxonId) + "\""),
      Attributes.Gutter + ("/note=\"" + sequenceName + "\"") ]
  }

  /** A line behind the gutter starts with `FT`; with no newline of its own it has none. */
  lemma GutterLines(tails: seq<string>)
    ensures forall k :: 0 <= k < |tails| ==> StartsWith(Attributes.Gutter + tails[k], "FT")
    ensures forall k :: 0 <= k < |tails| && '\n' !in tails[k] ==> '\n' !in Attributes.Gutter + tails[k]
  {
    forall k | 0 <= k < |tails| ensures StartsWith(Attributes.Gutter + tails[k], "FT") {
      assert (Attributes.Gutter + tails[k])[..2] == "FT";
    }
  }

  /** `source_template`: it opens with the key line `feature_header` writes
      for a `source` from base 1 to the last base on the plus strand, and
      with one-line names it reads back as its five lines. */
  function SourceTemplate(sequenceLength: nat, organism: string, taxonId: nat, sequenceName: string): (r: string)
    ensures StartsWith(r, Features.FeatureHeader("source", 1, sequenceLength, '+'))
    ensures '\n' !in organism && '\n' !in sequenceName ==>
      ReadLines(r) == Suffixed(SourceLines(sequenceLength, organism, taxonId, sequenceName))
  {
    var lines := SourceLines(sequenceLength, organism, taxonId, sequenceName);
    SourceKeyLine(sequenceLength);
    UnlinesStartsWith(lines);
    if '\n' !in organism && '\n' !in sequenceName then
      SourceLinesShape(sequenceLength, organism, taxonId, sequenceName);
      ReadLinesSuffixed(lines);
      Unlines(lines)
    else
      Unlines(lines)
  }

  lemma UnlinesStartsWith(lines: seq<string>)
    requires lines != []
    ensures StartsWith(Unlines(lines), lines[0] + "\n")
  {
    assert Unlines(lines) == (lines[0] + "\n") + Unlines(lines[1..]);
    assert Unlines(lines)[..|lines[0]| + 1] == lines[0] + "\n";
  }

  /** The source feature is laid out like any other feature: its key line is
      the one `feature_header` writes for a `source` on the plus strand from
      base 1 to the last base, and each further line is a qualifier written
      as the attributes' qualifiers are. */
  lemma SourceIsFeature(sequenceLength: nat, organism: string, taxonId: nat, sequenceName: string)
    ensures var lines := SourceLines(sequenceLength, organism, taxonId, sequenceName);
      |lines| == 5
      && lines[0] == Features.HeaderLine("source", 1, sequenceLength, '+')
      && lines[1] == Attributes.Gutter + Attributes.Qualifier("organism", organism)
      && lines[2] == Attributes.Gutter + Attributes.Qualifier("mol_type", "genomic DNA")
      && lines[3] == Attributes.Gutter + Attributes.Qualifier("db_xref", "taxon:" + NatStr(taxonId))
      && lines[4] == Attributes.Gutter + Attributes.Qualifier("note", sequenceName)
  {
    SourceKeyLine(sequenceLength);
    QualifierLiteral(organism);
    MolTypeLiteral();
    TaxonLiteral(NatStr(taxonId));
    NoteLiteral(sequenceName);
  }

  lemma SourceKeyLine(sequenceLength: nat)
    ensures "FT   source          1.." + NatStr(sequenceLength) == Features.HeaderLine("source", 1, sequenceLength, '+')
  {
    SourcePad();
    SourceSpan(sequenceLength);
    AppendAssoc("FT   source          ", "1..", NatStr(sequenceLength));
  }

  lemma SourcePad()
    ensures "FT   " + "source" + Spaces(16 - |"source"|) == "FT   source          "
  {
    assert Spaces(10) == "          ";
  }

  lemma SourceSpan(sequenceLength: nat)
    ensures Features.Location(1, sequenceLength, '+') == "1.." + NatStr(sequenceLength)
  {
    assert NatStr(1) == "1";
  }

  lemma QualifierLiteral(organism: string)
    ensures Attributes.Gutter + ("/organism=\"" + organism + "\"") == Attributes.Gutter + Attributes.Qualifier("organism", organism)
  {
    assert "/organism=\"" == "/" + "organism" + "=\"";
  }

  lemma MolTypeLiteral()
    ensures Attributes.Gutter + "/mol_type=\"genomic DNA\"" == Attributes.Gutter + Attributes.Qualifier("mol_type", "genomic DNA")
  {
    assert "/mol_type=\"genomic DNA\"" == "/" + "mol_type" + "=\"" + "genomic DNA" + "\"";
  }

  lemma TaxonLiteral(taxon: string)
    ensures Attributes.Gutter + ("/db_xref=\"taxon:" + taxon + "\"") == Attributes.Gutter + Attributes.Qualifier("db_xref", "taxon:" + taxon)
  {
    assert "/db_xref=\"taxon:" == "/" + "db_xref" + "=\"" + "taxon:";
  }

  lemma NoteLiteral(name: string)
    ensures Attributes.Gutter + ("/note=\"" + name + "\"") == Attributes.Gutter + Attributes.Qualifier("note", name)
  {
    assert "/note=\"" == "/" + "note" + "=\"";
  }

  /** The qualifiers of the source feature hold a newline only where a name does. */
  lemma SourceTailsOneLine(organism: string, taxonId: nat, sequenceName: string)
    requires '\n' !in organism && '\n' !in sequenceName
    ensures OneLineEach(["/organism=\"" + organism + "\"", "/mol_type=\"genomic DNA\"",
                         "/db_xref=\"taxon:" + NatStr(taxonId) + "\"", "/note=\"" + sequenceName + "\""])
  {
    NatStrAvoids(taxonId, '\n');
  }

  /** With one-line names, the source feature reads back as its five lines,
      each of them starting with `FT`. */
  lemma SourceReadsBack(sequenceLength: nat, organism: string, taxonId: nat, sequenceName: string)
    requires '\n' !in organism && '\n' !in sequenceName
    ensures var lines := SourceLines(sequenceLength, organism, taxonId, sequenceName);
      ReadLines(SourceTemplate(sequenceLength, organism, taxonId, sequenceName)) == Suffixed(lines)
      && forall k :: 0 <= k < |lines| ==> StartsWith(lines[k], "FT")
  {
    SourceLinesShape(sequenceLength, organism, taxonId, sequenceName);
    ReadLinesSuffixed(SourceLines(sequenceLength, organism, taxonId, sequenceName));
  }

  lemma SourceLinesShape(sequenceLength: nat, organism: string, taxonId: nat, sequenceName: string)
    requires '\n' !in organism && '\n' !in sequenceName
    ensures var lines := SourceLines(sequenceLength, organism, taxonId, sequenceName);
      OneLineEach(lines) && forall k :: 0 <= k < |lines| ==> StartsWith(lines[k], "FT")
  {
    var lines := SourceLines(sequenceLength, organism, taxonId, sequenceName);
    var tails := ["/organism=\"" + organism + "\"", "/mol_type=\"genomic DNA\"",
                  "/db_xref=\"taxon:" + NatStr(taxonId) + "\"", "/note=\"" + sequenceName + "\""];
    SourceTailsOneLine(organism, taxonId, sequenceName);
    GutterLines(tails);
    NatStrAvoids(sequenceLength, '\n');
    assert lines[0][..2] == "FT";
    assert lines == [lines[0]] + seq(4, k requires 0 <= k < 4 => Attributes.Gutter + tails[k]);
  }
}
