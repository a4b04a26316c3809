/** One EMBL feature as `Convert` writes it: the `FT` key line with the
    feature type padded to 16 columns and the location, one block of
    qualifier lines per attribute, and for a `CDS` a closing
    `/transl_table=` qualifier. */
module Features {
  import opened Text
  import opened Attributes

  /** Feature types that are not written at all. */
  const IgnoredTypes: set<string> := {"ncRNA"}

  /** The one type override: a feature with an attribute value that starts
      with `16S ribosomal RNA` is written as an `rRNA`. */
  const RibosomalPrefix: string := "16S ribosomal RNA"
  const RibosomalType: string := "rRNA"

  /** The anchored override pattern holds no metacharacter, so matching it is a prefix test. */
  predicate Ribosomal(value: string) {
    StartsWith(value, RibosomalPrefix)
  }

  // ---------------------------------------------------------------------
  // The key line

  /** `start..end`. */
  function Span(start: nat, end: nat): string
  {
    NatStr(start) + ".." + NatStr(end)
  }

  /** The location as section 3.4 of the INSDC Feature Table Definition
      writes it: the span, inside `complement(...)` on the minus strand. */
  function Location(start: nat, end: nat, strand: char): string
  {
    if strand == '-' then "complement(" + Span(start, end) + ")" else Span(start, end)
  }

  /** The span reads back: split at its dots, it gives the start, an empty
      piece and the end, each of which parses to its number. */
  lemma SpanReadsBack(start: nat, end: nat)
    ensures Split(Span(start, end), '.') == [NatStr(start), "", NatStr(end)]
    ensures ParseNat(NatStr(start)) == start && ParseNat(NatStr(end)) == end
  {
    NatStrAvoids(start, '.');
    NatStrAvoids(end, '.');
    SplitNoSep(NatStr(start), '.');
    SplitNoSep(NatStr(end), '.');
    SplitNoSep("", '.');
    assert Span(start, end) == NatStr(start) + ['.'] + ("" + ['.'] + NatStr(end));
    SplitAround(NatStr(start), "" + ['.'] + NatStr(end), '.');
    SplitAround("", NatStr(end), '.');
    ParseNatStr(start);
    ParseNatStr(end);
  }

  /** The key line without its newline: `FT`, three blanks, the type
      padded with blanks to 16 columns, the location. */
  function HeaderLine(featureType: string, start: nat, end: nat, strand: char): string
  {
    "FT   " + featureType + Spaces(16 - |featureType|) + Location(start, end, strand)
  }

  /** `feature_header`. */
  function FeatureHeader(featureType: string, start: nat, end: nat, strand: char): (r: string)
    ensures StartsWith(r, "FT   " + featureType) && EndsWithNewline(r)
    ensures '\n' !in featureType ==> '\n' !in r[..|r| - 1]
    ensures |featureType| <= 16 ==>
      (|r| == 22 + |Location(start, end, strand)| && r[21..|r| - 1] == Location(start, end, strand)
       && forall k :: 5 + |featureType| <= k < 21 ==> r[k] == ' ')
  {
    var line := HeaderLine(featureType, start, end, strand);
    HeaderColumns(featureType, start, end, strand);
    HeaderLineShape(featureType, start, end, strand);
    assert (line + "\n")[..|line|] == line;
    line + "\n"
  }

  lemma HeaderLineShape(featureType: string, start: nat, end: nat, strand: char)
    ensures '\n' !in featureType ==> '\n' !in HeaderLine(featureType, start, end, strand)
  {
    if '\n' !in featureType {
      HeaderLineNoNewline(featureType, start, end, strand);
    }
  }

  lemma Parts<T>(a: seq<T>, b: seq<T>, c: seq<T>)
    ensures (a + b + c)[..|a|] == a
    ensures (a + b + c)[|a| + |b|..] == c
    ensures forall k :: |a| <= k < |a| + |b| ==> (a + b + c)[k] == b[k - |a|]
  {
  }

  /** The key line's columns: the type from column 5, blanks up to column
      21, the location from column 21 to the end of the line; a type longer
      than 16 characters pushes the location right behind it. */
  lemma HeaderColumns(featureType: string, start: nat, end: nat, strand: char)
    ensures StartsWith(HeaderLine(featureType, start, end, strand), "FT   " + featureType)
    ensures |featureType| <= 16 ==>
      var line := HeaderLine(featureType, start, end, strand);
      |line| == 21 + |Location(start, end, strand)| && line[21..] == Location(start, end, strand)
      && forall k :: 5 + |featureType| <= k < 21 ==> line[k] == ' '
    ensures |featureType| > 16 ==>
      HeaderLine(featureType, start, end, strand)[5 + |featureType|..] == Location(start, end, strand)
  {
    var head := "FT   " + featureType;
    var pad := Spaces(16 - |featureType|);
    SpacesBlank(16 - |featureType|);
    Parts(head, pad, Location(start, end, strand));
  }

  lemma LocationAvoids(start: nat, end: nat, strand: char, c: char)
    requires !IsDigit(c) && c !in "complement(.)"
    ensures c !in Location(start, end, strand)
  {
    NatStrAvoids(start, c);
    NatStrAvoids(end, c);
    assert c !in "..";
    assert c !in Span(start, end);
    assert c !in "complement(" && c != ')';
  }

  lemma HeaderLineNoNewline(featureType: string, start: nat, end: nat, strand: char)
    requires '\n' !in featureType
    ensures '\n' !in HeaderLine(featureType, start, end, strand)
  {
    LocationAvoids(start, end, strand, '\n');
    SpacesBlank(16 - |featureType|);
    assert '\n' !in "FT   ";
    assert '\n' !in Spaces(16 - |featureType|);
  }

  /** On the minus strand the location written from column 21 is the plus
      strand's inside `complement(...)`. */
  lemma MinusStrandComplement(featureType: string, start: nat, end: nat)
    requires |featureType| <= 16
    ensures HeaderLine(featureType, start, end, '-')[21..] == "complement(" + HeaderLine(featureType, start, end, '+')[21..] + ")"
  {
    HeaderColumns(featureType, start, end, '-');
    HeaderColumns(featureType, start, end, '+');
  }

  // ---------------------------------------------------------------------
  // The feature

  /** The type written: `rRNA` when some attribute value starts with
      `16S ribosomal RNA`, the declared type otherwise. */
  function OverriddenType(featureType: string, attributes: seq<(string, string)>): (t: string)
    ensures (exists k :: 0 <= k < |attributes| && Ribosomal(attributes[k].1)) ==> t == RibosomalType
    ensures (forall k :: 0 <= k < |attributes| ==> !Ribosomal(attributes[k].1)) ==> t == featureType
  {
    if attributes == [] then featureType
    else if Ribosomal(Last(attributes).1) then RibosomalType
    else
      var t := OverriddenType(featureType, attributes[..|attributes| - 1]);
      assert forall k :: 0 <= k < |attributes| - 1 ==> attributes[..|attributes| - 1][k] == attributes[k];
      t
  }

  /** The qualifier lines of all attributes, in their given order. */
  function AttributesLines(conv: Converter, attributes: seq<(string, string)>): seq<string>
  {
    if attributes == [] then []
    else AttributesLines(conv, attributes[..|attributes| - 1]) + AttributeBlock(conv, Last(attributes).0, Last(attributes).1)
  }

  lemma {:induction false} AttributesLinesShape(conv: Converter, attributes: seq<(string, string)>)
    ensures forall k :: 0 <= k < |AttributesLines(conv, attributes)| ==> QualifierLine(AttributesLines(conv, attributes)[k])
  {
    if attributes != [] {
      AttributesLinesShape(conv, attributes[..|attributes| - 1]);
    }
  }

  /** The qualifier closing a `CDS`. */
  function TranslTableLine(conv: Converter): string
  {
    Gutter + "/transl_table=" + NatStr(conv.translationTable)
  }

  /** The lines of the feature `construct_feature` writes. */
  function FeatureLines(conv: Converter, featureType: string, start: nat, end: nat, strand: char,
                        attributes: seq<(string, string)>): seq<string>
  {
    if featureType in IgnoredTypes then []
    else
      var t := OverriddenType(featureType, attributes);
      [HeaderLine(t, start, end, strand)] + AttributesLines(conv, attributes)
        + (if t == "CDS" then [TranslTableLine(conv)] else [])
  }

  /** What `construct_feature` promises: an ignored declared type writes
      nothing, even when an attribute would have renamed it; otherwise the
      key line of the overridden type comes first, then every attribute's
      qualifiers in order, and a `/transl_table=` qualifier is one extra,
      last line exactly when the type written is `CDS`. */
  lemma FeatureLayout(conv: Converter, featureType: string, start: nat, end: nat, strand: char,
                      attributes: seq<(string, string)>)
    ensures featureType in IgnoredTypes ==> FeatureLines(conv, featureType, start, end, strand, attributes) == []
    ensures featureType !in IgnoredTypes ==>
      var t := OverriddenType(featureType, attributes);
      var lines := FeatureLines(conv, featureType, start, end, strand, attributes);
      var body := AttributesLines(conv, attributes);
      lines != [] && lines[0] == HeaderLine(t, start, end, strand)
      && lines[1..1 + |body|] == body
      && (t == "CDS" <==> |lines| == |body| + 2)
      && (t == "CDS" ==> lines[|lines| - 1] == TranslTableLine(conv))
  {
  }

  /** With a type free of newlines, the text read back line by line gives
      exactly the feature's lines, the key line first and then qualifier
      lines behind the 21-column gutter. */
  lemma FeatureReadsBack(conv: Converter, featureType: string, start: nat, end: nat, strand: char,
                         attributes: seq<(string, string)>)
    requires '\n' !in featureType
    ensures var lines := FeatureLines(conv, featureType, start, end, strand, attributes);
      ReadLines(Unlines(lines)) == Suffixed(lines)
      && (forall k :: 1 <= k < |lines| ==> StartsWith(lines[k], Gutter))
  {
    FeatureLinesShape(conv, featureType, start, end, strand, attributes);
    ReadLinesSuffixed(FeatureLines(conv, featureType, start, end, strand, attributes));
  }

  lemma FeatureLinesShape(conv: Converter, featureType: string, start: nat, end: nat, strand: char,
                          attributes: seq<(string, string)>)
    requires '\n' !in featureType
    ensures var lines := FeatureLines(conv, featureType, start, end, strand, attributes);
      OneLineEach(lines)
      && (forall k :: 1 <= k < |lines| ==> StartsWith(lines[k], Gutter))
      && (lines != [] ==> StartsWith(lines[0], "FT"))
  {
    if featureType !in IgnoredTypes {
      var t := OverriddenType(featureType, attributes);
      AttributesLinesShape(conv, attributes);
      HeaderLineNoNewline(t, start, end, strand);
      HeaderLineStartsFT(t, start, end, strand);
      TranslTableLineShape(conv);
      QualifierLinesShape(HeaderLine(t, start, end, strand), AttributesLines(conv, attributes),
                          if t == "CDS" then [TranslTableLine(conv)] else []);
    }
  }

  lemma HeaderLineStartsFT(featureType: string, start: nat, end: nat, strand: char)
    ensures StartsWith(HeaderLine(featureType, start, end, strand), "FT")
  {
    HeaderColumns(featureType, start, end, strand);
    assert HeaderLine(featureType, start, end, strand)[..2] == ("FT   " + featureType)[..2];
  }

  /** A key line followed by qualifier lines and gutter lines. */
  lemma QualifierLinesShape(head: string, body: seq<string>, tail: seq<string>)
    requires '\n' !in head && StartsWith(head, "FT")
    requires forall k :: 0 <= k < |body| ==> QualifierLine(body[k])
    requires forall k :: 0 <= k < |tail| ==> StartsWith(tail[k], Gutter) && '\n' !in tail[k]
    ensures var lines := [head] + body + tail;
      OneLineEach(lines)
      && (forall k :: 1 <= k < |lines| ==> StartsWith(lines[k], Gutter))
      && StartsWith(lines[0], "FT")
  {
    var lines := [head] + body + tail;
    forall k | 1 <= k < |lines|
      ensures StartsWith(lines[k], Gutter) && '\n' !in lines[k]
    {
      if k < 1 + |body| {
        assert lines[k] == body[k - 1];
      } else {
        assert lines[k] == tail[k - 1 - |body|];
      }
    }
  }

  lemma TranslTableLineShape(conv: Converter)
    ensures StartsWith(TranslTableLine(conv), Gutter) && '\n' !in TranslTableLine(conv)
  {
    NatStrAvoids(conv.translationTable, '\n');
    assert TranslTableLine(conv)[..|Gutter|] == Gutter;
    assert '\n' !in Gutter + "/transl_table=";
  }

  lemma AttributesStep(conv: Converter, attributes: seq<(string, string)>, n: nat,
                       text: string, header: string, piece: string)
    requires n < |attributes|
    requires text == header + Unlines(AttributesLines(conv, attributes[..n]))
    requires piece == Unlines(AttributeBlock(conv, attributes[n].0, attributes[n].1))
    ensures text + piece == header + Unlines(AttributesLines(conv, attributes[..n + 1]))
  {
    assert attributes[..n + 1][..n] == attributes[..n];
    UnlinesAppend(AttributesLines(conv, attributes[..n]), AttributeBlock(conv, attributes[n].0, attributes[n].1));
    AppendAssoc(header, Unlines(AttributesLines(conv, attributes[..n])), piece);
  }

  lemma OverrideStep(featureType: string, attributes: seq<(string, string)>, n: nat)
    requires n < |attributes|
    ensures OverriddenType(featureType, attributes[..n + 1])
      == if Ribosomal(attributes[n].1) then RibosomalType else OverriddenType(featureType, attributes[..n])
  {
    assert attributes[..n + 1][..n] == attributes[..n];
  }

  /** `construct_feature`: the ignore test on the declared type, the
      override scan over the attribute values, the key line, each
      attribute's qualifiers, and the `/transl_table=` line for a `CDS`. */
  method ConstructFeature(conv: Converter, featureType: string, start: nat, end: nat, strand: char,
                          attributes: seq<(string, string)>) returns (feature: string)
    ensures feature == Unlines(FeatureLines(conv, featureType, start, end, strand, attributes))
  {
    feature := "";
    if featureType in IgnoredTypes {
      return;
    }
    var t := featureType;
    var k := 0;
    while k < |attributes|
      invariant 0 <= k <= |attributes|
      invariant t == OverriddenType(featureType, attributes[..k])
    {
      OverrideStep(featureType, attributes, k);
      if Ribosomal(attributes[k].1) {
        t := RibosomalType;
      }
      k := k + 1;
    }
    assert attributes[..k] == attributes;
    var header := FeatureHeader(t, start, end, strand);
    feature := feature + header;
    k := 0;
    while k < |attributes|
      invariant 0 <= k <= |attributes|
      invariant feature == header + Unlines(AttributesLines(conv, attributes[..k]))
    {
      var piece := ConstructFeatureAttribute(conv, attributes[k].0, attributes[k].1);
      AttributesStep(conv, attributes, k, feature, header, piece);
      feature := feature + piece;
      k := k + 1;
    }
    assert attributes[..k] == attributes;
    if t == "CDS" {
      var line := Gutter + "/transl_table=" + NatStr(conv.translationTable) + "\n";
      UnlinesOne(TranslTableLine(conv));
      feature := feature + line;
      FeatureText(conv, featureType, start, end, strand, attributes, header, [TranslTableLine(conv)]);
    } else {
      FeatureText(conv, featureType, start, end, strand, attributes, header, []);
    }
  }

  lemma FeatureText(conv: Converter, featureType: string, start: nat, end: nat, strand: char,
                    attributes: seq<(string, string)>, header: string, tail: seq<string>)
    requires featureType !in IgnoredTypes
    requires header == FeatureHeader(OverriddenType(featureType, attributes), start, end, strand)
    requires tail == if OverriddenType(featureType, attributes) == "CDS" then [TranslTableLine(conv)] else []
    ensures Unlines(FeatureLines(conv, featureType, start, end, strand, attributes))
      == header + Unlines(AttributesLines(conv, attributes)) + Unlines(tail)
  {
    var line := HeaderLine(OverriddenType(featureType, attributes), start, end, strand);
    var body := AttributesLines(conv, attributes);
    UnlinesAppend([line] + body, tail);
    UnlinesAppend([line], body);
    UnlinesOne(line);
  }

  // ---------------------------------------------------------------------
  // Feature-table text

  /** Whole lines, each starting with `FT`: what a feature table is made of. */
  predicate FeatureTableText(text: string) {
    (text == [] || EndsWithNewline(text))
    && forall k :: 0 <= k < |ReadLines(text)| ==> StartsWith(ReadLines(text)[k], "FT")
  }

  /** A feature whose type holds no newline is feature-table text. */
  lemma FeatureIsTableText(conv: Converter, featureType: string, start: nat, end: nat, strand: char,
                           attributes: seq<(string, string)>)
    requires '\n' !in featureType
    ensures FeatureTableText(Unlines(FeatureLines(conv, featureType, start, end, strand, attributes)))
  {
    var lines := FeatureLines(conv, featureType, start, end, strand, attributes);
    FeatureLinesShape(conv, featureType, start, end, strand, attributes);
    forall k | 1 <= k < |lines| ensures StartsWith(lines[k], "FT") {
      GutterStartsFT(lines[k]);
    }
    LinesTableText(lines);
  }

  lemma GutterStartsFT(line: string)
    requires StartsWith(line, Gutter)
    ensures StartsWith(line, "FT")
  {
    assert line[..2] == Gutter[..2];
  }

  /** Lines that each start with `FT` and hold no newline make feature-table text. */
  lemma LinesTableText(lines: seq<string>)
    requires OneLineEach(lines)
    requires forall k :: 0 <= k < |lines| ==> StartsWith(lines[k], "FT")
    ensures FeatureTableText(Unlines(lines))
  {
    ReadLinesSuffixed(lines);
    UnlinesEnds(lines);
    forall k | 0 <= k < |lines| ensures StartsWith(Suffixed(lines)[k], "FT") {
      StartsWithAppend(lines[k], "\n", "FT");
    }
  }

  /** Feature-table texts written one after another are feature-table text. */
  lemma {:induction false} ConcatTableText(texts: seq<string>)
    requires forall k :: 0 <= k < |texts| ==> FeatureTableText(texts[k])
    ensures FeatureTableText(Concat(texts))
  {
    if texts != [] {
      var front := Concat(texts[..|texts| - 1]);
      var last := texts[|texts| - 1];
      ConcatTableText(texts[..|texts| - 1]);
      ReadLinesAppend(front, last);
      TableTextJoin(front, last);
    }
  }

  lemma TableTextJoin(front: string, last: string)
    requires FeatureTableText(front) && FeatureTableText(last)
    requires ReadLines(front + last) == ReadLines(front) + ReadLines(last)
    ensures FeatureTableText(front + last)
  {
    var lines := ReadLines(front + last);
    forall k | 0 <= k < |lines| ensures StartsWith(lines[k], "FT") {
      if k < |ReadLines(front)| {
        assert lines[k] == ReadLines(front)[k];
      } else {
        assert lines[k] == ReadLines(last)[k - |ReadLines(front)|];
      }
    }
    if last == [] {
      assert front + last == front;
    } else {
      assert (front + last)[|front + last| - 1] == last[|last| - 1];
    }
  }
}
