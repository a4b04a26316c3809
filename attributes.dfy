/** The qualifier lines of an EMBL feature, as `Convert` writes them from one
    GFF3 attribute: ignored keys, the `eC_number` rename, the `product`
    search for a name that is not `hypothetical protein`, `locus_tag`
    prefixing, `EC_number` de-duplication, `inference` re-keyed to
    `db_xref`, and every qualifier wrapped to 58 columns behind a 21-column
    `FT` gutter. */
module Attributes {
  import opened Text
  import opened TextWrap

  /** The two settings a `Convert` is made with; neither changes afterwards. */
  datatype Converter = Converter(locusTag: Option<string>, translationTable: nat)

  /** `FT` and nineteen blanks: the gutter in front of every qualifier line. */
  const Gutter: string := "FT                   "

  /** The width `textwrap.wrap` is given for a qualifier. */
  const WrapWidth: nat := 58

  /** Keys whose attribute is dropped. */
  const IgnoredKeys: set<string> := {"ID", "protein_id"}

  /** Keys whose every comma segment becomes a qualifier of its own. */
  const MultiLineKeys: set<string> := {"inference", "EC_number"}

  const Hypothetical: string := "hypothetical protein"
  const Uncharacterised: string := "Uncharacterised protein"

  /** The `inference` prefixes and the `db_xref` database each is rewritten
      to, in the order they are tried. */
  const InferenceTable: seq<(string, string)> := [
    ("similar to AA sequence:UniProtKB", "UniProtKB/Swiss-Prot"),
    ("protein motif:Pfam", "PFAM"),
    ("protein motif:CLUSTERS", "CDD"),
    ("protein motif:Cdd", "CDD"),
    ("protein motif:TIGRFAMs", "TIGRFAM")
  ]

  function Last<T>(xs: seq<T>): T
    requires xs != []
  {
    xs[|xs| - 1]
  }

  // ---------------------------------------------------------------------
  // locus_tag

  /** `update_locus_tag`: with a prefix set, the prefix, `_` and the last
      `_`-separated part of the value; without one, the value unchanged. */
  function UpdateLocusTag(conv: Converter, value: string): (r: string)
    ensures conv.locusTag.None? ==> r == value
    ensures conv.locusTag.Some? ==> StartsWith(r, conv.locusTag.value + "_")
    /* What follows the new prefix is the longest `_`-free tail of the
       value: the whole value, or what comes after its last `_`. */
    ensures conv.locusTag.Some? ==>
      var t := r[|conv.locusTag.value| + 1..];
      '_' !in t && EndsWith(value, t) && (|t| == |value| || value[|value| - |t| - 1] == '_')
  {
    match conv.locusTag
    case None => value
    case Some(prefix) =>
      var t := Last(Split(value, '_'));
      var r := prefix + "_" + t;
      SplitLast(value, '_');
      assert r[..|prefix + "_"|] == prefix + "_";
      assert r[|prefix| + 1..] == t;
      r
  }

  /** The number part survives: after prefixing, the last `_`-separated
      part is still the value's own. */
  lemma LocusTagKeepsLastPart(conv: Converter, value: string)
    ensures Last(Split(UpdateLocusTag(conv, value), '_')) == Last(Split(value, '_'))
  {
    if conv.locusTag.Some? {
      var tail := Last(Split(value, '_'));
      SplitPiecesAvoid(value, '_');
      SplitNoSep(tail, '_');
      SplitAround(conv.locusTag.value, tail, '_');
    }
  }

  /** Prefixing a tag that is already prefixed changes nothing. */
  lemma LocusTagIdempotent(conv: Converter, value: string)
    ensures UpdateLocusTag(conv, UpdateLocusTag(conv, value)) == UpdateLocusTag(conv, value)
  {
    LocusTagKeepsLastPart(conv, value);
  }

  // ---------------------------------------------------------------------
  // product

  /** A comma segment as `search_hypo_protein` reads it: every `nknown`
      becomes `ncharacterised`. */
  function Recharacterise(segment: string): string
  {
    Replace(segment, "nknown", "ncharacterised")
  }

  /** Segment `k` is the first that, recharacterised, is not exactly
      `hypothetical protein`. */
  predicate FirstNamedAt(segments: seq<string>, k: int) {
    0 <= k < |segments| && Recharacterise(segments[k]) != Hypothetical
    && forall i :: 0 <= i < k ==> Recharacterise(segments[i]) == Hypothetical
  }

  /** The first segment that, recharacterised, is not exactly
      `hypothetical protein`, or else `Uncharacterised protein`. */
  function FirstNamed(segments: seq<string>): (r: string)
    ensures r != Hypothetical
    ensures (forall k :: 0 <= k < |segments| ==> Recharacterise(segments[k]) == Hypothetical) ==> r == Uncharacterised
    ensures forall k :: FirstNamedAt(segments, k) ==> r == Recharacterise(segments[k])
  {
    if segments == [] then Uncharacterised
    else
      var v := Recharacterise(segments[0]);
      if v != Hypothetical then v
      else
        var r := FirstNamed(segments[1..]);
        assert forall k :: 1 <= k < |segments| ==> segments[k] == segments[1..][k - 1];
        r
  }

  /** The `product` value `construct_feature_attribute` writes. */
  function ProductName(value: string): string
  {
    FirstNamed(Split(value, ','))
  }

  /** The product written is never `hypothetical protein` and holds no comma,
      so it is one qualifier value. */
  lemma ProductNameClean(value: string)
    ensures ProductName(value) != Hypothetical
    ensures ',' !in ProductName(value)
  {
    var segments := Split(value, ',');
    SplitPiecesAvoid(value, ',');
    FirstNamedAmong(segments);
    if ProductName(value) != Uncharacterised {
      var k :| 0 <= k < |segments| && ProductName(value) == Recharacterise(segments[k]);
      ReplaceKeepsOut(segments[k], "nknown", "ncharacterised", ',');
    }
  }

  /** The name found is `Uncharacterised protein` or one of the segments,
      recharacterised. */
  lemma {:induction false} FirstNamedAmong(segments: seq<string>)
    ensures FirstNamed(segments) == Uncharacterised
      || exists k :: 0 <= k < |segments| && FirstNamed(segments) == Recharacterise(segments[k])
  {
    if segments != [] && Recharacterise(segments[0]) == Hypothetical {
      FirstNamedAmong(segments[1..]);
      if FirstNamed(segments[1..]) != Uncharacterised {
        var k :| 0 <= k < |segments[1..]| && FirstNamed(segments[1..]) == Recharacterise(segments[1..][k]);
        assert segments[1..][k] == segments[k + 1];
      }
    }
  }

  /** `search_hypo_protein`: scans the comma segments and returns at the
      first one that names a protein. */
  method SearchHypoProtein(value: string) returns (r: string)
    ensures r == ProductName(value)
  {
    var segments := Split(value, ',');
    var k := 0;
    while k < |segments|
      invariant 0 <= k <= |segments|
      invariant FirstNamed(segments[k..]) == FirstNamed(segments)
    {
      var v := Recharacterise(segments[k]);
      if v != Hypothetical {
        return v;
      }
      assert segments[k..][1..] == segments[k + 1..];
      k := k + 1;
    }
    return Uncharacterised;
  }

  // ---------------------------------------------------------------------
  // inference

  /** The first table entry, from `from` on, whose prefix occurs in `value`. */
  function FirstMatch(value: string, from: nat): (m: Option<nat>)
    requires from <= |InferenceTable|
    ensures m.Some? ==> from <= m.value < |InferenceTable| && Contains(value, InferenceTable[m.value].0)
    ensures m.Some? ==> forall k :: from <= k < m.value ==> !Contains(value, InferenceTable[k].0)
    ensures m.None? ==> forall k :: from <= k < |InferenceTable| ==> !Contains(value, InferenceTable[k].0)
    decreases |InferenceTable| - from
  {
    if from == |InferenceTable| then None
    else if Contains(value, InferenceTable[from].0) then Some(from)
    else FirstMatch(value, from + 1)
  }

  lemma PrefixesNonEmpty(m: nat)
    requires m < |InferenceTable|
    ensures |InferenceTable[m].0| > 0
  {
  }

  /** Entry `m` holds the first prefix of the table that occurs in `value`. */
  predicate FirstPrefixAt(value: string, m: int) {
    0 <= m < |InferenceTable| && Contains(value, InferenceTable[m].0)
    && forall k :: 0 <= k < m ==> !Contains(value, InferenceTable[k].0)
  }

  /** What `update_inference_to_db_xref` returns for a key and value. */
  function Rekey(key: string, value: string): (r: (string, string))
    ensures key != "inference" ==> r == (key, value)
    ensures (forall k :: 0 <= k < |InferenceTable| ==> !Contains(value, InferenceTable[k].0)) ==> r == (key, value)
    ensures forall m :: key == "inference" && FirstPrefixAt(value, m) ==>
      r == ("db_xref", Replace(value, InferenceTable[m].0, InferenceTable[m].1))
  {
    if key != "inference" then (key, value)
    else
      match FirstMatch(value, 0)
      case None => (key, value)
      case Some(m) =>
        PrefixesNonEmpty(m);
        ("db_xref", Replace(value, InferenceTable[m].0, InferenceTable[m].1))
  }

  /** `update_inference_to_db_xref`: tries the table in order and returns at
      the first prefix found. */
  method UpdateInferenceToDbXref(key: string, value: string) returns (newKey: string, newValue: string)
    ensures (newKey, newValue) == Rekey(key, value)
  {
    if key == "inference" {
      var k := 0;
      while k < |InferenceTable|
        invariant 0 <= k <= |InferenceTable|
        invariant FirstMatch(value, k) == FirstMatch(value, 0)
      {
        var prefix, database := InferenceTable[k].0, InferenceTable[k].1;
        if Contains(value, prefix) {
          PrefixesNonEmpty(k);
          return "db_xref", Replace(value, prefix, database);
        }
        k := k + 1;
      }
    }
    return key, value;
  }

  // ---------------------------------------------------------------------
  // One qualifier, wrapped

  /** The `/key="value"` text that is wrapped. */
  function Qualifier(key: string, value: string): (r: string)
    ensures r != [] && r[0] == '/'
  {
    "/" + key + "=\"" + value + "\""
  }

  /** Each wrapped line behind the gutter. */
  function Guttered(lines: seq<string>): (r: seq<string>)
    ensures |r| == |lines|
    ensures forall k :: 0 <= k < |r| ==> r[k] == Gutter + lines[k]
  {
    seq(|lines|, k requires 0 <= k < |lines| => Gutter + lines[k])
  }

  /** A line the way every qualifier line looks: the gutter first, at most
      79 characters, no newline. */
  predicate QualifierLine(line: string) {
    StartsWith(line, Gutter) && |line| <= |Gutter| + WrapWidth && '\n' !in line
  }

  /** The lines (their newlines left to `Unlines`) that
      `create_multi_line_feature_attribute_string` writes for one key and value. */
  function AttributeLines(key: string, value: string): (lines: seq<string>)
    ensures lines != []
    ensures forall k :: 0 <= k < |lines| ==> QualifierLine(lines[k])
  {
    var (k2, v2) := Rekey(key, value);
    var text := Qualifier(k2, v2);
    WrapProperties(text, WrapWidth);
    assert Squeeze(text) != [] by {
      assert Squeeze(text)[0] == '/';
    }
    var wrapped := Wrap(text, WrapWidth);
    var lines := Guttered(wrapped);
    assert forall k :: 0 <= k < |lines| ==> QualifierLine(lines[k]) by {
      forall k | 0 <= k < |lines| ensures QualifierLine(lines[k]) {
        GutterLine(wrapped[k]);
      }
    }
    lines
  }

  lemma GutterLine(line: string)
    requires |line| <= WrapWidth && '\n' !in line
    ensures QualifierLine(Gutter + line)
  {
    assert (Gutter + line)[..|Gutter|] == Gutter;
  }

  /** Wrapping only chooses the breaks: with the gutters taken off and the
      lines joined by blanks, the qualifier's pieces come back joined by
      blanks, and the pieces are the qualifier's characters less its
      whitespace. */
  lemma AttributeLinesContent(key: string, value: string)
    ensures var (k2, v2) := Rekey(key, value);
      var wrapped := Wrap(Qualifier(k2, v2), WrapWidth);
      AttributeLines(key, value) == Guttered(wrapped)
      && Join(wrapped, ' ') == Join(Tokens(Qualifier(k2, v2), WrapWidth), ' ')
      && Concat(Tokens(Qualifier(k2, v2), WrapWidth)) == Squeeze(Qualifier(k2, v2))
  {
    var (k2, v2) := Rekey(key, value);
    WrapProperties(Qualifier(k2, v2), WrapWidth);
  }

  /** An `inference` value with a known prefix is written as a `db_xref`
      qualifier, the first prefix found replaced by its database. */
  lemma InferenceWrittenAsDbXref(value: string, m: nat)
    requires FirstPrefixAt(value, m)
    ensures |InferenceTable[m].0| > 0
    ensures AttributeLines("inference", value)
      == AttributeLines("db_xref", Replace(value, InferenceTable[m].0, InferenceTable[m].1))
  {
    PrefixesNonEmpty(m);
  }

  /** An `inference` value with no known prefix is written as it is. */
  lemma InferenceKeptOtherwise(value: string)
    requires forall k :: 0 <= k < |InferenceTable| ==> !Contains(value, InferenceTable[k].0)
    ensures AttributeLines("inference", value) == Guttered(Wrap(Qualifier("inference", value), WrapWidth))
  {
  }

  lemma UnlinesSnoc(lines: seq<string>, line: string)
    ensures Unlines(lines + [line]) == Unlines(lines) + line + "\n"
  {
    UnlinesAppend(lines, [line]);
    assert Unlines([line]) == line + "\n" + Unlines([]);
  }

  lemma GutterStep(wrapped: seq<string>, n: nat)
    requires n < |wrapped|
    ensures Unlines(Guttered(wrapped[..n + 1])) == Unlines(Guttered(wrapped[..n])) + Gutter + wrapped[n] + "\n"
  {
    assert Guttered(wrapped[..n + 1]) == Guttered(wrapped[..n]) + [Gutter + wrapped[n]];
    UnlinesSnoc(Guttered(wrapped[..n]), Gutter + wrapped[n]);
  }

  /** `create_multi_line_feature_attribute_string`: re-keys an `inference`,
      wraps the qualifier and writes each line behind the gutter. */
  method CreateMultiLineAttribute(key: string, value: string) returns (text: string)
    ensures text == Unlines(AttributeLines(key, value))
  {
    var k2, v2 := key, value;
    if key == "inference" {
      k2, v2 := UpdateInferenceToDbXref(key, value);
    }
    var wrapped := Wrap(Qualifier(k2, v2), WrapWidth);
    text := "";
    var n := 0;
    while n < |wrapped|
      invariant 0 <= n <= |wrapped|
      invariant text == Unlines(Guttered(wrapped[..n]))
    {
      GutterStep(wrapped, n);
      text := text + Gutter + wrapped[n] + "\n";
      n := n + 1;
    }
    assert wrapped[..n] == wrapped;
  }

  // ---------------------------------------------------------------------
  // One attribute

  /** `eC_number` is written as `EC_number`. */
  function RenameKey(key: string): string
  {
    if key == "eC_number" then "EC_number" else key
  }

  /** The value after the `product` and `locus_tag` rewrites. */
  function RewriteValue(conv: Converter, key: string, value: string): string
  {
    if key == "product" then ProductName(value)
    else if key == "locus_tag" then UpdateLocusTag(conv, value)
    else value
  }

  /** The comma segments once each, in order of first appearance (the
      source goes through a Python set, whose order is not modelled). */
  function Distinct(xs: seq<string>): (r: seq<string>)
    ensures forall i, j :: 0 <= i < j < |r| ==> r[i] != r[j]
    ensures forall x :: x in r <==> x in xs
    ensures xs != [] ==> r != []
  {
    if xs == [] then []
    else
      var d := Distinct(xs[..|xs| - 1]);
      assert forall x :: x in xs <==> x in xs[..|xs| - 1] || x == xs[|xs| - 1] by {
        assert xs == xs[..|xs| - 1] + [xs[|xs| - 1]];
      }
      if xs[|xs| - 1] in d then d else d + [xs[|xs| - 1]]
  }

  /** The values the attribute is written with. */
  function Segments(key: string, value: string): (r: seq<string>)
    ensures r != []
  {
    if key == "EC_number" then Distinct(Split(value, ',')) else Split(value, ',')
  }

  /** One qualifier per segment, in order. */
  function SegmentLines(key: string, segments: seq<string>): seq<string>
  {
    if segments == [] then []
    else SegmentLines(key, segments[..|segments| - 1]) + AttributeLines(key, Last(segments))
  }

  lemma {:induction false} SegmentLinesShape(key: string, segments: seq<string>)
    ensures forall k :: 0 <= k < |SegmentLines(key, segments)| ==> QualifierLine(SegmentLines(key, segments)[k])
    ensures segments != [] ==> SegmentLines(key, segments) != []
  {
    if segments != [] {
      SegmentLinesShape(key, segments[..|segments| - 1]);
    }
  }

  /** The lines `construct_feature_attribute` writes for one attribute. */
  function AttributeBlock(conv: Converter, key: string, value: string): (lines: seq<string>)
    ensures key in IgnoredKeys ==> lines == []
    ensures forall k :: 0 <= k < |lines| ==> QualifierLine(lines[k])
  {
    if key in IgnoredKeys then []
    else
      var k := RenameKey(key);
      var segments := Segments(k, RewriteValue(conv, k, value));
      SegmentLinesShape(k, segments);
      if k !in MultiLineKeys then AttributeLines(k, segments[0]) else SegmentLines(k, segments)
  }

  /** A key that is not ignored always gives at least one line. */
  lemma AttributeBlockNonEmpty(conv: Converter, key: string, value: string)
    requires key !in IgnoredKeys
    ensures AttributeBlock(conv, key, value) != []
  {
    var k := RenameKey(key);
    SegmentLinesShape(k, Segments(k, RewriteValue(conv, k, value)));
  }

  /** Outside `inference` and `EC_number` only the first comma segment is
      written, as a single qualifier. */
  lemma SingleQualifier(conv: Converter, key: string, value: string)
    requires key !in IgnoredKeys && RenameKey(key) !in MultiLineKeys
    ensures AttributeBlock(conv, key, value)
      == AttributeLines(RenameKey(key), Split(RewriteValue(conv, RenameKey(key), value), ',')[0])
  {
  }

  /** A `product` is written under its own key with a name that is not
      `hypothetical protein`. */
  lemma ProductQualifier(conv: Converter, value: string)
    ensures AttributeBlock(conv, "product", value) == AttributeLines("product", ProductName(value))
    ensures ProductName(value) != Hypothetical
  {
    var name := ProductName(value);
    ProductNameClean(value);
    SplitPiecesAvoid(name, ',');
    SplitNoSep(name, ',');
  }

  /** An `eC_number` or `EC_number` attribute is written as `EC_number`
      qualifiers, one per distinct comma segment. */
  lemma EcNumbersOnce(conv: Converter, key: string, value: string)
    requires key == "eC_number" || key == "EC_number"
    ensures var segments := Distinct(Split(value, ','));
      AttributeBlock(conv, key, value) == SegmentLines("EC_number", segments)
      && (forall i, j :: 0 <= i < j < |segments| ==> segments[i] != segments[j])
      && (forall x :: x in segments <==> x in Split(value, ','))
  {
    assert RenameKey(key) == "EC_number";
    assert RewriteValue(conv, "EC_number", value) == value;
    assert Segments("EC_number", value) == Distinct(Split(value, ','));
  }

  /** An `inference` attribute gives one qualifier per comma segment, in order. */
  lemma InferencePerSegment(conv: Converter, value: string)
    ensures AttributeBlock(conv, "inference", value) == SegmentLines("inference", Split(value, ','))
  {
    assert RenameKey("inference") == "inference";
    assert RewriteValue(conv, "inference", value) == value;
    assert Segments("inference", value) == Split(value, ',');
  }

  lemma SegmentStep(key: string, segments: seq<string>, n: nat)
    requires n < |segments|
    ensures Unlines(SegmentLines(key, segments[..n + 1]))
      == Unlines(SegmentLines(key, segments[..n])) + Unlines(AttributeLines(key, segments[n]))
  {
    assert segments[..n + 1][..n] == segments[..n];
    UnlinesAppend(SegmentLines(key, segments[..n]), AttributeLines(key, segments[n]));
  }

  /** `construct_feature_attribute`: drops an ignored key, renames, rewrites
      `product` and `locus_tag`, and writes one qualifier or one per segment. */
  method ConstructFeatureAttribute(conv: Converter, key: string, value: string) returns (text: string)
    ensures text == Unlines(AttributeBlock(conv, key, value))
  {
    text := "";
    if key in IgnoredKeys {
      return;
    }
    var k := RenameKey(key);
    var v := value;
    if k == "product" {
      v := SearchHypoProtein(v);
    }
    if k == "locus_tag" {
      v := UpdateLocusTag(conv, v);
    }
    var segments;
    if k == "EC_number" {
      segments := Distinct(Split(v, ','));
    } else {
      segments := Split(v, ',');
    }
    if k !in MultiLineKeys {
      text := CreateMultiLineAttribute(k, segments[0]);
    } else {
      var n := 0;
      while n < |segments|
        invariant 0 <= n <= |segments|
        invariant text == Unlines(SegmentLines(k, segments[..n]))
      {
        SegmentStep(k, segments, n);
        var piece := CreateMultiLineAttribute(k, segments[n]);
        text := text + piece;
        n := n + 1;
      }
      assert segments[..n] == segments;
    }
  }

  /** Read back line by line, an attribute's text gives exactly its lines,
      each behind the gutter and at most 79 characters before its newline. */
  lemma AttributeTextReadsBack(conv: Converter, key: string, value: string)
    ensures var lines := AttributeBlock(conv, key, value);
      |ReadLines(Unlines(lines))| == |lines|
      && forall k :: 0 <= k < |lines| ==>
        (ReadLines(Unlines(lines))[k] == lines[k] + "\n" && StartsWith(lines[k], Gutter) && |lines[k]| <= 79)
  {
    ReadLinesUnlines(AttributeBlock(conv, key, value));
  }
}
