/** `EMBLWriter`: the EMBL file as one record per sequence, in sorted
    identifier order, and the chromosome list read back from that file. */
module Writer {
  import opened Text
  import Header
  import Features
  import SequenceFormat

  // ---------------------------------------------------------------------
  // Python's `sorted` on identifiers

  /** `a` sorts strictly before `b`: by character code, a proper prefix first. */
  predicate Below(a: string, b: string)
    decreases |a|
  {
    b != [] && (a == [] || a[0] < b[0] || (a[0] == b[0] && Below(a[1..], b[1..])))
  }

  lemma {:induction false} BelowIrreflexive(a: string)
    ensures !Below(a, a)
    decreases |a|
  {
    if a != [] {
      BelowIrreflexive(a[1..]);
    }
  }

  lemma {:induction false} BelowTransitive(a: string, b: string, c: string)
    requires Below(a, b) && Below(b, c)
    ensures Below(a, c)
    decreases |a|
  {
    if a != [] && a[0] == b[0] && b[0] == c[0] {
      BelowTransitive(a[1..], b[1..], c[1..]);
    }
  }

  lemma {:induction false} BelowTotal(a: string, b: string)
    requires a != b
    ensures Below(a, b) || Below(b, a)
    decreases |a|
  {
    if a != [] && b != [] && a[0] == b[0] {
      assert a == [a[0]] + a[1..] && b == [b[0]] + b[1..];
      BelowTotal(a[1..], b[1..]);
    }
  }

  /** Strictly ascending, hence free of repeats. */
  predicate Ascending(names: seq<string>) {
    forall i, j :: 0 <= i < j < |names| ==> Below(names[i], names[j])
  }

  /** The least name of a non-empty set. */
  ghost function Smallest(names: set<string>): (m: string)
    requires names != {}
    ensures m in names && forall x :: x in names && x != m ==> Below(m, x)
    decreases names
  {
    var x :| x in names;
    if names == {x} then x
    else
      var m := Smallest(names - {x});
      if Below(x, m) then
        assert forall y :: y in names && y != x ==> Below(x, y) by {
          forall y | y in names && y != x ensures Below(x, y) {
            if y != m {
              BelowTransitive(x, m, y);
            }
          }
        }
        x
      else
        BelowTotal(x, m);
        m
  }

  /** `sorted(names)`: every name once, ascending. */
  ghost function SortedNames(names: set<string>): (r: seq<string>)
    ensures Ascending(r) && |r| == |names|
    ensures forall x :: x in r <==> x in names
    decreases names
  {
    if names == {} then []
    else
      var m := Smallest(names);
      var rest := SortedNames(names - {m});
      assert forall j :: 0 <= j < |rest| ==> Below(m, rest[j]) by {
        forall j | 0 <= j < |rest| ensures Below(m, rest[j]) {
          assert rest[j] in names - {m};
        }
      }
      [m] + rest
  }

  /** There is only one ascending sequence of a given set of names. */
  lemma {:induction false} AscendingUnique(a: seq<string>, b: seq<string>)
    requires Ascending(a) && Ascending(b)
    requires forall x :: x in a <==> x in b
    ensures a == b
    decreases |a|
  {
    assert a != [] ==> a[0] in b;
    assert b != [] ==> b[0] in a;
    if a != [] && b != [] {
      if a[0] != b[0] {
        assert a[0] in b && b[0] in a;
        var i :| 0 < i < |a| && a[i] == b[0];
        var j :| 0 < j < |b| && b[j] == a[0];
        BelowTransitive(a[0], b[0], a[0]);
        BelowIrreflexive(a[0]);
      }
      forall x ensures x in a[1..] <==> x in b[1..] {
        if x in a[1..] {
          var i :| 1 <= i < |a| && a[i] == x;
          BelowIrreflexive(a[0]);
          assert x in b && x != b[0];
        }
        if x in b[1..] {
          var j :| 1 <= j < |b| && b[j] == x;
          BelowIrreflexive(b[0]);
          assert x in a && x != a[0];
        }
      }
      AscendingUnique(a[1..], b[1..]);
    }
  }

  /** Puts a new name in its place among ascending names. */
  function Insert(names: seq<string>, x: string): (r: seq<string>)
    requires Ascending(names) && x !in names
    ensures Ascending(r)
    ensures forall y :: y in r <==> y in names || y == x
  {
    if names == [] then [x]
    else if Below(x, names[0]) then
      assert forall j :: 0 <= j < |names| ==> Below(x, names[j]) by {
        forall j | 0 < j < |names| ensures Below(x, names[j]) {
          BelowTransitive(x, names[0], names[j]);
        }
      }
      [x] + names
    else
      BelowTotal(x, names[0]);
      var rest := Insert(names[1..], x);
      assert forall j :: 0 <= j < |rest| ==> Below(names[0], rest[j]) by {
        forall j | 0 <= j < |rest| ensures Below(names[0], rest[j]) {
          assert rest[j] in names[1..] || rest[j] == x;
        }
      }
      [names[0]] + rest
  }

  /** `sorted(sequences)`. */
  method SortNames(names: set<string>) returns (r: seq<string>)
    ensures r == SortedNames(names)
  {
    r := [];
    var rest := names;
    while rest != {}
      invariant Ascending(r)
      invariant forall x :: x in names <==> x in r || x in rest
      invariant forall x :: x in r ==> x !in rest
      decreases rest
    {
      var x :| x in rest;
      r := Insert(r, x);
      rest := rest - {x};
    }
    AscendingUnique(r, SortedNames(names));
  }

  // ---------------------------------------------------------------------
  // The EMBL file

  /** The features stored for a sequence, none when none are stored. */
  function FeaturesOf(feats: map<string, seq<string>>, id: string): seq<string>
  {
    if id in feats then feats[id] else []
  }

  /** One entry: header, source feature, the stored features in order, the
      sequence block and the `//` terminator. */
  function Record(id: string, counter: nat, sequences: map<string, string>,
                  feats: map<string, seq<string>>, meta: Header.Metadata): string
    requires id in sequences
  {
    var length := |sequences[id]|;
    Header.PopulatedHeader(length, meta, counter, id)
    + Header.SourceTemplate(length, meta.organism, meta.taxonId, id)
    + Concat(FeaturesOf(feats, id))
    + SequenceFormat.SequenceBlock(sequences[id])
    + "//\n"
  }

  /** The entries of `ids`, the k-th of them numbered k. */
  function Records(ids: seq<string>, sequences: map<string, string>,
                   feats: map<string, seq<string>>, meta: Header.Metadata): string
    requires forall k :: 0 <= k < |ids| ==> ids[k] in sequences
  {
    if ids == [] then ""
    else Records(ids[..|ids| - 1], sequences, feats, meta) + Record(ids[|ids| - 1], |ids|, sequences, feats, meta)
  }

  /** What `create_output_file` writes. */
  ghost function OutputFile(sequences: map<string, string>, feats: map<string, seq<string>>,
                            meta: Header.Metadata): string
  {
    Records(SortedNames(sequences.Keys), sequences, feats, meta)
  }

  lemma RecordsStep(ids: seq<string>, k: nat, sequences: map<string, string>,
                    feats: map<string, seq<string>>, meta: Header.Metadata)
    requires k < |ids| && forall j :: 0 <= j < |ids| ==> ids[j] in sequences
    ensures Records(ids[..k + 1], sequences, feats, meta)
      == Records(ids[..k], sequences, feats, meta) + Record(ids[k], k + 1, sequences, feats, meta)
  {
    TakeShorter(ids, k);
  }

  lemma EntryIsRecord(id: string, counter: nat, sequences: map<string, string>,
                      feats: map<string, seq<string>>, meta: Header.Metadata, entry: string, start: string)
    requires id in sequences
    requires start == Header.PopulatedHeader(|sequences[id]|, meta, counter, id)
      + Header.SourceTemplate(|sequences[id]|, meta.organism, meta.taxonId, id)
    requires entry == start + Concat(FeaturesOf(feats, id)) + SequenceFormat.SequenceBlock(sequences[id]) + "//\n"
    ensures entry == Record(id, counter, sequences, feats, meta)
  {
  }

  lemma ConcatStep(parts: seq<string>, f: nat, text: string, start: string)
    requires f < |parts| && text == start + Concat(parts[..f])
    ensures text + parts[f] == start + Concat(parts[..f + 1])
  {
    TakeShorter(parts, f);
    AppendAssoc(start, Concat(parts[..f]), parts[f]);
  }

  /** `create_output_file`, with the file replaced by the text written to it. */
  method CreateOutputFile(sequences: map<string, string>, feats: map<string, seq<string>>,
                          meta: Header.Metadata) returns (text: string)
    ensures text == OutputFile(sequences, feats, meta)
  {
    var ids := SortNames(sequences.Keys);
    text := WriteRecords(ids, sequences, feats, meta);
  }

  /** The loop of `create_output_file` over the sorted names, the k-th entry numbered k. */
  method WriteRecords(ids: seq<string>, sequences: map<string, string>, feats: map<string, seq<string>>,
                      meta: Header.Metadata) returns (text: string)
    requires forall j :: 0 <= j < |ids| ==> ids[j] in sequences
    ensures text == Records(ids, sequences, feats, meta)
  {
    text := "";
    var i := 1;
    var k := 0;
    while k < |ids|
      invariant 0 <= k <= |ids| && i == k + 1
      invariant text == Records(ids[..k], sequences, feats, meta)
    {
      var entry := WriteRecord(ids[k], i, sequences, feats, meta);
      RecordsStep(ids, k, sequences, feats, meta);
      text := text + entry;
      i := i + 1;
      k := k + 1;
    }
    TakeAll(ids);
  }

  /** One pass of the loop in `create_output_file`: the header, the source
      feature, the stored features, the sequence block and the terminator. */
  method WriteRecord(id: string, counter: nat, sequences: map<string, string>,
                     feats: map<string, seq<string>>, meta: Header.Metadata) returns (entry: string)
    requires id in sequences
    ensures entry == Record(id, counter, sequences, feats, meta)
  {
    var length := |sequences[id]|;
    entry := Header.PopulatedHeader(length, meta, counter, id);
    entry := entry + Header.SourceTemplate(length, meta.organism, meta.taxonId, id);
    var features := FeaturesOf(feats, id);
    var start := entry;
    var f := 0;
    while f < |features|
      invariant 0 <= f <= |features|
      invariant entry == start + Concat(features[..f])
    {
      ConcatStep(features, f, entry, start);
      entry := entry + features[f];
      f := f + 1;
    }
    TakeAll(features);
    var block := SequenceFormat.ConstructSequence(sequences[id]);
    entry := entry + block;
    entry := entry + "//\n";
    EntryIsRecord(id, counter, sequences, feats, meta, entry, start);
  }

  // ---------------------------------------------------------------------
  // The chromosome list

  /** The token `AC \* _(\w+)` captures at the start of a line. */
  function AccessionOf(line: string): (r: Option<string>)
    ensures r.Some? ==> StartsWith(line, Header.AccessionMark + r.value)
    ensures r.Some? ==> r.value != [] && forall k :: 0 <= k < |r.value| ==> IsWordChar(r.value[k])
    ensures r.Some? ==> |line| == 6 + |r.value| || !IsWordChar(line[6 + |r.value|])
    ensures r.None? ==> !StartsWith(line, Header.AccessionMark) || |line| == 6 || !IsWordChar(line[6])
  {
    if StartsWith(line, Header.AccessionMark) && WordPrefix(line[6..]) != "" then
      var w := WordPrefix(line[6..]);
      assert line[..6 + |w|] == Header.AccessionMark + w;
      Some(w)
    else None
  }

  /** The tokens of all accession lines, in line order. */
  function Accessions(lines: seq<string>): seq<string>
  {
    if lines == [] then []
    else
      Accessions(lines[..|lines| - 1])
      + match AccessionOf(lines[|lines| - 1]) case Some(w) => [w] case None => []
  }

  lemma {:induction false} AccessionsAppend(a: seq<string>, b: seq<string>)
    ensures Accessions(a + b) == Accessions(a) + Accessions(b)
    decreases |b|
  {
    if b == [] {
      assert a + b == a;
    } else {
      assert (a + b)[..|a + b| - 1] == a + b[..|b| - 1];
      AccessionsAppend(a, b[..|b| - 1]);
    }
  }

  /** `Chromosome` for the first entry of the list, `Plasmid` for the rest. */
  function Topology(index: nat): string
  {
    if index > 0 then "Plasmid" else "Chromosome"
  }

  /** The list's rows, without their newlines. */
  function Rows(accessions: seq<string>): (r: seq<string>)
    ensures |r| == |accessions|
  {
    seq(|accessions|, k requires 0 <= k < |accessions| =>
      accessions[k] + "\t" + NatStr(k + 1) + "\t" + Topology(k))
  }

  /** The chromosome list for the accessions found. */
  function Listing(accessions: seq<string>): string
  {
    Unlines(Rows(accessions))
  }

  lemma ListingStep(accessions: seq<string>, k: nat, text: string)
    requires k < |accessions| && text == Listing(accessions[..k])
    ensures text + (accessions[k] + "\t" + NatStr(k + 1) + "\t" + Topology(k) + "\n") == Listing(accessions[..k + 1])
  {
    var row := accessions[k] + "\t" + NatStr(k + 1) + "\t" + Topology(k);
    assert Rows(accessions[..k + 1]) == Rows(accessions[..k]) + [row];
    UnlinesAppend(Rows(accessions[..k]), [row]);
    UnlinesOne(row);
  }

  lemma AccessionsStep(lines: seq<string>, k: nat)
    requires k < |lines|
    ensures Accessions(lines[..k + 1])
      == Accessions(lines[..k]) + match AccessionOf(lines[k]) case Some(w) => [w] case None => []
  {
    TakeShorter(lines, k);
  }

  /** `create_chromosome_list`: nothing when no list is asked for or the
      EMBL file does not exist; otherwise the list of the accessions read
      from the file's lines. */
  method CreateChromosomeList(listFile: Option<string>, embl: Option<string>) returns (listing: Option<string>)
    ensures listFile.None? || embl.None? ==> listing.None?
    ensures listFile.Some? && embl.Some? ==> listing == Some(Listing(Accessions(ReadLines(embl.value))))
  {
    if listFile.None? {
      return None;
    }
    if embl.None? {
      return None;
    }
    var lines := ReadLines(embl.value);
    var accessions: seq<string> := [];
    var k := 0;
    while k < |lines|
      invariant 0 <= k <= |lines|
      invariant accessions == Accessions(lines[..k])
    {
      AccessionsStep(lines, k);
      var m := AccessionOf(lines[k]);
      if m.Some? {
        accessions := accessions + [m.value];
      }
      k := k + 1;
    }
    assert lines[..k] == lines;
    var text := "";
    k := 0;
    while k < |accessions|
      invariant 0 <= k <= |accessions|
      invariant text == Listing(accessions[..k])
    {
      ListingStep(accessions, k, text);
      var chromosomeType := "Chromosome";
      if k > 0 {
        chromosomeType := "Plasmid";
      }
      text := text + (accessions[k] + "\t" + NatStr(k + 1) + "\t" + chromosomeType + "\n");
      k := k + 1;
    }
    assert accessions[..k] == accessions;
    listing := Some(text);
  }

  /** Tokens of word characters read back from the list: one line per
      token, holding the token, its 1-based position and `Chromosome` for
      the first, `Plasmid` for every later one, separated by tabs. */
  lemma ListingReadsBack(accessions: seq<string>)
    requires forall k :: 0 <= k < |accessions| ==> forall c :: c in accessions[k] ==> IsWordChar(c)
    ensures var lines := ReadLines(Listing(accessions));
      |lines| == |accessions|
      && forall k :: 0 <= k < |accessions| ==>
        lines[k] == Rows(accessions)[k] + "\n"
        && Split(Rows(accessions)[k], '\t') == [accessions[k], NatStr(k + 1), Topology(k)]
        && ParseNat(NatStr(k + 1)) == k + 1
        && (Topology(k) == "Chromosome" <==> k == 0)
  {
    var rows := Rows(accessions);
    forall k | 0 <= k < |accessions|
      ensures '\n' !in rows[k]
      ensures Split(rows[k], '\t') == [accessions[k], NatStr(k + 1), Topology(k)]
      ensures ParseNat(NatStr(k + 1)) == k + 1
    {
      RowSplits(accessions[k], k);
      ParseNatStr(k + 1);
    }
    assert OneLineEach(rows);
    ReadLinesSuffixed(rows);
  }

  lemma RowSplits(accession: string, index: nat)
    requires forall c :: c in accession ==> IsWordChar(c)
    ensures var row := accession + "\t" + NatStr(index + 1) + "\t" + Topology(index);
      '\n' !in row && Split(row, '\t') == [accession, NatStr(index + 1), Topology(index)]
  {
    var number := NatStr(index + 1);
    var topology := Topology(index);
    NatStrAvoids(index + 1, '\t');
    NatStrAvoids(index + 1, '\n');
    assert '\t' !in accession && '\n' !in accession;
    TopologyAvoids(index);
    RowRegroup(accession, number, topology);
    SplitAround(accession, number + ['\t'] + topology, '\t');
    SplitAround(number, topology, '\t');
    SplitNoSep(accession, '\t');
    SplitNoSep(number, '\t');
    SplitNoSep(topology, '\t');
  }

  lemma TopologyAvoids(index: nat)
    ensures '\t' !in Topology(index) && '\n' !in Topology(index)
  {
  }

  lemma RowRegroup(accession: string, number: string, topology: string)
    ensures accession + "\t" + number + "\t" + topology == accession + ['\t'] + (number + ['\t'] + topology)
  {
  }

  // ---------------------------------------------------------------------
  // The accessions of the file written

  /** The accession written for each identifier, when it is not empty. */
  function WordIds(ids: seq<string>): (r: seq<string>)
    ensures forall k :: 0 <= k < |r| ==> r[k] != [] && forall c :: c in r[k] ==> IsWordChar(c)
  {
    if ids == [] then []
    else
      var w := FilterWord(ids[|ids| - 1]);
      WordIds(ids[..|ids| - 1]) + (if w == "" then [] else [w])
  }

  /** Lines that carry no accession add none. */
  lemma {:induction false} AccessionsNone(lines: seq<string>)
    requires forall k :: 0 <= k < |lines| ==> AccessionOf(lines[k]).None?
    ensures Accessions(lines) == []
  {
    if lines != [] {
      AccessionsNone(lines[..|lines| - 1]);
    }
  }

  /** A line starting with another letter pair carries no accession. */
  lemma NotAccession(line: string)
    requires (|line| >= 1 && line[0] != 'A') || 'A' !in line
    ensures AccessionOf(line).None?
  {
    AccessionLineStartsA(line);
  }

  lemma AccessionLineStartsA(line: string)
    ensures AccessionOf(line).Some? ==> |line| >= 1 && line[0] == 'A'
  {
    if AccessionOf(line).Some? {
      assert line[..6] == Header.AccessionMark;
      assert line[0] == line[..6][0];
    }
  }

  lemma TableTextAccessions(text: string)
    requires Features.FeatureTableText(text)
    ensures Accessions(ReadLines(text)) == []
  {
    var lines := ReadLines(text);
    forall k | 0 <= k < |lines| ensures AccessionOf(lines[k]).None? {
      assert lines[k][..2] == "FT";
      NotAccession(lines[k]);
    }
    AccessionsNone(lines);
  }

  /** The header's one accession is the filtered identifier, when that is not empty. */
  lemma HeaderAccessions(numBp: nat, meta: Header.Metadata, counter: nat, id: string)
    requires Header.OneLineHeaderFields(meta)
    ensures Accessions(ReadLines(Header.PopulatedHeader(numBp, meta, counter, id))) == WordIds([id])
  {
    var lines := Header.HeaderLines(numBp, meta, counter, id);
    Header.HeaderReadsBack(numBp, meta, counter, id);
    Header.HeaderLayout(numBp, meta, counter, id);
    var read := Suffixed(lines);
    assert read == read[..4] + [read[4]] + read[5..];
    forall k | 0 <= k < 4 ensures AccessionOf(read[..4][k]).None? {
      MarkNotAdded(lines[k]);
    }
    forall k | 0 <= k < |read[5..]| ensures AccessionOf(read[5..][k]).None? {
      MarkNotAdded(lines[k + 5]);
    }
    AccessionsNone(read[..4]);
    AccessionsNone(read[5..]);
    AccessionsAppend(read[..4], [read[4]]);
    AccessionsAppend(read[..4] + [read[4]], read[5..]);
    AccessionLineReadsBack(id);
    assert [id][..0] == [];
  }

  lemma MarkNotAdded(line: string)
    requires !StartsWith(line, Header.AccessionMark)
    ensures AccessionOf(line + "\n").None?
  {
    if |line| >= 6 {
      assert (line + "\n")[..6] == line[..6];
    }
  }

  lemma AccessionLineReadsBack(id: string)
    ensures Accessions([Header.AccessionMark + FilterWord(id) + "\n"]) == WordIds([id])
  {
    var w := FilterWord(id);
    var line := Header.AccessionMark + w + "\n";
    assert line[6..] == w + "\n";
    WordPrefixOfWord(w, "\n");
    assert [line][..0] == [];
    assert [id][..0] == [];
  }

  /** The source feature adds no accession. */
  lemma SourceAccessions(length: nat, organism: string, taxonId: nat, id: string)
    requires '\n' !in organism && '\n' !in id
    ensures Accessions(ReadLines(Header.SourceTemplate(length, organism, taxonId, id))) == []
  {
    Header.SourceReadsBack(length, organism, taxonId, id);
    var lines := Header.SourceLines(length, organism, taxonId, id);
    var read := Suffixed(lines);
    forall k | 0 <= k < |read| ensures AccessionOf(read[k]).None? {
      assert lines[k][0] == 'F';
      NotAccession(read[k]);
    }
    AccessionsNone(read);
  }

  /** The sequence block adds no accession. */
  lemma BlockAccessions(sequence: string)
    ensures Accessions(ReadLines(SequenceFormat.SequenceBlock(sequence))) == []
    ensures EndsWithNewline(SequenceFormat.SequenceBlock(sequence))
  {
    var head := SequenceFormat.SequenceHeader(sequence);
    var body := SequenceFormat.Body(sequence);
    ReadOneLine(head[..|head| - 1]);
    assert head[..|head| - 1] + "\n" == head;
    ReadLinesAppend(head, body);
    assert head[0] == 'S';
    NotAccession(head);
    AccessionsNone([head]);
    SequenceFormat.BodyAvoidsA(sequence);
    ReadLinesAvoid(body, 'A');
    forall k | 0 <= k < |ReadLines(body)| ensures AccessionOf(ReadLines(body)[k]).None? {
      NotAccession(ReadLines(body)[k]);
    }
    AccessionsNone(ReadLines(body));
    AccessionsAppend([head], ReadLines(body));
    SequenceFormat.BodyEndsWithLength(sequence);
    var tail := RJust(NatStr(|sequence|), 9) + "\n";
    assert body[|body| - 1] == tail[|tail| - 1];
  }

  lemma NewlineEnd(a: string, b: string)
    requires a == [] || EndsWithNewline(a)
    requires b == [] || EndsWithNewline(b)
    ensures a + b == [] || EndsWithNewline(a + b)
  {
    if b == [] {
      assert a + b == a;
    } else {
      assert (a + b)[|a + b| - 1] == b[|b| - 1];
    }
  }

  /** Reading the lines of two texts cut at a line end, and their accessions. */
  lemma AccessionsJoin(a: string, b: string)
    requires a == [] || EndsWithNewline(a)
    ensures Accessions(ReadLines(a + b)) == Accessions(ReadLines(a)) + Accessions(ReadLines(b))
  {
    ReadLinesAppend(a, b);
    AccessionsAppend(ReadLines(a), ReadLines(b));
  }

  /** The identifiers' own conditions for the round trip. */
  predicate Writable(id: string, feats: map<string, seq<string>>) {
    '\n' !in id
    && forall k :: 0 <= k < |FeaturesOf(feats, id)| ==> Features.FeatureTableText(FeaturesOf(feats, id)[k])
  }

  /** One entry's only accession is its filtered identifier, when that is not empty. */
  lemma RecordAccessions(id: string, counter: nat, sequences: map<string, string>,
                         feats: map<string, seq<string>>, meta: Header.Metadata)
    requires id in sequences && Header.OneLineFields(meta) && Writable(id, feats)
    ensures Accessions(ReadLines(Record(id, counter, sequences, feats, meta))) == WordIds([id])
    ensures EndsWithNewline(Record(id, counter, sequences, feats, meta))
  {
    var length := |sequences[id]|;
    var h := Header.PopulatedHeader(length, meta, counter, id);
    var s := Header.SourceTemplate(length, meta.organism, meta.taxonId, id);
    var f := Concat(FeaturesOf(feats, id));
    var b := SequenceFormat.SequenceBlock(sequences[id]);
    HeaderAccessions(length, meta, counter, id);
    SourceAccessions(length, meta.organism, meta.taxonId, id);
    Features.ConcatTableText(FeaturesOf(feats, id));
    TableTextAccessions(f);
    BlockAccessions(sequences[id]);
    UnlinesEnds(Header.HeaderLines(length, meta, counter, id));
    UnlinesEnds(Header.SourceLines(length, meta.organism, meta.taxonId, id));
    EntryAccessions(h, s, f, b, WordIds([id]));
  }

  /** An entry's accessions are its header's when the other parts add none. */
  lemma EntryAccessions(h: string, s: string, f: string, b: string, w: seq<string>)
    requires EndsWithNewline(h) && EndsWithNewline(s) && (f == [] || EndsWithNewline(f)) && EndsWithNewline(b)
    requires Accessions(ReadLines(h)) == w
    requires Accessions(ReadLines(s)) == [] && Accessions(ReadLines(f)) == [] && Accessions(ReadLines(b)) == []
    ensures Accessions(ReadLines(h + s + f + b + "//\n")) == w
    ensures EndsWithNewline(h + s + f + b + "//\n")
  {
    var t := "//\n";
    TerminatorAddsNone();
    AddsNone(h, s, w);
    AddsNone(h + s, f, w);
    AddsNone(h + s + f, b, w);
    AddsNone(h + s + f + b, t, w);
    assert (h + s + f + b + t)[|h + s + f + b + t| - 1] == '\n';
  }

  lemma TerminatorAddsNone()
    ensures Accessions(ReadLines("//\n")) == [] && EndsWithNewline("//\n")
  {
    ReadOneLine("//");
    assert "//" + "\n" == "//\n";
    NotAccession("//\n");
    AccessionsNone(["//\n"]);
  }

  lemma AddsNone(a: string, b: string, w: seq<string>)
    requires EndsWithNewline(a) && (b == [] || EndsWithNewline(b))
    requires Accessions(ReadLines(a)) == w && Accessions(ReadLines(b)) == []
    ensures Accessions(ReadLines(a + b)) == w && EndsWithNewline(a + b)
  {
    AccessionsJoin(a, b);
    NewlineEnd(a, b);
    assert w + [] == w;
  }

  /** The round trip from identifiers to chromosome list: the accessions
      read back from the file written are the identifiers' filtered forms,
      the empty ones left out, in sorted identifier order. */
  lemma OutputAccessions(sequences: map<string, string>, feats: map<string, seq<string>>, meta: Header.Metadata)
    requires Header.OneLineFields(meta)
    requires forall id :: id in sequences ==> Writable(id, feats)
    ensures Accessions(ReadLines(OutputFile(sequences, feats, meta))) == WordIds(SortedNames(sequences.Keys))
  {
    RecordsAccessions(SortedNames(sequences.Keys), sequences, feats, meta);
  }

  lemma {:induction false} RecordsAccessions(ids: seq<string>, sequences: map<string, string>,
                                             feats: map<string, seq<string>>, meta: Header.Metadata)
    requires forall k :: 0 <= k < |ids| ==> ids[k] in sequences && Writable(ids[k], feats)
    requires Header.OneLineFields(meta)
    ensures Accessions(ReadLines(Records(ids, sequences, feats, meta))) == WordIds(ids)
    ensures Records(ids, sequences, feats, meta) == [] || EndsWithNewline(Records(ids, sequences, feats, meta))
  {
    if ids != [] {
      var front := ids[..|ids| - 1];
      var last := ids[|ids| - 1];
      RecordsAccessions(front, sequences, feats, meta);
      RecordAccessions(last, |ids|, sequences, feats, meta);
      var a := Records(front, sequences, feats, meta);
      var r := Record(last, |ids|, sequences, feats, meta);
      AccessionsAfter(a, r, WordIds(front), WordIds([last]));
      WordIdsSnoc(ids);
      assert Records(ids, sequences, feats, meta) == a + r;
    }
  }

  lemma AccessionsAfter(a: string, r: string, x: seq<string>, y: seq<string>)
    requires a == [] || EndsWithNewline(a)
    requires EndsWithNewline(r)
    requires Accessions(ReadLines(a)) == x && Accessions(ReadLines(r)) == y
    ensures Accessions(ReadLines(a + r)) == x + y && EndsWithNewline(a + r)
  {
    AccessionsJoin(a, r);
    NewlineEnd(a, r);
  }

  lemma WordIdsSnoc(ids: seq<string>)
    requires ids != []
    ensures WordIds(ids) == WordIds(ids[..|ids| - 1]) + WordIds([ids[|ids| - 1]])
  {
    assert [ids[|ids| - 1]][..0] == [];
  }

  /** The chromosome list of the file written names the filtered
      identifiers in sorted order, the first as the chromosome. */
  lemma ChromosomeListOfOutput(sequences: map<string, string>, feats: map<string, seq<string>>,
                               meta: Header.Metadata)
    requires Header.OneLineFields(meta)
    requires forall id :: id in sequences ==> Writable(id, feats)
    ensures var names := WordIds(SortedNames(sequences.Keys));
      var lines := ReadLines(Listing(Accessions(ReadLines(OutputFile(sequences, feats, meta)))));
      |lines| == |names|
      && forall k :: 0 <= k < |names| ==>
        Split(Rows(names)[k], '\t') == [names[k], NatStr(k + 1), Topology(k)] && lines[k] == Rows(names)[k] + "\n"
  {
    OutputAccessions(sequences, feats, meta);
    var names := WordIds(SortedNames(sequences.Keys));
    ListingReadsBack(names);
  }
}
